/**
 * The per-run physical frame allocator that every Task shares: a bitmap with
 * one slot per physical frame (true = free), first-fit allocation, freeing by
 * frame number, and the count and byte queries.
 */
module FrameAllocator {
  import opened Common
  import opened Config

  /** The number of free slots (true entries) in a bitmap. */
  function CountFree(s: seq<bool>): (r: nat)
    ensures r <= |s|
    ensures r == 0 <==> forall i :: 0 <= i < |s| ==> !s[i]
  {
    if s == [] then 0
    else CountFree(s[..|s| - 1]) + (if s[|s| - 1] then 1 else 0)
  }

  /** Marking one free slot as allocated lowers the free count by exactly one. */
  lemma {:induction false} CountFreeAllocate(s: seq<bool>, f: nat)
    requires f < |s| && s[f]
    ensures CountFree(s[f := false]) == CountFree(s) - 1
    decreases |s|
  {
    var t := s[f := false];
    if f < |s| - 1 {
      assert t[..|t| - 1] == s[..|s| - 1][f := false];
      CountFreeAllocate(s[..|s| - 1], f);
    } else {
      assert t[..|t| - 1] == s[..|s| - 1];
    }
  }

  /** Marking one allocated slot as free raises the free count by exactly one. */
  lemma {:induction false} CountFreeRelease(s: seq<bool>, f: nat)
    requires f < |s| && !s[f]
    ensures CountFree(s[f := true]) == CountFree(s) + 1
    decreases |s|
  {
    var t := s[f := true];
    if f < |s| - 1 {
      assert t[..|t| - 1] == s[..|s| - 1][f := true];
      CountFreeRelease(s[..|s| - 1], f);
    } else {
      assert t[..|t| - 1] == s[..|s| - 1];
    }
  }

  /** A bitmap with every slot free counts all of its slots. */
  lemma {:induction false} CountFreeAllFree(s: seq<bool>)
    requires forall i :: 0 <= i < |s| ==> s[i]
    ensures CountFree(s) == |s|
    decreases |s|
  {
    if s != [] {
      CountFreeAllFree(s[..|s| - 1]);
    }
  }

  /** The allocated slots (false entries) of a bitmap, by frame number. */
  ghost function AllocatedSet(s: seq<bool>): set<nat>
  {
    set i: nat | i < |s| && !s[i]
  }

  /** The allocated and the free slots together make up the bitmap. */
  lemma {:induction false} AllocatedCount(s: seq<bool>)
    ensures |AllocatedSet(s)| + CountFree(s) == |s|
    decreases |s|
  {
    if s != [] {
      var prefix := s[..|s| - 1];
      AllocatedCount(prefix);
      if s[|s| - 1] {
        assert AllocatedSet(s) == AllocatedSet(prefix);
      } else {
        assert AllocatedSet(s) == AllocatedSet(prefix) + {|s| - 1};
      }
    }
  }

  class MemoryManager {
    /** Page size in bytes. */
    const pageSize: nat
    /** Total number of frames, fixed at construction. */
    const numFrames: nat
    /** One slot per frame: true == free, false == allocated. */
    const frameBitmap: array<bool>

    ghost predicate Valid()
      reads this
    {
      pageSize > 0 && numFrames == PHYSICAL_MEMORY_SIZE / pageSize && frameBitmap.Length == numFrames
    }

    /** The bitmap as a value. */
    ghost function Bitmap(): (s: seq<bool>)
      reads this, frameBitmap
    {
      frameBitmap[..]
    }

    /** Initialises the manager for a page size: every frame starts free. */
    constructor (pageSizeBytes: nat)
      requires pageSizeBytes > 0
      ensures Valid() && fresh(frameBitmap)
      ensures pageSize == pageSizeBytes && numFrames == PHYSICAL_MEMORY_SIZE / pageSizeBytes
      ensures forall i :: 0 <= i < numFrames ==> frameBitmap[i]
      ensures CountFree(Bitmap()) == numFrames
    {
      pageSize := pageSizeBytes;
      numFrames := PHYSICAL_MEMORY_SIZE / pageSizeBytes;
      frameBitmap := new bool[PHYSICAL_MEMORY_SIZE / pageSizeBytes](_ => true);
      new;
      CountFreeAllFree(frameBitmap[..]);
    }

    /**
     * Allocates the lowest free frame and marks it allocated; returns -1 when
     * no frame is free (nothing changes then).
     */
    method AllocateFrame() returns (frame: int)
      requires Valid()
      modifies frameBitmap
      ensures frame == -1 <==> CountFree(old(Bitmap())) == 0
      ensures frame != -1 ==> 0 <= frame < numFrames && old(frameBitmap[frame])
      ensures frame != -1 ==> forall i :: 0 <= i < frame ==> !old(frameBitmap[i])
      ensures Bitmap() == if frame == -1 then old(Bitmap()) else old(Bitmap())[frame := false]
      ensures frame != -1 ==> CountFree(Bitmap()) == CountFree(old(Bitmap())) - 1
    {
      var i := 0;
      while i < frameBitmap.Length
        invariant 0 <= i <= frameBitmap.Length
        invariant forall j :: 0 <= j < i ==> !frameBitmap[j]
        invariant frameBitmap[..] == old(frameBitmap[..])
      {
        if frameBitmap[i] {
          frameBitmap[i] := false;
          CountFreeAllocate(old(frameBitmap[..]), i);
          return i;
        }
        i := i + 1;
      }
      return -1;
    }

    /** Marks a frame free again; the caller must pass a frame below the total. */
    method FreeFrame(frame: nat)
      requires Valid() && frame < numFrames
      modifies frameBitmap
      ensures Bitmap() == old(Bitmap())[frame := true]
      ensures !old(frameBitmap[frame]) ==> CountFree(Bitmap()) == CountFree(old(Bitmap())) + 1
    {
      if !frameBitmap[frame] {
        CountFreeRelease(frameBitmap[..], frame);
      }
      frameBitmap[frame] := true;
    }

    function TotalFrames(): (n: nat)
      reads this
      requires Valid()
      ensures n == PHYSICAL_MEMORY_SIZE / pageSize
    {
      numFrames
    }

    /** Counts the free slots of the bitmap; never more than the total. */
    method FreeFrames() returns (n: nat)
      requires Valid()
      ensures n == CountFree(Bitmap()) && n <= numFrames
    {
      n := 0;
      var i := 0;
      while i < frameBitmap.Length
        invariant 0 <= i <= frameBitmap.Length
        invariant n == CountFree(frameBitmap[..i])
      {
        assert frameBitmap[..i + 1][..i] == frameBitmap[..i];
        if frameBitmap[i] {
          n := n + 1;
        }
        i := i + 1;
      }
      assert frameBitmap[..i] == frameBitmap[..];
    }

    /** Total physical memory in bytes; all of it when the page size divides it. */
    function TotalMemorySize(): (bytes: nat)
      reads this
      requires Valid()
      ensures bytes <= PHYSICAL_MEMORY_SIZE
      ensures ValidPageSize(pageSize) ==> bytes == PHYSICAL_MEMORY_SIZE
    {
      numFrames * pageSize
    }

    /** Free physical memory in bytes: the free frames times the page size. */
    method FreeMemorySize() returns (bytes: nat)
      requires Valid()
      ensures bytes == CountFree(Bitmap()) * pageSize
      ensures bytes <= TotalMemorySize()
    {
      var n := FreeFrames();
      bytes := n * pageSize;
      MulMonotonic(n, numFrames, pageSize);
    }
  }
}
