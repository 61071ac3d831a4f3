/** The physical memory manager itself: the region table and the four sweeps over it. */
module MemoryManagers {
  import opened Wrappers
  import opened MemoryIndex

  /** Past the ranges that end on the page. */
  method SkipEnded(used: seq<Range>, start: nat, page: nat) returns (i: nat)
    requires Sorted(used) && start < |used| && Marks(used, start, page) && Passed(used, start, page + 1)
    ensures i <= |used| && Passed(used, i, page + 1)
    ensures i < |used| ==> Current(used, i, page + 1)
  {
    hide Passed, Marks, Sorted;
    i := start;
    while used[i].hi <= (page + 1) * PAGE
      invariant start <= i < |used| && Passed(used, i, page + 1)
      decreases |used| - i
    {
      SkipRange(used, start, i, page);
      i := i + 1;
      if i >= |used| {
        break;
      }
    }
  }

  class MemoryManager {
    const bitmap: array<Bits>
    const next: array<nat>
    const prev: array<nat>
    var lists: seq<Option<nat>>
    var mask: Bits
    var floating: seq<nat>
    var taken: seq<nat>

    ghost predicate Shape()
      reads this
    {
      && bitmap.Length == next.Length == prev.Length == REGIONS && next != prev
      && |lists| == |floating| == 3 && |taken| == 4
    }

    ghost function Contents(): Index
      reads this, bitmap, next
    {
      Index(bitmap[..], next[..], lists, mask, floating, taken)
    }

    /** A manager as `pmm_init_at` leaves it. */
    constructor ()
      ensures Shape() && Blank(Contents()) && fresh(bitmap) && fresh(next) && fresh(prev)
    {
      bitmap := new Bits[REGIONS](_ => Ones(16));
      next := new nat[REGIONS](_ => CHAIN_END);
      prev := new nat[REGIONS](_ => CHAIN_END);
      lists := [None, None, None];
      mask := Ones(SUPERSECTIONS);
      floating := [0, 0, 0];
      taken := [0, 0, 0, 0];
    }

    method Float(region: nat, q: nat)
      requires Shape() && region < REGIONS && q < 3
      modifies this, next, prev
      ensures Shape() && Contents() == Floated(old(Contents()), region, q)
    {
      floating := floating[q := floating[q] + 1];
      prev[region] := CHAIN_END;
      next[region] := HeadLink(lists[q]);
      lists := lists[q := Some(region)];
    }

    method TakePage(j: nat)
      requires Shape() && j < PAGES
      modifies this, bitmap
      ensures Shape() && Contents() == PageTaken(old(Contents()), j)
    {
      taken := taken[0 := taken[0] + 1];
      bitmap[j / 16] := bitmap[j / 16] - {j % 16};
    }

    /** Clears the bits of the pages in use, or panics, exactly when the ranges are not
        acceptable. */
    method MarkPages(used: seq<Range>) returns (ok: bool)
      requires Shape() && Sorted(used) && PagesSwept(Contents(), Contents(), used, 0)
      modifies this, bitmap
      ensures Shape() && ok == Accepted(used)
      ensures ok ==> PagesSwept(old(Contents()), Contents(), used, PAGES)
    {
      if |used| == 0 {
        return false;
      }
      hide PagesSwept, BusyTo, PageTaken, Accepted, Marks;
      var i: nat := 0;
      assert Passed(used, 0, 0) && Current(used, 0, 0);
      hide Passed, Current, Sorted;
      for j := 0 to PAGES - 1
        invariant Shape() && i < |used|
        invariant Passed(used, i, j) && Current(used, i, j)
        invariant PagesSwept(old(Contents()), Contents(), used, j)
      {
        var end := (j + 1) * PAGE;
        PageStep(old(Contents()), Contents(), used, i, j);
        if end <= used[i].lo {
          continue;
        }
        TakePage(j);
        i := SkipEnded(used, i, j);
        if i >= |used| {
          DoneIsAccepted(used, j + 1);
          AllPages(old(Contents()), Contents(), used, j + 1);
          return true;
        }
      }
      LeftIsRefused(used, i);
      return false;
    }

    /** One level: the inner loop handles the sixteen regions of one parent. */
    method IndexLevel(l: Level)
      requires Shape() && l.Ok() && LevelSwept(Contents(), Contents(), l, 0)
      modifies this, bitmap, next, prev
      ensures Shape() && LevelSwept(old(Contents()), Contents(), l, l.n)
    {
      hide LevelSwept, Indexed;
      for i := 0 to l.n / 16
        invariant Shape() && LevelSwept(old(Contents()), Contents(), l, 16 * i)
      {
        for j := 16 * i to 16 * i + 16
          invariant Shape() && LevelSwept(old(Contents()), Contents(), l, j)
        {
          LevelStep(old(Contents()), Contents(), l, j);
          IndexRegion(l, i, j);
        }
      }
    }

    method IndexRegion(l: Level, i: nat, j: nat)
      requires Shape() && l.Ok() && j < l.n && i == j / 16
      modifies this, bitmap, next, prev
      ensures Shape() && Contents() == Indexed(old(Contents()), l, j)
    {
      hide Ones;
      if bitmap[l.base + j] != Ones(16) {
        taken := taken[l.q + 1 := taken[l.q + 1] + 1];
        bitmap[l.parent + i] := bitmap[l.parent + i] - {j % 16};
        assert bitmap[..] == Cleared(old(bitmap[..]), l.parent, j);
        assert bitmap[l.base + j] == old(bitmap[l.base + j]);
        hide Cleared;
        if bitmap[l.base + j] != {} {
          Float(l.base + j, l.q);
        }
      }
    }

    method IndexSupersections()
      requires Shape() && MaskSwept(Contents(), Contents(), 0)
      modifies this, next, prev
      ensures Shape() && MaskSwept(old(Contents()), Contents(), SUPERSECTIONS)
    {
      hide MaskSwept;
      for i := 0 to SUPERSECTIONS
        invariant Shape() && MaskSwept(old(Contents()), Contents(), i)
      {
        MaskStep(old(Contents()), Contents(), i);
        IndexSupersection(i);
      }
    }

    method IndexSupersection(i: nat)
      requires Shape() && i < SUPERSECTIONS
      modifies this, next, prev
      ensures Shape() && Contents() == MaskedOff(old(Contents()), i)
    {
      hide Ones;
      if bitmap[SS_BASE + i] != Ones(16) {
        taken := taken[3 := taken[3] + 1];
        mask := mask - {i};
        if bitmap[SS_BASE + i] != {} {
          Float(SS_BASE + i, 2);
        }
      }
    }

    /** Sets every bit and cuts every link; the chains' heads and the counts are as before. */
    method Wipe()
      requires Shape()
      modifies this, bitmap, next, prev
      ensures Shape() && lists == old(lists) && floating == old(floating) && taken == old(taken)
      ensures mask == Ones(SUPERSECTIONS) && forall r :: 0 <= r < REGIONS ==> bitmap[r] == Ones(16)
    {
      hide Ones;
      mask := Ones(SUPERSECTIONS);
      for r := 0 to REGIONS
        invariant Shape() && lists == old(lists) && floating == old(floating) && taken == old(taken)
        invariant mask == Ones(SUPERSECTIONS)
        invariant forall k :: 0 <= k < r ==> bitmap[k] == Ones(16)
      {
        bitmap[r] := Ones(16);
        prev[r] := CHAIN_END;
        next[r] := CHAIN_END;
      }
    }

    /** From a manager that has indexed nothing and any sorted, disjoint ranges: either the
        index of those ranges, or a panic, and which of the two. */
    method InitializeOnce(used: seq<Range>) returns (ok: bool)
      requires Shape() && Blank(Contents()) && Sorted(used)
      modifies this, bitmap, next, prev
      ensures Shape() && ok == Accepted(used)
      ensures ok ==> Built(Contents(), used)
    {
      hide Ones, Sorted, PagesSwept, LevelSwept, MaskSwept;
      Wipe();
      ghost var v0 := Contents();
      assert Blank(v0);
      PagesStart(v0, used);
      ok := MarkPages(used);
      if ok {
        ghost var v1 := Contents();
        SweepStarts(v0, v1, used);
        IndexLevel(LargePageLevel);
        ghost var v2 := Contents();
        SectionStarts(v0, v1, v2, used);
        IndexLevel(SectionLevel);
        ghost var v3 := Contents();
        MaskStarts(v0, v1, v2, v3, used);
        IndexSupersections();
        SweepsBuild(v0, v1, v2, v3, Contents(), used);
      }
    }
  }
}
