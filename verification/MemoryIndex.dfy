/** The physical memory manager's three-level index, as `initialize_once` builds it from the
    ranges in use: which bits end up clear, what the floating chains visit, what is counted.
    A bitmap word is the set of its bits that are one; a bit is one while nothing below it
    is in use. */
module MemoryIndex {
  import opened Wrappers

  type Bits = set<nat>

  datatype Range = Range(lo: nat, hi: nat)

  const PAGE := 0x1000
  const PAGES := 0x2_0000
  const LARGE_PAGES := 0x2000
  const SECTIONS := 0x200
  const SUPERSECTIONS := 0x20
  const REGIONS := 0x2220
  const CHAIN_END := 0xffff

  // Where each kind's regions begin.
  const LP_BASE := 0
  const S_BASE := 0x2000
  const SS_BASE := 0x2200

  // ----- Bits ------------------------------------------------------------------------

  function Ones(n: nat): Bits
  {
    if n == 0 then {} else Ones(n - 1) + {n - 1}
  }

  lemma {:induction false} OnesHas(n: nat, k: nat)
    ensures k in Ones(n) <==> k < n
  {
    if n > 0 {
      OnesHas(n - 1, k);
    }
  }

  /** One of the sixteen regions that make up region `x` of the level above. */
  predicate Below(x: int, y: int)
  {
    16 * x <= y < 16 * x + 16
  }

  /** Bit `x` of the words that start at `base`, sixteen to a word. */
  predicate BitAt(bitmap: seq<Bits>, base: nat, x: int)
  {
    0 <= x && base + x / 16 < |bitmap| && x % 16 in bitmap[base + x / 16]
  }

  predicate FreeAt(bitmap: seq<Bits>, base: nat, x: int)
  {
    0 <= x && base + x < |bitmap| && bitmap[base + x] == Ones(16)
  }

  predicate PartlyAt(bitmap: seq<Bits>, base: nat, x: int)
  {
    0 <= x && base + x < |bitmap| && bitmap[base + x] != Ones(16) && bitmap[base + x] != {}
  }

  function Cleared(bitmap: seq<Bits>, base: nat, x: nat): seq<Bits>
    requires base + x / 16 < |bitmap|
  {
    bitmap[base + x / 16 := bitmap[base + x / 16] - {x % 16}]
  }

  lemma ClearedBit(bitmap: seq<Bits>, base: nat, x: nat, y: int)
    requires base + x / 16 < |bitmap|
    ensures BitAt(Cleared(bitmap, base, x), base, y) <==> BitAt(bitmap, base, y) && y != x
  {
    if y / 16 == x / 16 && y % 16 == x % 16 {
      assert y == 16 * (y / 16) + y % 16;
      assert x == 16 * (x / 16) + x % 16;
    }
  }

  predicate WordOnly(word: Bits, n: nat)
  {
    forall k :: k in word ==> k < n
  }

  lemma OnesIs(n: nat, word: Bits)
    requires WordOnly(word, n)
    ensures word == Ones(n) <==> forall k :: 0 <= k < n ==> k in word
  {
    forall k: nat
      ensures k in Ones(n) <==> k < n
    {
      OnesHas(n, k);
    }
    hide Ones;
    if forall k :: 0 <= k < n ==> k in word {
      assert forall k: nat :: k in Ones(n) <==> k in word;
    }
  }

  /** A word is all ones exactly when each of its bits is. */
  lemma FreeIffBits(bitmap: seq<Bits>, base: nat, x: nat)
    requires base + x < |bitmap| && WordOnly(bitmap[base + x], 16)
    ensures FreeAt(bitmap, base, x) <==> forall y :: Below(x, y) ==> BitAt(bitmap, base, y)
  {
    hide Ones;
    var word := bitmap[base + x];
    OnesIs(16, word);
    if forall y :: Below(x, y) ==> BitAt(bitmap, base, y) {
      forall k | 0 <= k < 16
        ensures k in word
      {
        assert Below(x, 16 * x + k) && BitAt(bitmap, base, 16 * x + k);
      }
    }
  }

  // ----- Pages -----------------------------------------------------------------------

  /** The page and the range have an address in common. */
  predicate Meets(r: Range, page: int)
  {
    r.lo < (page + 1) * PAGE && page * PAGE < r.hi
  }

  /** Whether the sweep takes the page for the `i`th range: when the two meet; and for an empty
      range the page its address lies in, unless that is where the page begins and an earlier
      range has taken the page before. */
  ghost predicate Marks(used: seq<Range>, i: nat, page: int)
    decreases i, 1
  {
    i < |used| &&
    if used[i].lo < used[i].hi then Meets(used[i], page)
    else
      page == used[i].lo / PAGE
      && !(used[i].lo % PAGE == 0 && MarkedBefore(used, i, page - 1))
  }

  ghost predicate MarkedBefore(used: seq<Range>, i: nat, page: int)
    decreases i, 0
  {
    exists k: nat :: k < i && Marks(used, k, page)
  }

  ghost predicate Used(used: seq<Range>, page: int)
  {
    exists i: nat :: i < |used| && Marks(used, i, page)
  }

  /** Without empty ranges a page is used exactly when it meets one. */
  lemma UsedIffMeets(used: seq<Range>, page: int)
    requires forall i :: 0 <= i < |used| ==> used[i].lo < used[i].hi
    ensures Used(used, page) <==> exists i :: 0 <= i < |used| && Meets(used[i], page)
  {
    hide Meets;
    if i :| 0 <= i < |used| && Meets(used[i], page) {
      assert Marks(used, i, page);
    }
  }

  predicate Sorted(used: seq<Range>)
  {
    && (forall i :: 0 <= i < |used| ==> used[i].lo <= used[i].hi)
    && (forall i, k :: 0 <= i < k < |used| ==> used[i].hi <= used[k].lo)
  }

  /** The sweep's last page would lie beyond the last address it can name: the last range must
      end before that page, and an empty one at its very beginning only passes with the page
      before. */
  ghost predicate Accepted(used: seq<Range>)
  {
    && |used| > 0
    && var last := |used| - 1;
       && used[last].hi <= (PAGES - 1) * PAGE
       && (used[last].lo == used[last].hi == (PAGES - 1) * PAGE ==> MarkedBefore(used, last, PAGES - 2))
  }

  /** A region of a level is busy when one of the sixteen below it is; at the bottom are the
      pages themselves. */
  ghost predicate Busy(used: seq<Range>, level: nat, x: int)
  {
    if level == 0 then Used(used, x)
    else exists y :: Below(x, y) && Busy(used, level - 1, y)
  }

  ghost function BusyTo(used: seq<Range>, level: nat, n: nat): nat
  {
    if n == 0 then 0 else BusyTo(used, level, n - 1) + (if Busy(used, level, n - 1) then 1 else 0)
  }

  function Ancestor(page: nat, level: nat): nat
  {
    if level == 0 then page else Ancestor(page, level - 1) / 16
  }

  /** So a region is busy exactly when some page anywhere below it meets a used range. */
  lemma {:induction false} BusyIffPageUsed(used: seq<Range>, level: nat, x: nat)
    ensures Busy(used, level, x) <==> exists page: nat :: Ancestor(page, level) == x && Used(used, page)
  {
    if level == 0 {
      if Used(used, x) {
        assert Ancestor(x, 0) == x;
      }
    } else {
      if Busy(used, level, x) {
        var y :| Below(x, y) && Busy(used, level - 1, y);
        BusyIffPageUsed(used, level - 1, y);
        var page: nat :| Ancestor(page, level - 1) == y && Used(used, page);
        assert Ancestor(page, level) == x;
      }
      if page: nat :| Ancestor(page, level) == x && Used(used, page) {
        var y := Ancestor(page, level - 1);
        BusyIffPageUsed(used, level - 1, y);
        assert Below(x, y);
      }
    }
  }

  /** The range takes no page from this one on. */
  ghost predicate Over(used: seq<Range>, k: nat, page: int)
  {
    k < |used| ==> used[k].hi <= page * PAGE && forall q :: q >= page ==> !Marks(used, k, q)
  }

  /** Nor does any range before the `i`th. */
  ghost predicate Passed(used: seq<Range>, i: nat, page: int)
  {
    forall k: nat :: k < i ==> Over(used, k, page)
  }

  /** The sweep has come to the `i`th range: it ends beyond the beginning of the page, or it is
      empty and lies there, the page before not having been taken. */
  ghost predicate Current(used: seq<Range>, i: nat, page: int)
  {
    && i < |used|
    && (page * PAGE < used[i].hi
        || (used[i].lo == used[i].hi == page * PAGE && !MarkedBefore(used, i, page - 1)))
  }

  lemma NotReachedMarks(used: seq<Range>, i: nat, page: nat, k: nat)
    requires Sorted(used) && i < |used| && Passed(used, i, page) && (page + 1) * PAGE <= used[i].lo
    ensures !Marks(used, k, page)
  {
    if k < i {
      assert Over(used, k, page);
    } else if k < |used| {
      assert (page + 1) * PAGE <= used[i].lo <= used[k].lo;
      assert used[k].lo / PAGE >= page + 1;
    }
  }

  lemma NotReached(used: seq<Range>, i: nat, page: nat)
    requires Sorted(used) && i < |used| && Passed(used, i, page) && Current(used, i, page)
    requires (page + 1) * PAGE <= used[i].lo
    ensures !Used(used, page) && Current(used, i, page + 1)
  {
    forall k: nat
      ensures !Marks(used, k, page)
    {
      NotReachedMarks(used, i, page, k);
    }
    assert !MarkedBefore(used, i, page);
    hide Marks, Passed, MarkedBefore;
  }

  lemma ReachedMarks(used: seq<Range>, i: nat, page: nat)
    requires Sorted(used) && Current(used, i, page) && used[i].lo < (page + 1) * PAGE
    ensures Marks(used, i, page)
  {
    if used[i].lo == used[i].hi {
      assert used[i].lo / PAGE == page;
    }
  }

  lemma PassedLater(used: seq<Range>, i: nat, page: nat, later: nat)
    requires Passed(used, i, page) && page <= later
    ensures Passed(used, i, later)
  {
    hide Marks;
    forall k: nat | k < i
      ensures Over(used, k, later)
    {
      assert Over(used, k, page);
    }
  }

  lemma {:induction false} NoneAfter(used: seq<Range>, from: nat, n: nat)
    requires from <= n && Passed(used, |used|, from)
    ensures BusyTo(used, 0, n) == BusyTo(used, 0, from)
    ensures forall page :: from <= page ==> !Used(used, page)
  {
    hide Marks;
    forall page, k: nat | from <= page && k < |used|
      ensures !Marks(used, k, page)
    {
      assert Over(used, k, from);
    }
    if from < n {
      NoneAfter(used, from, n - 1);
    }
  }

  /** The pages below `n` have their bits, and those from `n` on are still ones. */
  ghost predicate PagesMarked(bitmap: seq<Bits>, used: seq<Range>, n: nat)
  {
    forall page :: 0 <= page < PAGES ==>
      (BitAt(bitmap, LP_BASE, page) <==> page >= n || !Used(used, page))
  }

  lemma PageMarked(bitmap: seq<Bits>, used: seq<Range>, n: nat)
    requires n < PAGES && |bitmap| == REGIONS && PagesMarked(bitmap, used, n)
    ensures Used(used, n) ==> PagesMarked(Cleared(bitmap, LP_BASE, n), used, n + 1)
    ensures !Used(used, n) ==> PagesMarked(bitmap, used, n + 1)
  {
    var bitmap' := Cleared(bitmap, LP_BASE, n);
    forall page | 0 <= page < PAGES
      ensures BitAt(bitmap', LP_BASE, page) <==> BitAt(bitmap, LP_BASE, page) && page != n
    {
      ClearedBit(bitmap, LP_BASE, n, page);
    }
    hide BitAt, Used, Cleared;
  }

  // ----- Levels ----------------------------------------------------------------------

  /** Of the level whose words start at `child`, the first `c` regions have passed on to
      their parents' words whether they are free; the other bits are still ones. */
  predicate Raised(bitmap: seq<Bits>, child: nat, parent: nat, n: nat, c: nat)
  {
    forall x :: 0 <= x < n ==>
      (BitAt(bitmap, parent, x) <==> x >= c || FreeAt(bitmap, child, x))
  }

  lemma RaisedStep(bitmap: seq<Bits>, child: nat, parent: nat, n: nat, c: nat)
    requires c < n && child + n <= parent && parent + n / 16 <= |bitmap| && n % 16 == 0
    requires Raised(bitmap, child, parent, n, c)
    ensures FreeAt(bitmap, child, c) ==> Raised(bitmap, child, parent, n, c + 1)
    ensures parent + c / 16 < |bitmap|
    ensures !FreeAt(bitmap, child, c) ==>
              Raised(Cleared(bitmap, parent, c), child, parent, n, c + 1)
  {
    hide Ones;
    assert c / 16 < n / 16;
    var bitmap' := Cleared(bitmap, parent, c);
    forall x | 0 <= x < n
      ensures BitAt(bitmap', parent, x) <==> BitAt(bitmap, parent, x) && x != c
      ensures FreeAt(bitmap', child, x) <==> FreeAt(bitmap, child, x)
    {
      ClearedBit(bitmap, parent, c, x);
      assert bitmap'[child + x] == bitmap[child + x];
    }
    hide BitAt, FreeAt, Cleared;
  }

  /** How many of a level's first `c` regions are not free. */
  function BusyCount(bitmap: seq<Bits>, base: nat, c: nat): nat
  {
    if c == 0 then 0
    else BusyCount(bitmap, base, c - 1) + (if FreeAt(bitmap, base, c - 1) then 0 else 1)
  }

  /** The partly used ones of them, last first, by their place in the region table. */
  function Partly(bitmap: seq<Bits>, base: nat, c: nat): seq<nat>
  {
    if c == 0 then []
    else if PartlyAt(bitmap, base, c - 1) then [base + c - 1] + Partly(bitmap, base, c - 1)
    else Partly(bitmap, base, c - 1)
  }

  predicate Descending(list: seq<nat>)
  {
    forall i, k :: 0 <= i < k < |list| ==> list[k] < list[i]
  }

  lemma {:induction false} PartlyHas(bitmap: seq<Bits>, base: nat, c: nat, r: nat)
    ensures r in Partly(bitmap, base, c) <==> base <= r < base + c && PartlyAt(bitmap, base, r - base)
  {
    hide Ones;
    if c > 0 {
      PartlyHas(bitmap, base, c - 1, r);
      hide PartlyAt;
      var visited, rest := Partly(bitmap, base, c), Partly(bitmap, base, c - 1);
      if PartlyAt(bitmap, base, c - 1) {
        assert r in [base + c - 1] + rest <==> r == base + c - 1 || r in rest;
      }
    }
  }

  lemma {:induction false} PartlyDescends(bitmap: seq<Bits>, base: nat, c: nat)
    ensures Descending(Partly(bitmap, base, c))
  {
    hide Ones;
    if c > 0 {
      PartlyDescends(bitmap, base, c - 1);
      hide PartlyAt;
      var rest := Partly(bitmap, base, c - 1);
      forall r: nat | r in rest
        ensures r < base + c - 1
      {
        PartlyHas(bitmap, base, c - 1, r);
      }
      ConsKeeps(base + c - 1, rest);
    }
  }

  /** Each partly used region once and nothing else. */
  lemma PartlyVisits(bitmap: seq<Bits>, base: nat, c: nat)
    ensures var visited := Partly(bitmap, base, c);
            && Descending(visited)
            && (forall r: nat :: r in visited <==> base <= r < base + c && PartlyAt(bitmap, base, r - base))
  {
    hide Ones;
    PartlyDescends(bitmap, base, c);
    hide Descending, Partly, PartlyAt;
    forall r: nat
      ensures r in Partly(bitmap, base, c) <==> base <= r < base + c && PartlyAt(bitmap, base, r - base)
    {
      PartlyHas(bitmap, base, c, r);
    }
  }

  lemma ConsKeeps(top: nat, rest: seq<nat>)
    requires Descending(rest) && forall r: nat :: r in rest ==> r < top
    ensures Descending([top] + rest)
  {
    var list := [top] + rest;
    forall k | 0 < k < |list|
      ensures list[k] == rest[k - 1] && list[k] < top
    {
      assert rest[k - 1] in rest;
    }
  }

  /** What a level's words say depends on those words alone. */
  lemma {:induction false} SameLevel(a: seq<Bits>, b: seq<Bits>, base: nat, c: nat)
    requires base + c <= |a| && base + c <= |b| && forall x :: base <= x < base + c ==> a[x] == b[x]
    ensures BusyCount(a, base, c) == BusyCount(b, base, c)
    ensures Partly(a, base, c) == Partly(b, base, c)
  {
    hide Ones;
    if c > 0 {
      SameLevel(a, b, base, c - 1);
      assert a[base + c - 1] == b[base + c - 1];
      assert FreeAt(a, base, c - 1) == FreeAt(b, base, c - 1);
      assert PartlyAt(a, base, c - 1) == PartlyAt(b, base, c - 1);
      hide FreeAt, PartlyAt;
    }
  }

  // ----- Chains ----------------------------------------------------------------------

  function Link(next: nat): Option<nat>
  {
    if next == CHAIN_END then None else Some(next)
  }

  /** Following the links from the head visits the regions of `visited`, in that order, and
      then the chain ends. */
  predicate Chained(next: seq<nat>, head: Option<nat>, visited: seq<nat>)
    decreases |visited|
  {
    if |visited| == 0 then head == None
    else
      && head == Some(visited[0]) && visited[0] < |next|
      && Chained(next, Link(next[visited[0]]), visited[1..])
  }

  lemma {:induction false} ChainFrame(next: seq<nat>, at: nat, value: nat, head: Option<nat>, visited: seq<nat>)
    requires at < |next| && at !in visited && Chained(next, head, visited)
    ensures Chained(next[at := value], head, visited)
    decreases |visited|
  {
    if |visited| > 0 {
      assert visited[0] in visited;
      ChainFrame(next, at, value, Link(next[visited[0]]), visited[1..]);
    }
  }

  function HeadLink(head: Option<nat>): nat
  {
    if head.Some? then head.value else CHAIN_END
  }

  lemma ChainPush(next: seq<nat>, at: nat, head: Option<nat>, visited: seq<nat>)
    requires at < |next| && at !in visited && Chained(next, head, visited)
    requires forall r :: r in visited ==> r != CHAIN_END
    ensures Chained(next[at := HeadLink(head)], Some(at), [at] + visited)
  {
    ChainFrame(next, at, HeadLink(head), head, visited);
    assert ([at] + visited)[1..] == visited;
    if |visited| > 0 {
      assert visited[0] in visited;
    }
  }

  // ----- The manager's contents ------------------------------------------------------

  datatype Index = Index(
    bitmap: seq<Bits>, next: seq<nat>, lists: seq<Option<nat>>, mask: Bits,
    floating: seq<nat>, taken: seq<nat>)

  predicate Sized(v: Index)
  {
    |v.bitmap| == |v.next| == REGIONS && |v.lists| == |v.floating| == 3 && |v.taken| == 4
  }

  function Floated(v: Index, region: nat, q: nat): Index
    requires Sized(v) && region < REGIONS && q < 3
  {
    v.(next := v.next[region := HeadLink(v.lists[q])],
       lists := v.lists[q := Some(region)],
       floating := v.floating[q := v.floating[q] + 1])
  }

  /** One level of the tree: where its words begin, where its parents' words begin, how many
      regions it has, and which of the three chains is its own. */
  datatype Level = Level(base: nat, parent: nat, n: nat, q: nat)
  {
    predicate Ok()
    {
      base + n <= parent && parent + n / 16 <= REGIONS && n % 16 == 0 && q < 2
    }
  }

  const LargePageLevel := Level(LP_BASE, S_BASE, LARGE_PAGES, 0)
  const SectionLevel := Level(S_BASE, SS_BASE, SECTIONS, 1)

  /** What the sweep does about the `c`th region of a level. */
  function Indexed(v: Index, l: Level, c: nat): Index
    requires Sized(v) && l.Ok() && c < l.n
  {
    if FreeAt(v.bitmap, l.base, c) then v
    else
      var v1 := v.(bitmap := Cleared(v.bitmap, l.parent, c),
                   taken := v.taken[l.q + 1 := v.taken[l.q + 1] + 1]);
      if v.bitmap[l.base + c] != {} then Floated(v1, l.base + c, l.q) else v1
  }

  /** A chain of exactly the level's first `c` regions that are partly used, and its count. */
  predicate Chain(v: Index, base: nat, q: nat, c: nat)
    requires Sized(v) && q < 3
  {
    var visited := Partly(v.bitmap, base, c);
    Chained(v.next, v.lists[q], visited) && v.floating[q] == |visited|
  }

  /** From `v0`, the sweep over a level after its first `c` regions. */
  ghost predicate LevelSwept(v0: Index, v: Index, l: Level, c: nat)
    requires Sized(v0) && l.Ok() && c <= l.n
  {
    && Sized(v)
    && Raised(v.bitmap, l.base, l.parent, l.n, c)
    && Chain(v, l.base, l.q, c)
    && v.taken == v0.taken[l.q + 1 := BusyCount(v.bitmap, l.base, c)]
    && LevelFrame(v0, v, l)
  }

  /** What the sweep over a level leaves alone. */
  ghost predicate LevelFrame(v0: Index, v: Index, l: Level)
    requires Sized(v0) && Sized(v) && l.Ok()
  {
    && v.mask == v0.mask
    && v.lists == v0.lists[l.q := v.lists[l.q]] && v.floating == v0.floating[l.q := v.floating[l.q]]
    && (forall r :: 0 <= r < REGIONS ==> v.bitmap[r] <= v0.bitmap[r])
    && (forall r :: 0 <= r < l.parent || l.parent + l.n / 16 <= r < REGIONS ==> v.bitmap[r] == v0.bitmap[r])
    && (forall r :: 0 <= r < l.base || l.base + l.n <= r < REGIONS ==> v.next[r] == v0.next[r])
  }

  lemma ChainStep(v: Index, base: nat, q: nat, c: nat)
    requires Sized(v) && q < 3 && base + c < REGIONS && Chain(v, base, q, c)
    ensures PartlyAt(v.bitmap, base, c) ==> Chain(Floated(v, base + c, q), base, q, c + 1)
    ensures !PartlyAt(v.bitmap, base, c) ==> Chain(v, base, q, c + 1)
  {
    hide Ones;
    hide PartlyAt;
    PartlyVisits(v.bitmap, base, c);
    if PartlyAt(v.bitmap, base, c) {
      ChainPush(v.next, base + c, v.lists[q], Partly(v.bitmap, base, c));
      hide Chained, Descending;
    }
  }

  lemma ChainSame(v: Index, v': Index, base: nat, q: nat, c: nat)
    requires Sized(v) && Sized(v') && q < 3 && base + c <= REGIONS && Chain(v, base, q, c)
    requires v'.lists[q] == v.lists[q] && v'.floating[q] == v.floating[q]
    requires forall r :: base <= r < base + c ==> v'.bitmap[r] == v.bitmap[r] && v'.next[r] == v.next[r]
    ensures Chain(v', base, q, c)
  {
    hide Ones;
    SameLevel(v.bitmap, v'.bitmap, base, c);
    PartlyVisits(v.bitmap, base, c);
    hide Partly, PartlyAt;
    ChainAgrees(v.next, v'.next, v.lists[q], Partly(v.bitmap, base, c));
  }

  lemma {:induction false} ChainAgrees(next: seq<nat>, next': seq<nat>, head: Option<nat>, visited: seq<nat>)
    requires Chained(next, head, visited) && |next'| == |next|
    requires forall r :: r in visited && r < |next| ==> next'[r] == next[r]
    ensures Chained(next', head, visited)
    decreases |visited|
  {
    if |visited| > 0 {
      assert visited[0] in visited;
      ChainAgrees(next, next', Link(next[visited[0]]), visited[1..]);
    }
  }

  lemma LevelStep(v0: Index, v: Index, l: Level, c: nat)
    requires Sized(v0) && l.Ok() && c < l.n && LevelSwept(v0, v, l, c)
    ensures LevelSwept(v0, Indexed(v, l, c), l, c + 1)
  {
    hide Ones;
    var v' := Indexed(v, l, c);
    RaisedStep(v.bitmap, l.base, l.parent, l.n, c);
    IndexedFrame(v0, v, l, c);
    IndexedCounts(v, l, c);
    IndexedChain(v, l, c);
    hide Raised, Chain, LevelFrame, Cleared, FreeAt, BusyCount;
  }

  lemma IndexedFrame(v0: Index, v: Index, l: Level, c: nat)
    requires Sized(v0) && Sized(v) && l.Ok() && c < l.n && LevelFrame(v0, v, l)
    ensures Sized(Indexed(v, l, c)) && LevelFrame(v0, Indexed(v, l, c), l)
    ensures forall r :: 0 <= r < l.parent ==> Indexed(v, l, c).bitmap[r] == v.bitmap[r]
  {
    hide Ones;
    hide FreeAt, HeadLink;
    assert l.parent <= l.parent + c / 16 < l.parent + l.n / 16;
  }

  lemma IndexedCounts(v: Index, l: Level, c: nat)
    requires Sized(v) && l.Ok() && c < l.n && v.taken[l.q + 1] == BusyCount(v.bitmap, l.base, c)
    ensures var v' := Indexed(v, l, c);
            v'.taken == v.taken[l.q + 1 := BusyCount(v'.bitmap, l.base, c + 1)]
  {
    hide Ones;
    var v' := Indexed(v, l, c);
    assert l.parent <= l.parent + c / 16;
    SameLevel(v.bitmap, v'.bitmap, l.base, c + 1);
    hide FreeAt;
  }

  lemma IndexedChain(v: Index, l: Level, c: nat)
    requires Sized(v) && l.Ok() && c < l.n && Chain(v, l.base, l.q, c)
    ensures Chain(Indexed(v, l, c), l.base, l.q, c + 1)
  {
    hide Ones;
    if !FreeAt(v.bitmap, l.base, c) {
      var v1 := v.(bitmap := Cleared(v.bitmap, l.parent, c),
                   taken := v.taken[l.q + 1 := v.taken[l.q + 1] + 1]);
      assert l.parent <= l.parent + c / 16;
      assert forall r :: l.base <= r < l.base + l.n ==> v1.bitmap[r] == v.bitmap[r];
      hide Chain, Cleared;
      ChainSame(v, v1, l.base, l.q, c);
      ChainStep(v1, l.base, l.q, c);
    } else {
      hide Chain;
      ChainStep(v, l.base, l.q, c);
    }
  }

  lemma LevelStart(v: Index, l: Level)
    requires Sized(v) && l.Ok() && v.lists[l.q] == None && v.floating[l.q] == 0 && v.taken[l.q + 1] == 0
    requires forall r :: l.parent <= r < l.parent + l.n / 16 ==> v.bitmap[r] == Ones(16)
    ensures LevelSwept(v, v, l, 0)
  {
    forall x | 0 <= x < l.n
      ensures BitAt(v.bitmap, l.parent, x)
    {
      assert x / 16 < l.n / 16;
      assert v.bitmap[l.parent + x / 16] == Ones(16);
      OnesHas(16, x % 16);
    }
  }

  // ----- The mask over the supersections ---------------------------------------------

  function MaskedOff(v: Index, c: nat): Index
    requires Sized(v) && c < SUPERSECTIONS
  {
    if FreeAt(v.bitmap, SS_BASE, c) then v
    else
      var v1 := v.(mask := v.mask - {c}, taken := v.taken[3 := v.taken[3] + 1]);
      if v.bitmap[SS_BASE + c] != {} then Floated(v1, SS_BASE + c, 2) else v1
  }

  predicate MaskBits(v: Index, c: nat)
  {
    forall x: nat :: x < SUPERSECTIONS ==> (x in v.mask <==> x >= c || FreeAt(v.bitmap, SS_BASE, x))
  }

  ghost predicate MaskSwept(v0: Index, v: Index, c: nat)
    requires Sized(v0) && c <= SUPERSECTIONS
  {
    && Sized(v) && v.bitmap == v0.bitmap
    && MaskBits(v, c)
    && Chain(v, SS_BASE, 2, c)
    && v.taken == v0.taken[3 := BusyCount(v.bitmap, SS_BASE, c)]
    && v.lists == v0.lists[2 := v.lists[2]] && v.floating == v0.floating[2 := v.floating[2]]
    && (forall r :: 0 <= r < SS_BASE ==> v.next[r] == v0.next[r])
  }

  lemma MaskStep(v0: Index, v: Index, c: nat)
    requires Sized(v0) && c < SUPERSECTIONS && MaskSwept(v0, v, c)
    ensures MaskSwept(v0, MaskedOff(v, c), c + 1)
  {
    hide Ones;
    MaskedOffChain(v, c);
    MaskedOffCount(v, c);
    MaskedOffBits(v, c);
    hide Chain, FreeAt, HeadLink, BusyCount, MaskBits;
  }

  lemma MaskedOffBits(v: Index, c: nat)
    requires Sized(v) && c < SUPERSECTIONS && MaskBits(v, c)
    ensures MaskBits(MaskedOff(v, c), c + 1)
  {
    hide Ones;
    hide FreeAt, HeadLink;
  }

  lemma MaskedOffCount(v: Index, c: nat)
    requires Sized(v) && c < SUPERSECTIONS && v.taken[3] == BusyCount(v.bitmap, SS_BASE, c)
    ensures MaskedOff(v, c).taken == v.taken[3 := BusyCount(v.bitmap, SS_BASE, c + 1)]
  {
    hide Ones;
    hide FreeAt, HeadLink;
  }

  lemma MaskedOffChain(v: Index, c: nat)
    requires Sized(v) && c < SUPERSECTIONS && Chain(v, SS_BASE, 2, c)
    ensures Sized(MaskedOff(v, c)) && Chain(MaskedOff(v, c), SS_BASE, 2, c + 1)
  {
    hide Ones;
    hide Chain, HeadLink, Chained;
    if !FreeAt(v.bitmap, SS_BASE, c) {
      var v1 := v.(mask := v.mask - {c}, taken := v.taken[3 := v.taken[3] + 1]);
      ChainSame(v, v1, SS_BASE, 2, c);
      ChainStep(v1, SS_BASE, 2, c);
    } else {
      ChainStep(v, SS_BASE, 2, c);
    }
  }

  lemma MaskStart(v: Index)
    requires Sized(v) && v.lists[2] == None && v.floating[2] == 0 && v.taken[3] == 0
    requires v.mask == Ones(SUPERSECTIONS)
    ensures MaskSwept(v, v, 0)
  {
    forall x: nat | x < SUPERSECTIONS
      ensures x in v.mask
    {
      OnesHas(SUPERSECTIONS, x);
    }
  }

  // ----- The whole index -------------------------------------------------------------

  /** The bits of the words that start at `base` tell which regions of a level are busy. */
  ghost predicate Shows(bitmap: seq<Bits>, base: nat, bits: nat, used: seq<Range>, level: nat)
  {
    forall y :: 0 <= y < bits ==> (BitAt(bitmap, base, y) <==> !Busy(used, level, y))
  }

  /** Some of the sixteen regions below are busy and some are not. */
  ghost predicate PartlyBusy(used: seq<Range>, level: nat, x: int)
    requires level > 0
  {
    Busy(used, level, x) && exists y :: Below(x, y) && !Busy(used, level - 1, y)
  }

  ghost predicate ChainOf(v: Index, base: nat, q: nat, n: nat, used: seq<Range>)
    requires Sized(v) && q < 3
  {
    && Chain(v, base, q, n) && Descending(Partly(v.bitmap, base, n))
    && forall r: nat :: r in Partly(v.bitmap, base, n) <==> base <= r < base + n && PartlyBusy(used, q + 1, r - base)
  }

  /** The index of a list of used ranges: each bit, chain and count. */
  ghost predicate Built(v: Index, used: seq<Range>)
    requires Sized(v)
  {
    && Shows(v.bitmap, LP_BASE, PAGES, used, 0)
    && Shows(v.bitmap, S_BASE, LARGE_PAGES, used, 1)
    && Shows(v.bitmap, SS_BASE, SECTIONS, used, 2)
    && (forall x: nat :: x < SUPERSECTIONS ==> (x in v.mask <==> !Busy(used, 3, x)))
    && ChainOf(v, LP_BASE, 0, LARGE_PAGES, used)
    && ChainOf(v, S_BASE, 1, SECTIONS, used)
    && ChainOf(v, SS_BASE, 2, SUPERSECTIONS, used)
    && v.taken == [BusyTo(used, 0, PAGES), BusyTo(used, 1, LARGE_PAGES),
                   BusyTo(used, 2, SECTIONS), BusyTo(used, 3, SUPERSECTIONS)]
  }

  predicate Words(bitmap: seq<Bits>)
  {
    |bitmap| == REGIONS && forall r :: 0 <= r < REGIONS ==> WordOnly(bitmap[r], 16)
  }

  lemma ShowsAbove(bitmap: seq<Bits>, base: nat, n: nat, used: seq<Range>, level: nat, x: nat)
    requires Words(bitmap) && base + n <= REGIONS && Shows(bitmap, base, 16 * n, used, level) && x < n
    ensures FreeAt(bitmap, base, x) <==> !Busy(used, level + 1, x)
    ensures PartlyAt(bitmap, base, x) <==> PartlyBusy(used, level + 1, x)
  {
    FreeIffBits(bitmap, base, x);
    EmptyIffBits(bitmap, base, x);
    assert forall y :: Below(x, y) ==> (BitAt(bitmap, base, y) <==> !Busy(used, level, y));
    hide BitAt, Ones, Shows, Words;
  }

  lemma EmptyIffBits(bitmap: seq<Bits>, base: nat, x: nat)
    requires base + x < |bitmap| && WordOnly(bitmap[base + x], 16)
    ensures bitmap[base + x] != {} <==> exists y :: Below(x, y) && BitAt(bitmap, base, y)
  {
    var word := bitmap[base + x];
    if word != {} {
      var k :| k in word;
      assert Below(x, 16 * x + k) && BitAt(bitmap, base, 16 * x + k);
    }
  }

  lemma {:induction false} CountsAgree(bitmap: seq<Bits>, base: nat, n: nat, used: seq<Range>, level: nat, c: nat)
    requires Words(bitmap) && base + n <= REGIONS && Shows(bitmap, base, 16 * n, used, level) && c <= n
    ensures BusyCount(bitmap, base, c) == BusyTo(used, level + 1, c)
  {
    hide Ones;
    if c > 0 {
      CountsAgree(bitmap, base, n, used, level, c - 1);
      ShowsAbove(bitmap, base, n, used, level, c - 1);
    }
  }

  lemma ChainIsOf(v: Index, base: nat, q: nat, n: nat, used: seq<Range>)
    requires Sized(v) && Words(v.bitmap) && q < 3 && base + n <= REGIONS
    requires Shows(v.bitmap, base, 16 * n, used, q) && Chain(v, base, q, n)
    ensures ChainOf(v, base, q, n, used)
  {
    hide Ones;
    PartlyVisits(v.bitmap, base, n);
    hide Partly, PartlyAt, PartlyBusy, Shows, Words, Chain;
    forall x | 0 <= x < n
      ensures PartlyAt(v.bitmap, base, x) <==> PartlyBusy(used, q + 1, x)
    {
      ShowsAbove(v.bitmap, base, n, used, q, x);
    }
  }

  // ----- One sweep after another -----------------------------------------------------

  /** A manager that has indexed nothing yet. */
  ghost predicate Blank(v: Index)
  {
    && Sized(v) && v.lists == [None, None, None] && v.floating == [0, 0, 0] && v.taken == [0, 0, 0, 0]
    && v.mask == Ones(SUPERSECTIONS) && forall r :: 0 <= r < REGIONS ==> v.bitmap[r] == Ones(16)
  }

  /** From `v0`, the sweep over the pages after the first `n`. */
  ghost predicate PagesSwept(v0: Index, v: Index, used: seq<Range>, n: nat)
    requires Sized(v0)
  {
    && Sized(v) && v == v0.(bitmap := v.bitmap, taken := v.taken)
    && PagesMarked(v.bitmap, used, n)
    && v.taken == v0.taken[0 := BusyTo(used, 0, n)]
    && (forall r :: 0 <= r < REGIONS ==> v.bitmap[r] <= v0.bitmap[r])
    && (forall r :: LARGE_PAGES <= r < REGIONS ==> v.bitmap[r] == v0.bitmap[r])
  }

  lemma BlankWords(v: Index)
    requires Blank(v)
    ensures Words(v.bitmap)
  {
    forall k: nat
      ensures k in Ones(16) <==> k < 16
    {
      OnesHas(16, k);
    }
    hide Ones;
  }

  lemma FewerWords(a: seq<Bits>, b: seq<Bits>)
    requires Words(a) && |b| == REGIONS && forall r :: 0 <= r < REGIONS ==> b[r] <= a[r]
    ensures Words(b)
  {
    hide Ones;
  }

  lemma ShowsSame(a: seq<Bits>, b: seq<Bits>, base: nat, n: nat, used: seq<Range>, level: nat)
    requires Shows(a, base, 16 * n, used, level) && base + n <= |a| == |b|
    requires forall r :: base <= r < base + n ==> b[r] == a[r]
    ensures Shows(b, base, 16 * n, used, level)
  {
    hide Ones;
    forall y | 0 <= y < 16 * n
      ensures BitAt(b, base, y) <==> BitAt(a, base, y)
    {
      assert base <= base + y / 16 < base + n;
    }
    hide BitAt, Busy;
  }

  lemma PagesShown(bitmap: seq<Bits>, used: seq<Range>)
    requires PagesMarked(bitmap, used, PAGES)
    ensures Shows(bitmap, LP_BASE, 16 * LARGE_PAGES, used, 0)
  {
    hide BitAt;
  }

  /** A swept level shows its parents' level what it is shown itself. */
  lemma LevelShown(v0: Index, v: Index, l: Level, used: seq<Range>, level: nat)
    requires Sized(v0) && l.Ok() && LevelSwept(v0, v, l, l.n) && Words(v0.bitmap)
    requires Shows(v0.bitmap, l.base, 16 * l.n, used, level)
    ensures Words(v.bitmap) && Shows(v.bitmap, l.base, 16 * l.n, used, level)
    ensures Shows(v.bitmap, l.parent, l.n, used, level + 1)
    ensures BusyCount(v.bitmap, l.base, l.n) == BusyTo(used, level + 1, l.n)
  {
    hide Ones;
    FewerWords(v0.bitmap, v.bitmap);
    ShowsSame(v0.bitmap, v.bitmap, l.base, l.n, used, level);
    CountsAgree(v.bitmap, l.base, l.n, used, level, l.n);
    hide Words, Busy, BusyTo, BusyCount;
    assert Raised(v.bitmap, l.base, l.parent, l.n, l.n);
    hide LevelSwept;
    forall x | 0 <= x < l.n
      ensures BitAt(v.bitmap, l.parent, x) <==> !Busy(used, level + 1, x)
    {
      hide BitAt, FreeAt, Shows;
      ShowsAbove(v.bitmap, l.base, l.n, used, level, x);
    }
  }

  lemma LevelKeeps(v0: Index, v: Index, l: Level)
    requires Sized(v0) && l.Ok() && LevelSwept(v0, v, l, l.n)
    ensures Sized(v) && forall r :: 0 <= r < l.parent ==> v.bitmap[r] == v0.bitmap[r]
  {
    hide Raised, Chain, BusyCount;
  }

  lemma MaskShown(v0: Index, v: Index, used: seq<Range>)
    requires Sized(v0) && MaskSwept(v0, v, SUPERSECTIONS) && Words(v0.bitmap)
    requires Shows(v0.bitmap, SS_BASE, 16 * SUPERSECTIONS, used, 2)
    ensures forall x: nat :: x < SUPERSECTIONS ==> (x in v.mask <==> !Busy(used, 3, x))
    ensures BusyCount(v.bitmap, SS_BASE, SUPERSECTIONS) == BusyTo(used, 3, SUPERSECTIONS)
    ensures ChainOf(v, SS_BASE, 2, SUPERSECTIONS, used)
  {
    hide Ones;
    hide Words, Busy, Shows, FreeAt, Chain, PartlyBusy, PartlyAt;
    CountsAgree(v.bitmap, SS_BASE, SUPERSECTIONS, used, 2, SUPERSECTIONS);
    ChainIsOf(v, SS_BASE, 2, SUPERSECTIONS, used);
    hide ChainOf;
    forall x: nat | x < SUPERSECTIONS
      ensures x in v.mask <==> !Busy(used, 3, x)
    {
      ShowsAbove(v.bitmap, SS_BASE, SUPERSECTIONS, used, 2, x);
    }
  }

  /** The four sweeps one after another, from a blank manager, build the whole index. */
  lemma SweepsBuild(v0: Index, v1: Index, v2: Index, v3: Index, v4: Index, used: seq<Range>)
    requires Sized(v0) && Blank(v0) && PagesSwept(v0, v1, used, PAGES)
    requires LevelSwept(v1, v2, LargePageLevel, LARGE_PAGES)
    requires LevelSwept(v2, v3, SectionLevel, SECTIONS)
    requires MaskSwept(v3, v4, SUPERSECTIONS)
    ensures Built(v4, used)
  {
    hide Ones;
    BitsBuilt(v0, v1, v2, v3, v4, used);
    ChainsKept(v1, v2, v3, v4);
    TakenBuilt(v0, v1, v2, v3, v4, used);
    hide Shows, ChainOf, Chain, Busy, BusyTo, BusyCount, Words, PagesSwept, LevelSwept, MaskSwept, Blank;
    ChainIsOf(v4, LP_BASE, 0, LARGE_PAGES, used);
    ChainIsOf(v4, S_BASE, 1, SECTIONS, used);
  }

  lemma BitsBuilt(v0: Index, v1: Index, v2: Index, v3: Index, v4: Index, used: seq<Range>)
    requires Sized(v0) && Blank(v0) && PagesSwept(v0, v1, used, PAGES)
    requires LevelSwept(v1, v2, LargePageLevel, LARGE_PAGES)
    requires LevelSwept(v2, v3, SectionLevel, SECTIONS)
    requires MaskSwept(v3, v4, SUPERSECTIONS)
    ensures Sized(v4) && Words(v4.bitmap)
    ensures Shows(v4.bitmap, LP_BASE, PAGES, used, 0) && Shows(v4.bitmap, S_BASE, LARGE_PAGES, used, 1)
    ensures Shows(v4.bitmap, SS_BASE, SECTIONS, used, 2)
    ensures forall x: nat :: x < SUPERSECTIONS ==> (x in v4.mask <==> !Busy(used, 3, x))
    ensures ChainOf(v4, SS_BASE, 2, SUPERSECTIONS, used)
    ensures BusyCount(v2.bitmap, LP_BASE, LARGE_PAGES) == BusyTo(used, 1, LARGE_PAGES)
    ensures BusyCount(v3.bitmap, S_BASE, SECTIONS) == BusyTo(used, 2, SECTIONS)
    ensures BusyCount(v4.bitmap, SS_BASE, SUPERSECTIONS) == BusyTo(used, 3, SUPERSECTIONS)
  {
    hide Ones;
    PagesBuilt(v0, v1, used);
    hide Shows, ChainOf, Chain, Busy, BusyTo, BusyCount, Words, Blank, PagesSwept, LevelSwept;
    LevelsBuilt(v1, v2, v3, used);
    MaskShown(v3, v4, used);
  }

  lemma PagesBuilt(v0: Index, v1: Index, used: seq<Range>)
    requires Sized(v0) && Blank(v0) && PagesSwept(v0, v1, used, PAGES)
    ensures Sized(v1) && Words(v1.bitmap) && Shows(v1.bitmap, LP_BASE, PAGES, used, 0)
  {
    BlankWords(v0);
    hide Shows, Busy, BusyTo, Words, PagesMarked, Blank;
    FewerWords(v0.bitmap, v1.bitmap);
    PagesShown(v1.bitmap, used);
  }

  lemma LevelsBuilt(v1: Index, v2: Index, v3: Index, used: seq<Range>)
    requires Sized(v1) && Words(v1.bitmap) && Shows(v1.bitmap, LP_BASE, PAGES, used, 0)
    requires LevelSwept(v1, v2, LargePageLevel, LARGE_PAGES)
    requires LevelSwept(v2, v3, SectionLevel, SECTIONS)
    ensures Sized(v3) && Words(v3.bitmap)
    ensures Shows(v3.bitmap, LP_BASE, PAGES, used, 0) && Shows(v3.bitmap, S_BASE, LARGE_PAGES, used, 1)
    ensures Shows(v3.bitmap, SS_BASE, SECTIONS, used, 2)
    ensures BusyCount(v2.bitmap, LP_BASE, LARGE_PAGES) == BusyTo(used, 1, LARGE_PAGES)
    ensures BusyCount(v3.bitmap, S_BASE, SECTIONS) == BusyTo(used, 2, SECTIONS)
  {
    hide Ones;
    hide LevelSwept, Shows, Words, Busy, BusyTo, BusyCount;
    LevelKeeps(v1, v2, LargePageLevel);
    LevelShown(v1, v2, LargePageLevel, used, 0);
    LevelKeeps(v2, v3, SectionLevel);
    LevelShown(v2, v3, SectionLevel, used, 1);
    ShowsSame(v2.bitmap, v3.bitmap, LP_BASE, LARGE_PAGES, used, 0);
  }

  lemma ChainsKept(v1: Index, v2: Index, v3: Index, v4: Index)
    requires Sized(v1)
    requires LevelSwept(v1, v2, LargePageLevel, LARGE_PAGES)
    requires LevelSwept(v2, v3, SectionLevel, SECTIONS)
    requires MaskSwept(v3, v4, SUPERSECTIONS)
    ensures Chain(v4, LP_BASE, 0, LARGE_PAGES) && Chain(v4, S_BASE, 1, SECTIONS)
  {
    hide Ones;
    hide Chain, Raised, BusyCount;
    ChainSame(v2, v3, LP_BASE, 0, LARGE_PAGES);
    ChainSame(v3, v4, LP_BASE, 0, LARGE_PAGES);
    ChainSame(v3, v4, S_BASE, 1, SECTIONS);
  }

  lemma TakenBuilt(v0: Index, v1: Index, v2: Index, v3: Index, v4: Index, used: seq<Range>)
    requires Blank(v0) && PagesSwept(v0, v1, used, PAGES)
    requires LevelSwept(v1, v2, LargePageLevel, LARGE_PAGES)
    requires LevelSwept(v2, v3, SectionLevel, SECTIONS)
    requires MaskSwept(v3, v4, SUPERSECTIONS)
    requires BusyCount(v2.bitmap, LP_BASE, LARGE_PAGES) == BusyTo(used, 1, LARGE_PAGES)
    requires BusyCount(v3.bitmap, S_BASE, SECTIONS) == BusyTo(used, 2, SECTIONS)
    requires BusyCount(v4.bitmap, SS_BASE, SUPERSECTIONS) == BusyTo(used, 3, SUPERSECTIONS)
    ensures v4.taken == [BusyTo(used, 0, PAGES), BusyTo(used, 1, LARGE_PAGES),
                         BusyTo(used, 2, SECTIONS), BusyTo(used, 3, SUPERSECTIONS)]
  {
    hide Ones;
    hide Chain, Raised, BusyCount, BusyTo, LevelFrame, PagesMarked;
  }

  // ----- Between the sweeps ----------------------------------------------------------

  function PageTaken(v: Index, page: nat): Index
    requires Sized(v) && page < PAGES
  {
    v.(bitmap := Cleared(v.bitmap, LP_BASE, page), taken := v.taken[0 := v.taken[0] + 1])
  }

  lemma PageStep(v0: Index, v: Index, used: seq<Range>, i: nat, page: nat)
    requires Sized(v0) && Sorted(used) && page < PAGES && PagesSwept(v0, v, used, page)
    requires Passed(used, i, page) && Current(used, i, page)
    ensures (page + 1) * PAGE <= used[i].lo ==> PagesSwept(v0, v, used, page + 1) && Current(used, i, page + 1)
    ensures used[i].lo < (page + 1) * PAGE ==>
              PagesSwept(v0, PageTaken(v, page), used, page + 1) && Marks(used, i, page)
    ensures Passed(used, i, page + 1)
  {
    PageMarked(v.bitmap, used, page);
    PassedLater(used, i, page, page + 1);
    hide Marks, Passed, Sorted;
    if (page + 1) * PAGE <= used[i].lo {
      NotReached(used, i, page);
    } else {
      ReachedMarks(used, i, page);
      assert Used(used, page);
    }
    hide PagesMarked, Used;
  }

  /** A range that ends on a page that an earlier one, or itself, has taken. */
  lemma SkipRange(used: seq<Range>, first: nat, i: nat, page: nat)
    requires Sorted(used) && first <= i < |used| && Marks(used, first, page) && Passed(used, i, page + 1)
    requires used[i].hi <= (page + 1) * PAGE
    ensures Passed(used, i + 1, page + 1)
  {
    forall q | q >= page + 1
      ensures !Marks(used, i, q)
    {
      if used[i].lo == used[i].hi && q == used[i].lo / PAGE {
        assert used[i].lo == (page + 1) * PAGE && q == page + 1;
        assert first != i;
        assert first < i && Marks(used, first, q - 1);
      }
    }
    assert Over(used, i, page + 1);
    hide Marks, Over;
  }

  lemma DoneIsAccepted(used: seq<Range>, page: nat)
    requires |used| > 0 && Passed(used, |used|, page) && page < PAGES
    ensures Accepted(used)
  {
    var last := |used| - 1;
    assert Over(used, last, page);
    if used[last].lo == used[last].hi == (PAGES - 1) * PAGE {
      assert page == PAGES - 1 && used[last].lo / PAGE == page && used[last].lo % PAGE == 0;
      assert !Marks(used, last, page);
    }
  }

  lemma LeftIsRefused(used: seq<Range>, i: nat)
    requires Sorted(used) && Current(used, i, PAGES - 1)
    ensures !Accepted(used)
  {
    var last := |used| - 1;
    assert used[i].hi <= used[last].hi;
    if used[last].hi == (PAGES - 1) * PAGE {
      assert !MarkedBefore(used, i, PAGES - 2);
      NoneMarks(used, i, last, PAGES - 2);
    }
  }

  /** Empty ranges at the beginning of a page do not take the page before. */
  lemma NoneMarks(used: seq<Range>, i: nat, last: nat, page: nat)
    requires Sorted(used) && i <= last < |used| && !MarkedBefore(used, i, page)
    requires used[i].lo == used[last].hi == (page + 1) * PAGE
    ensures !MarkedBefore(used, last, page)
  {
    forall k: nat | k < last
      ensures !Marks(used, k, page)
    {
      if k >= i {
        assert used[i].lo <= used[k].lo <= used[k].hi <= used[last].hi;
        assert used[k].lo / PAGE == page + 1;
      }
    }
  }

  lemma AllPages(v0: Index, v: Index, used: seq<Range>, n: nat)
    requires Sized(v0) && n <= PAGES && PagesSwept(v0, v, used, n) && Passed(used, |used|, n)
    ensures PagesSwept(v0, v, used, PAGES)
  {
    NoneAfter(used, n, PAGES);
    hide Used, BitAt, BusyTo;
  }

  lemma PagesStart(v: Index, used: seq<Range>)
    requires Blank(v)
    ensures PagesSwept(v, v, used, 0)
  {
    forall page | 0 <= page < PAGES
      ensures BitAt(v.bitmap, LP_BASE, page)
    {
      OnesHas(16, page % 16);
    }
  }

  lemma SweepStarts(v0: Index, v1: Index, used: seq<Range>)
    requires Blank(v0) && PagesSwept(v0, v1, used, PAGES)
    ensures LevelSwept(v1, v1, LargePageLevel, 0)
  {
    hide PagesMarked, LevelSwept, Ones;
    LevelStart(v1, LargePageLevel);
  }

  lemma SectionStarts(v0: Index, v1: Index, v2: Index, used: seq<Range>)
    requires Blank(v0) && PagesSwept(v0, v1, used, PAGES) && LevelSwept(v1, v2, LargePageLevel, LARGE_PAGES)
    ensures LevelSwept(v2, v2, SectionLevel, 0)
  {
    hide PagesMarked, Chain, Raised, BusyCount, Ones;
    LevelStart(v2, SectionLevel);
  }

  lemma MaskStarts(v0: Index, v1: Index, v2: Index, v3: Index, used: seq<Range>)
    requires Blank(v0) && PagesSwept(v0, v1, used, PAGES) && LevelSwept(v1, v2, LargePageLevel, LARGE_PAGES)
    requires LevelSwept(v2, v3, SectionLevel, SECTIONS)
    ensures MaskSwept(v3, v3, 0)
  {
    hide PagesMarked, Chain, Raised, BusyCount, Ones;
    MaskStart(v3);
  }
}
