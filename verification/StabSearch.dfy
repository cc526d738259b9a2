/**
 Finding the stab that contains an address (TPJOS/kern/kdebug.c:59-106): a binary search
 over a table in which the entries of one type are in order and other types lie between.

 Addresses of entries stay below 0xFFFFFFFF, so that the search never counts past it.
 */
module StabSearch {

  const ADDRESSES: nat := 0x1_0000_0000

  datatype Stab = Stab(kind: nat, value: nat)

  /** Entry `k` of the table has the type. */
  predicate Is(stabs: seq<Stab>, kind: nat, k: int) {
    0 <= k < |stabs| && stabs[k].kind == kind
  }

  ghost predicate Sorted(stabs: seq<Stab>, kind: nat) {
    forall i, j :: i <= j && Is(stabs, kind, i) && Is(stabs, kind, j) ==> stabs[i].value <= stabs[j].value
  }

  /** An entry of the type in the range has this address. */
  ghost predicate IsValue(stabs: seq<Stab>, kind: nat, lo: int, hi: int, v: nat) {
    exists k :: lo <= k <= hi && Is(stabs, kind, k) && stabs[k].value == v
  }

  /** `k` is the last entry of the type in the range with an address at most `addr`. */
  ghost predicate IsLast(stabs: seq<Stab>, kind: nat, lo: int, hi: int, k: int, addr: nat) {
    && lo <= k <= hi && Is(stabs, kind, k) && stabs[k].value <= addr
    && forall j :: k < j <= hi && Is(stabs, kind, j) ==> stabs[j].value > addr
  }

  /** kdebug.c:72-73: from `m` down to the nearest entry of the type, or to `l` - 1. */
  function Down(stabs: seq<Stab>, kind: nat, l: int, m: int): (r: int)
    requires 0 <= l && m < |stabs|
    ensures r <= m && (l <= r ==> Is(stabs, kind, r)) && (l - 1 <= m ==> l - 1 <= r)
    ensures forall k :: l <= k && r < k <= m ==> !Is(stabs, kind, k)
    decreases m - l
  {
    if m >= l && stabs[m].kind != kind then Down(stabs, kind, l, m - 1) else m
  }

  /** The variables of the search; `at` is *region_left, and *region_right is always `r`. */
  datatype Search = Search(l: int, r: int, addr: nat, at: int, any: bool)

  predicate InTable(stabs: seq<Stab>, s: Search) {
    0 <= s.l && s.r < |stabs| && 0 <= s.at
  }

  /** One turn of the loop. */
  function Turn(stabs: seq<Stab>, kind: nat, s: Search): Search
    requires InTable(stabs, s) && s.l <= s.r
  {
    var middle := (s.l + s.r) / 2;
    var m := Down(stabs, kind, s.l, middle);
    if m < s.l then s.(l := middle + 1)
    else if stabs[m].value < s.addr then s.(at := m, l := middle + 1, any := true)
    else if stabs[m].value > s.addr then s.(r := m - 1, any := true)
    else s.(at := m, l := m, addr := s.addr + 1, any := true)
  }

  /** The loop ends: after an exact match the range may stay as it is, but the address does not. */
  function Loop(stabs: seq<Stab>, kind: nat, s: Search): (t: Search)
    requires InTable(stabs, s) && Bounded(stabs)
    ensures InTable(stabs, t)
    decreases s.r - s.l + 1, ADDRESSES - s.addr
  {
    if s.l > s.r then s else Loop(stabs, kind, Turn(stabs, kind, s))
  }

  predicate Bounded(stabs: seq<Stab>) {
    forall k :: 0 <= k < |stabs| ==> stabs[k].value < ADDRESSES - 1
  }

  /** kdebug.c:100-104. */
  function Rightmost(stabs: seq<Stab>, kind: nat, from: int, at: int): (l: int)
    requires from < |stabs| && 0 <= at
    ensures l <= from && (at <= from ==> at <= l) && (at < l ==> Is(stabs, kind, l))
    ensures forall k :: l < k <= from ==> k > at && !Is(stabs, kind, k)
    decreases from - at
  {
    if from > at && stabs[from].kind != kind then Rightmost(stabs, kind, from - 1, at) else from
  }

  /** stab_binsearch: *region_left and *region_right. */
  function Region(stabs: seq<Stab>, kind: nat, left: int, right: int, addr: nat): (int, int)
    requires 0 <= left && right < |stabs| && Bounded(stabs)
  {
    var s := Loop(stabs, kind, Search(left, right, addr, left, false));
    if !s.any then (left, left - 1) else (Rightmost(stabs, kind, s.r, s.at), s.r)
  }

  /** kdebug.c:69-73: the nearest entry of the type at or below the middle. */
  method FindDown(stabs: seq<Stab>, kind: nat, l: int, trueM: int) returns (m: int)
    requires 0 <= l <= trueM < |stabs|
    ensures m == Down(stabs, kind, l, trueM)
  {
    m := trueM;
    while m >= l && stabs[m].kind != kind
      invariant l - 1 <= m <= trueM && Down(stabs, kind, l, m) == Down(stabs, kind, l, trueM)
    {
      m := m - 1;
    }
  }

  /** kdebug.c:99-104: the rightmost entry of the type. */
  method FindRightmost(stabs: seq<Stab>, kind: nat, regionRight: int, regionLeft: int) returns (l: int)
    requires regionRight < |stabs| && 0 <= regionLeft
    ensures l == Rightmost(stabs, kind, regionRight, regionLeft)
  {
    l := regionRight;
    while l > regionLeft && stabs[l].kind != kind
      invariant l < |stabs| && Rightmost(stabs, kind, l, regionLeft) == Rightmost(stabs, kind, regionRight, regionLeft)
      decreases l - regionLeft
    {
      l := l - 1;
    }
  }

  method StabBinsearch(stabs: seq<Stab>, left: int, right: int, kind: nat, addr: nat) returns (regionLeft: int, regionRight: int)
    requires 0 <= left && right < |stabs| && Bounded(stabs)
    ensures (regionLeft, regionRight) == Region(stabs, kind, left, right, addr)
  {
    hide Loop, Down, Rightmost, Bounded;
    regionLeft, regionRight := left, right;
    var l, r, a, anyMatches := left, right, addr, false;
    while l <= r
      invariant 0 <= l && regionRight == r < |stabs| && 0 <= regionLeft && (!anyMatches ==> regionLeft == left)
      invariant Loop(stabs, kind, Search(l, r, a, regionLeft, anyMatches)) == Loop(stabs, kind, Search(left, right, addr, left, false))
      decreases r - l + 1, ADDRESSES - a
    {
      LoopTurns(stabs, kind, Search(l, r, a, regionLeft, anyMatches));
      var trueM := (l + r) / 2;
      var m := FindDown(stabs, kind, l, trueM);
      if m < l {
        l := trueM + 1;
        continue;
      }
      anyMatches := true;
      if stabs[m].value < a {
        regionLeft := m;
        l := trueM + 1;
      } else if stabs[m].value > a {
        regionRight := m - 1;
        r := m - 1;
      } else {
        SmallAddress(stabs, m);
        regionLeft := m;
        l := m;
        a := a + 1;
      }
    }
    LoopEnds(stabs, kind, Search(l, r, a, regionLeft, anyMatches));
    if !anyMatches {
      regionRight := regionLeft - 1;
    } else {
      regionLeft := FindRightmost(stabs, kind, regionRight, regionLeft);
    }
  }

  lemma LoopTurns(stabs: seq<Stab>, kind: nat, s: Search)
    requires InTable(stabs, s) && Bounded(stabs) && s.l <= s.r
    ensures InTable(stabs, Turn(stabs, kind, s)) && Loop(stabs, kind, s) == Loop(stabs, kind, Turn(stabs, kind, s))
  {
  }

  lemma LoopEnds(stabs: seq<Stab>, kind: nat, s: Search)
    requires InTable(stabs, s) && Bounded(stabs) && s.l > s.r
    ensures Loop(stabs, kind, s) == s
  {
  }

  lemma SmallAddress(stabs: seq<Stab>, m: int)
    requires Bounded(stabs) && 0 <= m < |stabs|
    ensures stabs[m].value < ADDRESSES - 1
  {
  }

  // ------------------------------------------------------------------
  // What the region is
  // ------------------------------------------------------------------

  /** The range of the call. */
  datatype Call = Call(kind: nat, left: int, right: int, addr: nat)

  predicate InRange(c: Call, k: int) {
    c.left <= k <= c.right
  }

  /** The search, at every turn. */
  ghost predicate Inv(stabs: seq<Stab>, c: Call, s: Search) {
    && 0 <= c.left <= s.l <= s.r + 1 && c.left - 1 <= s.r <= c.right < |stabs| && c.addr <= s.addr
    && (forall v :: c.addr <= v < s.addr ==> IsValue(stabs, c.kind, c.left, c.right, v))
    && (forall k :: c.left <= k < s.l && Is(stabs, c.kind, k) ==> stabs[k].value < s.addr)
    && (forall k :: s.r < k <= c.right && Is(stabs, c.kind, k) ==> stabs[k].value > c.addr)
    && (s.r < c.right ==> Is(stabs, c.kind, s.r + 1))
    && (!s.any ==> s.r == c.right && s.at == c.left && forall k :: c.left <= k < s.l ==> !Is(stabs, c.kind, k))
    && (s.any ==> exists k :: c.left <= k <= c.right && Is(stabs, c.kind, k))
    && (s.at == c.left || AtOk(stabs, c, s))
    && (s.addr > c.addr + 1 ==> AtOk(stabs, c, s) && c.addr < stabs[s.at].value)
  }

  ghost predicate AtOk(stabs: seq<Stab>, c: Call, s: Search) {
    c.left <= s.at <= s.l && s.at <= s.r && Is(stabs, c.kind, s.at) && stabs[s.at].value < s.addr
  }

  lemma Below(stabs: seq<Stab>, c: Call, s: Search, m: int, middle: int)
    requires Sorted(stabs, c.kind) && Inv(stabs, c, s) && s.l <= m <= middle <= s.r && Is(stabs, c.kind, m)
    requires stabs[m].value < s.addr && forall k :: m < k <= middle ==> !Is(stabs, c.kind, k)
    ensures Inv(stabs, c, s.(at := m, l := middle + 1, any := true))
  {
  }

  lemma Above(stabs: seq<Stab>, c: Call, s: Search, m: int)
    requires Sorted(stabs, c.kind) && Inv(stabs, c, s) && s.l <= m <= s.r && Is(stabs, c.kind, m) && stabs[m].value > s.addr
    ensures Inv(stabs, c, s.(r := m - 1, any := true))
  {
  }

  lemma Exact(stabs: seq<Stab>, c: Call, s: Search, m: int)
    requires Sorted(stabs, c.kind) && Inv(stabs, c, s) && s.l <= m <= s.r && Is(stabs, c.kind, m) && stabs[m].value == s.addr
    ensures Inv(stabs, c, s.(at := m, l := m, addr := s.addr + 1, any := true))
  {
    assert IsValue(stabs, c.kind, c.left, c.right, s.addr);
  }

  lemma NoMatch(stabs: seq<Stab>, c: Call, s: Search, middle: int)
    requires Inv(stabs, c, s) && s.l <= middle <= s.r && forall k :: s.l <= k <= middle ==> !Is(stabs, c.kind, k)
    ensures Inv(stabs, c, s.(l := middle + 1))
  {
  }

  lemma Ranges(stabs: seq<Stab>, c: Call, s: Search)
    requires Inv(stabs, c, s)
    ensures InTable(stabs, s)
  {
  }

  lemma TurnKeeps(stabs: seq<Stab>, c: Call, s: Search)
    requires Sorted(stabs, c.kind) && Inv(stabs, c, s) && s.l <= s.r
    ensures InTable(stabs, s) && Inv(stabs, c, Turn(stabs, c.kind, s))
  {
    hide Inv, Sorted;
    Ranges(stabs, c, s);
    var middle := (s.l + s.r) / 2;
    var m := Down(stabs, c.kind, s.l, middle);
    if m < s.l {
      NoMatch(stabs, c, s, middle);
    } else if stabs[m].value < s.addr {
      Below(stabs, c, s, m, middle);
    } else if stabs[m].value > s.addr {
      Above(stabs, c, s, m);
    } else {
      Exact(stabs, c, s, m);
    }
  }

  lemma {:induction false} LoopKeeps(stabs: seq<Stab>, c: Call, s: Search)
    requires Sorted(stabs, c.kind) && Bounded(stabs) && Inv(stabs, c, s) && InTable(stabs, s)
    ensures var t := Loop(stabs, c.kind, s); Inv(stabs, c, t) && t.l > t.r
    decreases s.r - s.l + 1, ADDRESSES - s.addr
  {
    hide Inv, Down;
    if s.l <= s.r {
      TurnKeeps(stabs, c, s);
      LoopTurns(stabs, c.kind, s);
      LoopKeeps(stabs, c, Turn(stabs, c.kind, s));
    }
  }

  /** The address that is looked for when the loop ends. */
  function Probe(stabs: seq<Stab>, c: Call): nat
    requires 0 <= c.left && c.right < |stabs| && Bounded(stabs)
  {
    Loop(stabs, c.kind, Search(c.left, c.right, c.addr, c.left, false)).addr
  }

  ghost predicate Callable(stabs: seq<Stab>, c: Call) {
    0 <= c.left <= c.right + 1 && c.right < |stabs| && Sorted(stabs, c.kind) && Bounded(stabs)
  }

  /** The end of the loop: `k` is not beyond the right end, nor is it after the entry that is found. */
  lemma Ends(stabs: seq<Stab>, c: Call, s: Search, k: int)
    requires Inv(stabs, c, s) && s.l > s.r && InRange(c, k) && Is(stabs, c.kind, k) && stabs[k].value <= c.addr
    ensures s.any && k <= s.r && 0 <= s.at <= s.r && c.left <= s.at && s.r <= c.right
    ensures var l := Rightmost(stabs, c.kind, s.r, s.at); k <= l && Is(stabs, c.kind, l) && stabs[l].value < s.addr
    ensures forall j :: s.r < j <= c.right && Is(stabs, c.kind, j) ==> stabs[j].value > c.addr
    ensures s.r < c.right ==> Is(stabs, c.kind, s.r + 1)
    ensures s.addr > c.addr + 1 ==> Is(stabs, c.kind, s.at) && stabs[s.at].value > c.addr
  {
  }

  /** When an entry of the type is at or before the address, the region is that of the last such entry, and
      ends just before the next entry of the type, exactly unless the search has met an exact match for
      the address after the one asked for. */
  lemma RegionIs(stabs: seq<Stab>, c: Call, k: int)
    requires Callable(stabs, c) && InRange(c, k) && Is(stabs, c.kind, k) && stabs[k].value <= c.addr
    ensures var (l, r) := Region(stabs, c.kind, c.left, c.right, c.addr);
      && (IsLast(stabs, c.kind, c.left, c.right, l, c.addr) <==> Probe(stabs, c) <= c.addr + 1)
      && c.left <= l <= r <= c.right && Is(stabs, c.kind, l) && (forall j :: l < j <= r ==> !Is(stabs, c.kind, j))
      && (r < c.right ==> Is(stabs, c.kind, r + 1) && stabs[r + 1].value > c.addr)
  {
    hide Inv, Loop, Bounded;
    var start := Search(c.left, c.right, c.addr, c.left, false);
    Starts(stabs, c);
    LoopKeeps(stabs, c, start);
    Ends(stabs, c, Loop(stabs, c.kind, start), k);
  }

  lemma Starts(stabs: seq<Stab>, c: Call)
    requires Callable(stabs, c)
    ensures Inv(stabs, c, Search(c.left, c.right, c.addr, c.left, false))
  {
  }

  /** The address asked for and the next one have to be addresses of entries for that to happen. */
  lemma ProbeIs(stabs: seq<Stab>, c: Call)
    requires Callable(stabs, c)
    ensures c.addr <= Probe(stabs, c) && forall v :: c.addr <= v < Probe(stabs, c) ==> IsValue(stabs, c.kind, c.left, c.right, v)
    ensures !IsValue(stabs, c.kind, c.left, c.right, c.addr) || !IsValue(stabs, c.kind, c.left, c.right, c.addr + 1) ==>
      Probe(stabs, c) <= c.addr + 1
  {
    LoopKeeps(stabs, c, Search(c.left, c.right, c.addr, c.left, false));
  }

  /** The search of this range is right: it finds the last entry at or before the address, if there is one. */
  ghost predicate Right(stabs: seq<Stab>, c: Call) {
    Callable(stabs, c) && forall k | InRange(c, k) && Is(stabs, c.kind, k) && stabs[k].value <= c.addr ::
      IsLast(stabs, c.kind, c.left, c.right, Region(stabs, c.kind, c.left, c.right, c.addr).0, c.addr)
  }

  predicate SubRange(d: Call, c: Call) {
    d.kind == c.kind && d.addr == c.addr && c.left <= d.left <= d.right + 1 && d.right <= c.right
  }

  /** What a caller can check before the call: the search is right for a range and all ranges within it
      exactly if the address and the next one are not both addresses of entries. */
  lemma RightWithinIff(stabs: seq<Stab>, c: Call)
    requires Callable(stabs, c)
    ensures (forall d | SubRange(d, c) :: Right(stabs, d)) <==>
            !(IsValue(stabs, c.kind, c.left, c.right, c.addr) && IsValue(stabs, c.kind, c.left, c.right, c.addr + 1))
  {
    hide Region, Probe;
    if IsValue(stabs, c.kind, c.left, c.right, c.addr) && IsValue(stabs, c.kind, c.left, c.right, c.addr + 1) {
      var k :| InRange(c, k) && Is(stabs, c.kind, k) && stabs[k].value == c.addr;
      var n :| InRange(c, n) && Is(stabs, c.kind, n) && stabs[n].value == c.addr + 1;
      var k', n' := Neighbours(stabs, c.kind, k, n);
      Overshoots(stabs, c.kind, k', n', c.addr);
      assert SubRange(Call(c.kind, k', n', c.addr), c);
    } else {
      forall d | SubRange(d, c)
        ensures Right(stabs, d)
      {
        ProbeIs(stabs, d);
        forall k | InRange(d, k) && Is(stabs, d.kind, k) && stabs[k].value <= d.addr
          ensures IsLast(stabs, d.kind, d.left, d.right, Region(stabs, d.kind, d.left, d.right, d.addr).0, d.addr)
        {
          RegionIs(stabs, d, k);
        }
      }
    }
  }

  /** Two entries of these addresses with none between them. */
  lemma {:induction false} Neighbours(stabs: seq<Stab>, kind: nat, k: int, n: int) returns (k': int, n': int)
    requires Sorted(stabs, kind) && Is(stabs, kind, k) && Is(stabs, kind, n) && stabs[n].value == stabs[k].value + 1
    ensures k <= k' < n' <= n && Is(stabs, kind, k') && Is(stabs, kind, n')
    ensures stabs[k'].value == stabs[k].value && stabs[n'].value == stabs[n].value
    ensures forall j :: k' < j < n' ==> !Is(stabs, kind, j)
    decreases n - k
  {
    if j :| k < j < n && Is(stabs, kind, j) {
      if stabs[j].value == stabs[k].value {
        k', n' := Neighbours(stabs, kind, j, n);
      } else {
        k', n' := Neighbours(stabs, kind, k, j);
      }
    } else {
      k', n' := k, n;
    }
  }

  /** In the range from the one to the other both are met exactly, and the answer is the later one. */
  lemma Overshoots(stabs: seq<Stab>, kind: nat, k: int, n: int, addr: nat)
    requires Callable(stabs, Call(kind, k, n, addr)) && Is(stabs, kind, k) && Is(stabs, kind, n) && k < n
    requires stabs[k].value == addr && stabs[n].value == addr + 1 && forall j :: k < j < n ==> !Is(stabs, kind, j)
    ensures !Right(stabs, Call(kind, k, n, addr))
  {
    var middle := (k + n) / 2;
    var s0 := Search(k, n, addr, k, false);
    var s1 := Search(k, n, addr + 1, k, true);
    var s2 := Search(middle + 1, n, addr + 1, k, true);
    assert Down(stabs, kind, k, middle) == k;
    assert Turn(stabs, kind, s0) == s1 && Turn(stabs, kind, s1) == s2;
    LoopTurns(stabs, kind, s0);
    LoopTurns(stabs, kind, s1);
    MeetsLast(stabs, kind, s2);
    assert InRange(Call(kind, k, n, addr), k);
    RegionIs(stabs, Call(kind, k, n, addr), k);
  }

  lemma {:induction false} MeetsLast(stabs: seq<Stab>, kind: nat, s: Search)
    requires InTable(stabs, s) && Bounded(stabs) && s.l <= s.r && Is(stabs, kind, s.r) && stabs[s.r].value == s.addr
    requires forall j :: s.l <= j < s.r ==> !Is(stabs, kind, j)
    ensures Loop(stabs, kind, s).addr > s.addr
    decreases s.r - s.l
  {
    LoopTurns(stabs, kind, s);
    if s.l < s.r {
      MeetsLast(stabs, kind, Turn(stabs, kind, s));
    } else {
      AddressGrows(stabs, kind, Turn(stabs, kind, s));
    }
  }

  lemma {:induction false} AddressGrows(stabs: seq<Stab>, kind: nat, s: Search)
    requires InTable(stabs, s) && Bounded(stabs)
    ensures Loop(stabs, kind, s).addr >= s.addr
    decreases s.r - s.l + 1, ADDRESSES - s.addr
  {
    if s.l <= s.r {
      LoopTurns(stabs, kind, s);
      AddressGrows(stabs, kind, Turn(stabs, kind, s));
    }
  }

  /** "Not contained" is reported by left > right when there is no entry of the type, and only then. */
  lemma NotContainedIff(stabs: seq<Stab>, c: Call)
    requires Callable(stabs, c)
    ensures var (l, r) := Region(stabs, c.kind, c.left, c.right, c.addr);
      l > r <==> forall k :: InRange(c, k) ==> !Is(stabs, c.kind, k)
  {
    LoopKeeps(stabs, c, Search(c.left, c.right, c.addr, c.left, false));
  }

  /** Two entries one address apart, and the first of them asked for: the answer is the second. */
  lemma AdjacentAddresses(kind: nat, addr: nat)
    requires addr + 1 < ADDRESSES - 1
    ensures var stabs := [Stab(kind, addr), Stab(kind, addr + 1)];
      Callable(stabs, Call(kind, 0, 1, addr)) && Region(stabs, kind, 0, 1, addr) == (1, 1)
  {
    var stabs := [Stab(kind, addr), Stab(kind, addr + 1)];
    var s0 := Search(0, 1, addr, 0, false);
    var s1 := Search(0, 1, addr + 1, 0, true);
    var s2 := Search(1, 1, addr + 1, 0, true);
    var s3 := Search(1, 1, addr + 2, 1, true);
    var s4 := Search(2, 1, addr + 2, 1, true);
    assert Turn(stabs, kind, s0) == s1 && Turn(stabs, kind, s1) == s2 && Turn(stabs, kind, s2) == s3 && Turn(stabs, kind, s3) == s4;
    LoopTurns(stabs, kind, s0);
    LoopTurns(stabs, kind, s1);
    LoopTurns(stabs, kind, s2);
    LoopTurns(stabs, kind, s3);
    LoopEnds(stabs, kind, s4);
  }

  /** An address before every entry of the type, which is not reported as "not contained". */
  lemma BeforeTheFirst(kind: nat, addr: nat)
    requires addr + 1 < ADDRESSES - 1
    ensures var stabs := [Stab(kind, addr + 1)];
      Callable(stabs, Call(kind, 0, 0, addr)) && Region(stabs, kind, 0, 0, addr) == (-1, -1)
  {
    var stabs := [Stab(kind, addr + 1)];
    assert Turn(stabs, kind, Search(0, 0, addr, 0, false)) == Search(0, -1, addr, 0, true);
    LoopTurns(stabs, kind, Search(0, 0, addr, 0, false));
    LoopEnds(stabs, kind, Search(0, -1, addr, 0, true));
  }
}
