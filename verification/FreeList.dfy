/** Free lists as values: the address-ordered, coalesced list of extents of free memory. */
module FreeList {
  /** A run of header-sized units. */
  datatype Extent = Extent(addr: nat, size: nat) {
    function End(): (e: nat)
      ensures addr <= e
    {
      addr + size
    }

    predicate Has(u: nat) {
      addr <= u < addr + size
    }
  }

  predicate Disjoint(a: Extent, b: Extent) {
    a.End() <= b.addr || b.End() <= a.addr
  }

  /** The list headed by the empty extent at `base`: addresses ascend, and between two extents
      there is always at least one unit that is not free, so none can be merged. */
  ghost predicate Ordered(f: seq<Extent>, base: nat) {
    && 0 < |f| && f[0] == Extent(base, 0)
    && (forall i :: 0 < i < |f| ==> f[i].size > 0)
    && (forall i, j :: 0 <= i < j < |f| ==> f[i].End() < f[j].addr)
  }

  /** Unit u is in the list. */
  ghost predicate Covers(f: seq<Extent>, u: nat) {
    exists k :: 0 <= k < |f| && f[k].Has(u)
  }

  ghost predicate SameUnits(f: seq<Extent>, g: seq<Extent>) {
    forall u: nat :: Covers(f, u) <==> Covers(g, u)
  }

  function Units(f: seq<Extent>): nat {
    if f == [] then 0 else Units(f[..|f| - 1]) + f[|f| - 1].size
  }

  lemma {:induction false} UnitsAppend(f: seq<Extent>, g: seq<Extent>)
    ensures Units(f + g) == Units(f) + Units(g)
  {
    if g == [] {
      assert f + g == f;
    } else {
      assert (f + g)[..|f + g| - 1] == f + g[..|g| - 1];
      UnitsAppend(f, g[..|g| - 1]);
    }
  }

  lemma UnitsMiddle(f: seq<Extent>, m: seq<Extent>, g: seq<Extent>)
    ensures Units(f + m + g) == Units(f) + Units(m) + Units(g)
  {
    UnitsAppend(f + m, g);
    UnitsAppend(f, m);
  }

  /** b goes right after position t: it lies above f[t] and below f[t + 1]. */
  ghost predicate GoesAfter(f: seq<Extent>, base: nat, t: nat, b: Extent) {
    && Ordered(f, base) && t < |f| && b.size > 0
    && base < b.addr && f[t].End() <= b.addr
    && (t + 1 < |f| ==> b.End() <= f[t + 1].addr)
  }

  /** b put after position t and merged with what follows it. */
  function WithNext(f: seq<Extent>, t: nat, b: Extent): (r: seq<Extent>)
    requires t < |f|
  {
    if t + 1 < |f| && b.End() == f[t + 1].addr
    then f[..t + 1] + [Extent(b.addr, b.size + f[t + 1].size)] + f[t + 2..]
    else f[..t + 1] + [b] + f[t + 1..]
  }

  /** Positions t and t + 1 merged if they touch. */
  function Joined(f: seq<Extent>, t: nat): (r: seq<Extent>)
    requires t + 1 < |f|
  {
    if f[t].End() == f[t + 1].addr
    then f[..t] + [Extent(f[t].addr, f[t].size + f[t + 1].size)] + f[t + 2..]
    else f
  }

  /** What free makes of the list. */
  function Inserted(f: seq<Extent>, t: nat, b: Extent): (r: seq<Extent>)
    requires t < |f|
  {
    Joined(WithNext(f, t, b), t)
  }

  /** Ordered, except that positions t and t + 1 may touch. */
  ghost predicate Nearly(f: seq<Extent>, base: nat, t: nat) {
    && t + 1 < |f| && f[0] == Extent(base, 0)
    && (forall i :: 0 < i < |f| ==> f[i].size > 0)
    && (forall i, j :: 0 <= i < j < |f| && !(i == t && j == t + 1) ==> f[i].End() < f[j].addr)
    && f[t].End() <= f[t + 1].addr && (t == 0 ==> base < f[1].addr)
  }

  /** The extents of the new list, by position. */
  lemma WithNextAt(f: seq<Extent>, t: nat, b: Extent)
    requires t < |f|
    ensures var r, shift := WithNext(f, t, b), if t + 1 < |f| && b.End() == f[t + 1].addr then 0 else 1;
            && |r| == |f| + shift
            && (forall i {:trigger r[i]} :: 0 <= i <= t ==> r[i] == f[i])
            && r[t + 1] == (if shift == 0 then Extent(b.addr, b.size + f[t + 1].size) else b)
            && (forall i {:trigger r[i]} :: t + 1 < i < |r| ==> r[i] == f[i - shift])
  {
  }

  function Shift(f: seq<Extent>, t: nat, b: Extent): nat {
    if t + 1 < |f| && b.End() == f[t + 1].addr then 0 else 1
  }

  /** One entry of the new list. */
  lemma WithNextEntry(f: seq<Extent>, t: nat, b: Extent, i: nat)
    requires t < |f| && i < |WithNext(f, t, b)|
    ensures i <= t ==> WithNext(f, t, b)[i] == f[i]
    ensures i > t + 1 ==> i - Shift(f, t, b) < |f| && WithNext(f, t, b)[i] == f[i - Shift(f, t, b)]
    ensures i == t + 1 ==>
              WithNext(f, t, b)[i] == Extent(b.addr, if Shift(f, t, b) == 0 then b.size + f[t + 1].size else b.size)
    ensures |WithNext(f, t, b)| == |f| + Shift(f, t, b)
  {
  }

  lemma JoinedAt(f: seq<Extent>, t: nat)
    requires t + 1 < |f| && f[t].End() == f[t + 1].addr
    ensures var r := Joined(f, t);
            && |r| == |f| - 1
            && (forall i {:trigger r[i]} :: 0 <= i < t ==> r[i] == f[i])
            && r[t] == Extent(f[t].addr, f[t].size + f[t + 1].size)
            && (forall i {:trigger r[i]} :: t < i < |r| ==> r[i] == f[i + 1])
  {
  }

  lemma JoinedEntry(f: seq<Extent>, t: nat, i: nat)
    requires t + 1 < |f| && f[t].End() == f[t + 1].addr && i < |Joined(f, t)|
    ensures |Joined(f, t)| == |f| - 1
    ensures i < t ==> Joined(f, t)[i] == f[i]
    ensures i == t ==> Joined(f, t)[i] == Extent(f[t].addr, f[t].size + f[t + 1].size)
    ensures i > t ==> Joined(f, t)[i] == f[i + 1]
  {
  }

  lemma WithNextNearly(f: seq<Extent>, base: nat, t: nat, b: Extent)
    requires GoesAfter(f, base, t, b)
    ensures Nearly(WithNext(f, t, b), base, t)
  {
    hide WithNext;
    WithNextAt(f, t, b);
    var r := WithNext(f, t, b);
    var shift := if t + 1 < |f| && b.End() == f[t + 1].addr then 0 else 1;
    forall i, j | 0 <= i < j < |r| && !(i == t && j == t + 1)
      ensures r[i].End() < r[j].addr
    {
      if i == t + 1 {
        assert t + 1 < j - shift ==> f[t + 1].End() < f[j - shift].addr;
      } else if j == t + 1 {
        assert f[i].End() < f[t].addr;
      }
    }
  }

  lemma JoinedOrdered(f: seq<Extent>, base: nat, t: nat)
    requires Nearly(f, base, t)
    ensures Ordered(Joined(f, t), base)
  {
    if f[t].End() == f[t + 1].addr {
      JoinedAt(f, t);
      forall i, j | 0 <= i < j < |f| - 1
        ensures Joined(f, t)[i].End() < Joined(f, t)[j].addr
      {
        JoinedApart(f, base, t, i, j);
      }
    }
  }

  lemma JoinedApart(f: seq<Extent>, base: nat, t: nat, i: nat, j: nat)
    requires Nearly(f, base, t) && f[t].End() == f[t + 1].addr && i < j < |f| - 1 == |Joined(f, t)|
    ensures Joined(f, t)[i].End() < Joined(f, t)[j].addr
  {
    hide Joined;
    JoinedEntry(f, t, i);
    JoinedEntry(f, t, j);
  }

  lemma CoversAppend(f: seq<Extent>, g: seq<Extent>, u: nat)
    ensures Covers(f + g, u) <==> Covers(f, u) || Covers(g, u)
  {
    if Covers(f, u) {
      var k :| 0 <= k < |f| && f[k].Has(u);
      assert (f + g)[k].Has(u);
    }
    if Covers(g, u) {
      var k :| 0 <= k < |g| && g[k].Has(u);
      assert (f + g)[|f| + k].Has(u);
    }
  }

  lemma CoversMiddle(f: seq<Extent>, m: seq<Extent>, g: seq<Extent>, u: nat)
    ensures Covers(f + m + g, u) <==> Covers(f, u) || Covers(m, u) || Covers(g, u)
  {
    CoversAppend(f + m, g, u);
    CoversAppend(f, m, u);
  }

  /** Exchanging a middle part for one that covers the same units and some more. */
  lemma Exchanged(f: seq<Extent>, m: seq<Extent>, m': seq<Extent>, g: seq<Extent>, b: Extent)
    requires Units(m') == Units(m) + b.size
    requires forall u: nat :: Covers(m', u) <==> Covers(m, u) || b.Has(u)
    ensures Units(f + m' + g) == Units(f + m + g) + b.size
    ensures forall u: nat :: Covers(f + m' + g, u) <==> Covers(f + m + g, u) || b.Has(u)
  {
    UnitsMiddle(f, m, g);
    UnitsMiddle(f, m', g);
    forall u: nat
      ensures Covers(f + m' + g, u) <==> Covers(f + m + g, u) || b.Has(u)
    {
      CoversMiddle(f, m, g, u);
      CoversMiddle(f, m', g, u);
    }
  }

  lemma Swapped(f: seq<Extent>, m: seq<Extent>, m': seq<Extent>, g: seq<Extent>)
    requires Units(m') == Units(m) && SameUnits(m', m)
    ensures Units(f + m' + g) == Units(f + m + g) && SameUnits(f + m' + g, f + m + g)
  {
    hide Covers, Units;
    UnitsMiddle(f, m, g);
    UnitsMiddle(f, m', g);
    forall u: nat
      ensures Covers(f + m' + g, u) <==> Covers(f + m + g, u)
    {
      CoversMiddle(f, m, g, u);
      CoversMiddle(f, m', g, u);
    }
  }

  lemma One(e: Extent)
    ensures Units([e]) == e.size && Units([]) == 0
    ensures forall u: nat :: (Covers([e], u) <==> e.Has(u)) && !Covers([], u)
  {
    forall u: nat
      ensures Covers([e], u) <==> e.Has(u)
    {
      assert [e][0] == e;
    }
  }

  lemma Two(e: Extent, d: Extent)
    ensures Units([e, d]) == e.size + d.size
    ensures forall u: nat :: Covers([e, d], u) <==> e.Has(u) || d.Has(u)
  {
    assert [e, d] == [e] + [d];
    One(e);
    One(d);
    UnitsAppend([e], [d]);
    forall u: nat
      ensures Covers([e, d], u) <==> e.Has(u) || d.Has(u)
    {
      CoversAppend([e], [d], u);
    }
  }

  lemma WithNextUnits(f: seq<Extent>, t: nat, b: Extent)
    requires t < |f|
    ensures Units(WithNext(f, t, b)) == Units(f) + b.size
    ensures forall u: nat :: Covers(WithNext(f, t, b), u) <==> Covers(f, u) || b.Has(u)
  {
    hide Covers, Units;
    if t + 1 < |f| && b.End() == f[t + 1].addr {
      var e, e' := f[t + 1], Extent(b.addr, b.size + f[t + 1].size);
      SplitOne(f, t + 1);
      One(e);
      One(e');
      Exchanged(f[..t + 1], [e], [e'], f[t + 2..], b);
    } else {
      SplitNone(f, t + 1);
      One(b);
      Exchanged(f[..t + 1], [], [b], f[t + 1..], b);
    }
  }

  lemma SameAsItself(f: seq<Extent>)
    ensures SameUnits(f, f)
  {
  }

  lemma Touching(d: Extent, e: Extent)
    requires d.End() == e.addr
    ensures Units([Extent(d.addr, d.size + e.size)]) == Units([d, e])
    ensures SameUnits([Extent(d.addr, d.size + e.size)], [d, e])
  {
    hide Covers, Units;
    One(Extent(d.addr, d.size + e.size));
    Two(d, e);
  }

  lemma JoinedUnits(f: seq<Extent>, t: nat)
    requires t + 1 < |f|
    ensures Units(Joined(f, t)) == Units(f)
    ensures SameUnits(Joined(f, t), f)
  {
    hide Covers, Units, SameUnits;
    if f[t].End() == f[t + 1].addr {
      var m, m' := [f[t], f[t + 1]], [Extent(f[t].addr, f[t].size + f[t + 1].size)];
      Touching(f[t], f[t + 1]);
      SplitTwo(f, t);
      Swapped(f[..t], m, m', f[t + 2..]);
    } else {
      SameAsItself(f);
    }
  }

  lemma SplitNone(f: seq<Extent>, t: nat)
    requires t <= |f|
    ensures f == f[..t] + [] + f[t..]
  {
  }

  lemma SplitOne(f: seq<Extent>, t: nat)
    requires t < |f|
    ensures f == f[..t] + [f[t]] + f[t + 1..]
  {
  }

  lemma SplitTwo(f: seq<Extent>, t: nat)
    requires t + 1 < |f|
    ensures f == f[..t] + [f[t], f[t + 1]] + f[t + 2..]
  {
  }

  /** Inserting keeps the list ordered and coalesced, and adds the units of b. */
  lemma InsertedIs(f: seq<Extent>, base: nat, t: nat, b: Extent)
    requires GoesAfter(f, base, t, b)
    ensures Ordered(Inserted(f, t, b), base)
    ensures Units(Inserted(f, t, b)) == Units(f) + b.size
    ensures forall u: nat :: Covers(Inserted(f, t, b), u) <==> Covers(f, u) || b.Has(u)
  {
    hide WithNext, Joined, Covers, Ordered;
    WithNextNearly(f, base, t, b);
    WithNextUnits(f, t, b);
    JoinedOrdered(WithNext(f, t, b), base, t);
    JoinedUnits(WithNext(f, t, b), t);
  }

  /** The extent malloc cuts off the end of position c. */
  function Cut(f: seq<Extent>, c: nat, n: nat): Extent
    requires c < |f| && n <= f[c].size
  {
    Extent(f[c].addr + f[c].size - n, n)
  }

  /** What malloc makes of the list: position c loses n units at its end, or goes. */
  function Taken(f: seq<Extent>, c: nat, n: nat): seq<Extent>
    requires c < |f| && n <= f[c].size
  {
    if f[c].size == n then f[..c] + f[c + 1..] else f[c := Extent(f[c].addr, f[c].size - n)]
  }

  lemma TakenOrdered(f: seq<Extent>, base: nat, c: nat, n: nat)
    requires Ordered(f, base) && 0 < c < |f| && 0 < n <= f[c].size
    ensures Ordered(Taken(f, c, n), base)
    ensures forall k :: 0 <= k < |Taken(f, c, n)| ==> Disjoint(Taken(f, c, n)[k], Cut(f, c, n))
  {
    var r := Taken(f, c, n);
    if f[c].size == n {
      assert forall i :: 0 <= i < c ==> r[i] == f[i];
      assert forall i :: c <= i < |r| ==> r[i] == f[i + 1];
    }
  }

  lemma TakenUnits(f: seq<Extent>, c: nat, n: nat)
    requires c < |f| && n <= f[c].size
    ensures Units(f) == Units(Taken(f, c, n)) + n
    ensures forall u: nat :: Covers(f, u) <==> Covers(Taken(f, c, n), u) || Cut(f, c, n).Has(u)
  {
    hide Covers, Units;
    var e := Extent(f[c].addr, f[c].size - n);
    SplitOne(f, c);
    One(f[c]);
    One(e);
    if f[c].size == n {
      assert f[..c] + [] == f[..c];
      Exchanged(f[..c], [], [f[c]], f[c + 1..], Cut(f, c, n));
    } else {
      assert f[c := e] == f[..c] + [e] + f[c + 1..];
      Exchanged(f[..c], [e], [f[c]], f[c + 1..], Cut(f, c, n));
    }
  }

  /** The unit right after an extent is not free. */
  lemma GapAfter(f: seq<Extent>, base: nat, i: nat)
    requires Ordered(f, base) && i < |f|
    ensures !Covers(f, f[i].End())
  {
    forall k | 0 <= k < |f|
      ensures !f[k].Has(f[i].End())
    {
    }
  }

  /** Where two ordered lists of the same units have agreed so far, they go on alike. */
  lemma GoesOn(f: seq<Extent>, g: seq<Extent>, base: nat, i: nat)
    requires Ordered(f, base) && Ordered(g, base) && SameUnits(f, g)
    requires 0 < i <= |g| && i < |f| && f[..i] == g[..i]
    ensures i < |g| && g[i].addr <= f[i].addr && (g[i].addr == f[i].addr ==> f[i].size <= g[i].size)
  {
    var k := CoveredLater(f, g, base, i);
    assert i < k ==> g[i].End() < g[k].addr;
    GapAfter(g, base, i);
    assert !Covers(f, g[i].End());
    assert !f[i].Has(g[i].End());
  }

  lemma CoveredLater(f: seq<Extent>, g: seq<Extent>, base: nat, i: nat) returns (k: nat)
    requires Ordered(f, base) && Ordered(g, base) && SameUnits(f, g)
    requires 0 < i <= |g| && i < |f| && f[..i] == g[..i]
    ensures i <= k < |g| && g[k].Has(f[i].addr)
  {
    var u := f[i].addr;
    assert f[i].Has(u);
    assert Covers(f, u) && Covers(g, u);
    assert forall m :: 0 <= m < i ==> g[m] == g[..i][m] == f[..i][m] == f[m];
    assert forall m :: 0 <= m < i ==> !g[m].Has(u);
    k :| 0 <= k < |g| && g[k].Has(u);
  }

  /** An ordered list is determined by the units it covers. */
  lemma {:induction false} CanonicalFrom(f: seq<Extent>, g: seq<Extent>, base: nat, i: nat)
    requires Ordered(f, base) && Ordered(g, base) && SameUnits(f, g)
    requires 0 < i <= |f| && i <= |g| && f[..i] == g[..i]
    ensures f == g
    decreases |f| - i
  {
    if i < |f| {
      GoesOn(f, g, base, i);
      GoesOn(g, f, base, i);
      assert f[..i + 1] == f[..i] + [f[i]] && g[..i + 1] == g[..i] + [g[i]];
      CanonicalFrom(f, g, base, i + 1);
    } else if i < |g| {
      GoesOn(g, f, base, i);
    } else {
      assert f == f[..i] && g == g[..i];
    }
  }

  lemma Canonical(f: seq<Extent>, g: seq<Extent>, base: nat)
    requires Ordered(f, base) && Ordered(g, base) && SameUnits(f, g)
    ensures f == g
  {
    assert f[..1] == g[..1];
    CanonicalFrom(f, g, base, 1);
  }

  /** Giving back what was just taken restores the list, wherever in it the cut was made. */
  lemma TakeThenInsert(f: seq<Extent>, base: nat, c: nat, n: nat, t: nat)
    requires Ordered(f, base) && 0 < c < |f| && 0 < n <= f[c].size
    requires GoesAfter(Taken(f, c, n), base, t, Cut(f, c, n))
    ensures Inserted(Taken(f, c, n), t, Cut(f, c, n)) == f
  {
    hide Inserted, Taken, Covers;
    TakenUnits(f, c, n);
    InsertedIs(Taken(f, c, n), base, t, Cut(f, c, n));
    Canonical(f, Inserted(Taken(f, c, n), t, Cut(f, c, n)), base);
  }

  ghost predicate ApartFrom(e: Extent, f: seq<Extent>) {
    forall k :: 0 <= k < |f| ==> Disjoint(e, f[k])
  }

  lemma ApartNoUnits(e: Extent, f: seq<Extent>, u: nat)
    requires ApartFrom(e, f) && e.Has(u)
    ensures !Covers(f, u)
  {
  }

  /** An extent that has no unit in common with the list overlaps none of its extents. */
  lemma ApartByUnits(e: Extent, f: seq<Extent>, base: nat)
    requires Ordered(f, base) && base < e.addr && 0 < e.size && forall u: nat :: e.Has(u) ==> !Covers(f, u)
    ensures ApartFrom(e, f)
  {
    forall k | 0 <= k < |f|
      ensures Disjoint(e, f[k])
    {
      var u := if e.addr < f[k].addr then f[k].addr else e.addr;
      assert f[k].Has(u) ==> Covers(f, u);
    }
  }

  lemma ApartInserted(e: Extent, f: seq<Extent>, base: nat, t: nat, b: Extent)
    requires GoesAfter(f, base, t, b) && ApartFrom(e, f) && Disjoint(e, b) && base < e.addr && 0 < e.size
    ensures ApartFrom(e, Inserted(f, t, b))
  {
    InsertedIs(f, base, t, b);
    var r := Inserted(f, t, b);
    hide Inserted, Covers, Ordered;
    forall u: nat | e.Has(u)
      ensures !Covers(r, u)
    {
      ApartNoUnits(e, f, u);
    }
    ApartByUnits(e, r, base);
  }

  lemma ApartTaken(e: Extent, f: seq<Extent>, base: nat, c: nat, n: nat)
    requires Ordered(f, base) && 0 < c < |f| && 0 < n <= f[c].size && ApartFrom(e, f) && base < e.addr && 0 < e.size
    ensures ApartFrom(e, Taken(f, c, n)) && Disjoint(e, Cut(f, c, n))
  {
    assert Disjoint(e, f[c]);
    TakenUnits(f, c, n);
    TakenOrdered(f, base, c, n);
    var r := Taken(f, c, n);
    hide Taken, Covers, Ordered, Cut;
    forall u: nat | e.Has(u)
      ensures !Covers(r, u)
    {
      ApartNoUnits(e, f, u);
    }
    ApartByUnits(e, r, base);
  }
}
