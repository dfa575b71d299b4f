/** The user heap: free, morecore and malloc over headers in memory. Addresses and sizes count
    headers of eight bytes. */
module Malloc {
  import opened FreeList
  import opened Options

  const HEADER: nat := 8
  const UINT: nat := 0x1_0000_0000
  const MINCORE: nat := 4096

  /** Headers for a request, its own header included; the sum wraps at 32 bits. */
  function UnitsFor(nbytes: nat): nat {
    (nbytes + HEADER - 1) % UINT / HEADER + 1
  }

  /** A block is large enough for the request exactly when that sum does not wrap. */
  lemma LargeEnough(nbytes: nat)
    requires nbytes < UINT
    ensures nbytes <= (UnitsFor(nbytes) - 1) * HEADER <==> nbytes + HEADER - 1 < UINT
  {
  }

  /** What morecore asks of sbrk. */
  function CoreFor(nu: nat): nat {
    if nu < MINCORE then MINCORE else nu
  }

  function NextIndex(n: nat, k: nat): nat
    requires k < n
  {
    if k + 1 < n then k + 1 else 0
  }

  /** The pointer of position k leads to the next one, that of the last to the first. */
  ghost predicate LinkAt(f: seq<Extent>, ptr: map<nat, nat>, k: nat) {
    k < |f| && f[k].addr in ptr && ptr[f[k].addr] == f[NextIndex(|f|, k)].addr
  }

  /** The pointers in memory make the list a cycle. */
  ghost predicate Linked(f: seq<Extent>, ptr: map<nat, nat>) {
    forall k :: 0 <= k < |f| ==> LinkAt(f, ptr, k)
  }

  ghost predicate Sized(s: seq<Extent>, size: map<nat, nat>) {
    forall k :: 0 <= k < |s| ==> s[k].addr in size && size[s[k].addr] == s[k].size
  }

  /** Live blocks overlap neither each other nor the free list. */
  ghost predicate Apart(live: seq<Extent>, f: seq<Extent>, base: nat) {
    && (forall i :: 0 <= i < |live| ==> live[i].size > 0 && base < live[i].addr && ApartFrom(live[i], f))
    && (forall i, j :: 0 <= i < j < |live| ==> Disjoint(live[i], live[j]))
  }

  ghost predicate HasRoom(f: seq<Extent>, n: nat) {
    exists k :: 0 <= k < |f| && n <= f[k].size
  }

  /** On the way from position c to position fi there is a block of n units. */
  ghost predicate RoomAhead(f: seq<Extent>, c: nat, fi: nat, n: nat)
    requires c < |f| && fi < |f|
  {
    exists k :: 0 <= k < |f| && n <= f[k].size && Distance(|f|, c, k) <= Distance(|f|, c, fi)
  }

  /** Everywhere else there is none. */
  ghost predicate NoneBehind(f: seq<Extent>, c: nat, fi: nat, n: nat)
    requires c < |f| && fi < |f|
  {
    forall k :: 0 <= k < |f| && Distance(|f|, c, k) > Distance(|f|, c, fi) ==> f[k].size < n
  }

  lemma SearchBegins(f: seq<Extent>, fi: nat, n: nat)
    requires fi < |f|
    ensures NoneBehind(f, NextIndex(|f|, fi), fi, n)
    ensures HasRoom(f, n) ==> RoomAhead(f, NextIndex(|f|, fi), fi, n)
  {
  }

  lemma SearchGoesOn(f: seq<Extent>, c: nat, fi: nat, n: nat)
    requires c < |f| && fi < |f| && c != fi && f[c].size < n
    ensures RoomAhead(f, c, fi, n) ==> RoomAhead(f, NextIndex(|f|, c), fi, n)
    ensures NoneBehind(f, c, fi, n) ==> NoneBehind(f, NextIndex(|f|, c), fi, n)
  {
    DistanceStep(|f|, c, fi);
    forall k | 0 <= k < |f| && k != c
      ensures Distance(|f|, NextIndex(|f|, c), k) == Distance(|f|, c, k) - 1
    {
      DistanceStep(|f|, c, k);
    }
    if RoomAhead(f, c, fi, n) {
      var k :| 0 <= k < |f| && n <= f[k].size && Distance(|f|, c, k) <= Distance(|f|, c, fi);
      assert Distance(|f|, NextIndex(|f|, c), k) <= Distance(|f|, NextIndex(|f|, c), fi);
    }
  }

  lemma SearchEnds(f: seq<Extent>, fi: nat, n: nat)
    requires fi < |f| && f[fi].size < n
    ensures !RoomAhead(f, fi, fi, n)
    ensures NoneBehind(f, fi, fi, n) ==> !HasRoom(f, n)
  {
  }

  /** Steps along the cycle from position c to position k. */
  function Distance(n: nat, c: nat, k: nat): nat
    requires c < n && k < n
  {
    if c <= k then k - c else k + n - c
  }

  /** Linked, except for the pointer of position t. */
  ghost predicate LinkedBut(f: seq<Extent>, ptr: map<nat, nat>, t: nat) {
    forall k :: 0 <= k < |f| && k != t ==> LinkAt(f, ptr, k)
  }

  lemma NewAddress(f: seq<Extent>, base: nat, t: nat, b: Extent)
    requires GoesAfter(f, base, t, b)
    ensures forall k :: 0 <= k < |f| ==> f[k].addr != b.addr
    ensures t + 1 == |f| ==> b.End() != f[0].addr
  {
    assert forall k :: t + 1 < k < |f| ==> f[t + 1].End() < f[k].addr;
    assert forall k :: 0 <= k < t ==> f[k].End() < f[t].addr;
  }

  lemma LinkNext(f: seq<Extent>, base: nat, t: nat, b: Extent, ptr: map<nat, nat>)
    requires GoesAfter(f, base, t, b) && Linked(f, ptr)
    ensures f[NextIndex(|f|, t)].addr in ptr
    ensures var next := f[NextIndex(|f|, t)].addr;
            LinkedBut(WithNext(f, t, b), ptr[b.addr := if b.End() == next then ptr[next] else next], t)
  {
    var r, next := WithNext(f, t, b), f[NextIndex(|f|, t)].addr;
    assert LinkAt(f, ptr, NextIndex(|f|, t));
    var ptr' := ptr[b.addr := if b.End() == next then ptr[next] else next];
    NewLink(f, base, t, b, ptr, ptr'[b.addr]);
    NewAddress(f, base, t, b);
    hide WithNext, GoesAfter, LinkAt;
    forall k | 0 <= k < |r| && k != t
      ensures LinkAt(r, ptr', k)
    {
      if k != t + 1 {
        OldLink(f, t, b, ptr, ptr', k);
      }
    }
  }

  /** The pointer of the new extent. */
  lemma NewLink(f: seq<Extent>, base: nat, t: nat, b: Extent, ptr: map<nat, nat>, v: nat)
    requires GoesAfter(f, base, t, b) && LinkAt(f, ptr, NextIndex(|f|, t))
    requires var next := f[NextIndex(|f|, t)].addr; v == if b.End() == next then ptr[next] else next
    ensures LinkAt(WithNext(f, t, b), ptr[b.addr := v], t + 1)
  {
  }

  ghost predicate KeptBut(ptr: map<nat, nat>, ptr': map<nat, nat>, a: nat) {
    forall x :: x in ptr && x != a ==> x in ptr' && ptr'[x] == ptr[x]
  }

  /** A pointer that is as it should be, seen from another list. */
  lemma SameLink(f: seq<Extent>, ptr: map<nat, nat>, k: nat, g: seq<Extent>, ptr': map<nat, nat>, m: nat, a: nat)
    requires LinkAt(f, ptr, k) && KeptBut(ptr, ptr', a) && f[k].addr != a && m < |g|
    requires g[m].addr == f[k].addr && g[NextIndex(|g|, m)].addr == f[NextIndex(|f|, k)].addr
    ensures LinkAt(g, ptr', m)
  {
  }

  /** The pointers of the others, but for the one before it, are as they should be already. */
  lemma OldLink(f: seq<Extent>, t: nat, b: Extent, ptr: map<nat, nat>, ptr': map<nat, nat>, k: nat)
    requires t < |f| && Linked(f, ptr) && k < |WithNext(f, t, b)| && k != t && k != t + 1
    requires KeptBut(ptr, ptr', b.addr) && forall i :: 0 <= i < |f| ==> f[i].addr != b.addr
    ensures LinkAt(WithNext(f, t, b), ptr', k)
  {
    var r := WithNext(f, t, b);
    WithNextEntry(f, t, b, k);
    WithNextEntry(f, t, b, NextIndex(|r|, k));
    var from := if k < t then k else k - Shift(f, t, b);
    assert LinkAt(f, ptr, from);
    hide WithNext, LinkAt, KeptBut;
    SameLink(f, ptr, from, r, ptr', k, b.addr);
  }

  lemma LinkJoined(f: seq<Extent>, base: nat, t: nat, ptr: map<nat, nat>)
    requires Nearly(f, base, t) && LinkedBut(f, ptr, t)
    ensures f[t + 1].addr in ptr
    ensures var next := f[t + 1].addr;
            Linked(Joined(f, t), ptr[f[t].addr := if f[t].End() == next then ptr[next] else next])
  {
    var r, next := Joined(f, t), f[t + 1].addr;
    assert LinkAt(f, ptr, t + 1);
    var ptr' := ptr[f[t].addr := if f[t].End() == next then ptr[next] else next];
    hide Nearly, LinkAt, Joined;
    forall k | 0 <= k < |r|
      ensures LinkAt(r, ptr', k)
    {
      if f[t].End() == next && k == t {
        MergedLink(f, t, ptr, ptr');
      } else if f[t].End() == next {
        JoinedLink(f, base, t, ptr, ptr', k);
      } else {
        ApartLink(f, base, t, ptr, ptr', k);
      }
    }
  }

  lemma OtherAddress(f: seq<Extent>, base: nat, t: nat, k: nat)
    requires Nearly(f, base, t) && k < |f| && k != t
    ensures f[k].addr != f[t].addr
  {
    assert k < t ==> f[k].End() < f[t].addr;
  }

  /** The pointer of the merged extent is that of its second half. */
  lemma MergedLink(f: seq<Extent>, t: nat, ptr: map<nat, nat>, ptr': map<nat, nat>)
    requires t + 1 < |f| && LinkAt(f, ptr, t + 1) && f[t].End() == f[t + 1].addr
    requires f[t].addr in ptr' && ptr'[f[t].addr] == ptr[f[t + 1].addr]
    ensures LinkAt(Joined(f, t), ptr', t)
  {
    JoinedEntry(f, t, t);
    hide Joined;
    JoinedEntry(f, t, NextIndex(|f| - 1, t));
  }

  lemma JoinedLink(f: seq<Extent>, base: nat, t: nat, ptr: map<nat, nat>, ptr': map<nat, nat>, k: nat)
    requires Nearly(f, base, t) && LinkedBut(f, ptr, t) && f[t].End() == f[t + 1].addr
    requires k < |Joined(f, t)| && k != t && KeptBut(ptr, ptr', f[t].addr)
    ensures LinkAt(Joined(f, t), ptr', k)
  {
    var from := if k < t then k else k + 1;
    JoinedNeighbours(f, t, k);
    OtherAddress(f, base, t, from);
    assert LinkAt(f, ptr, from);
    hide Nearly, Joined, LinkAt, KeptBut, NextIndex;
    SameLink(f, ptr, from, Joined(f, t), ptr', k, f[t].addr);
  }

  lemma JoinedNeighbours(f: seq<Extent>, t: nat, k: nat)
    requires t + 1 < |f| && f[t].End() == f[t + 1].addr && k < |Joined(f, t)| && k != t
    ensures var from, r := if k < t then k else k + 1, Joined(f, t);
            && from < |f| && r[k].addr == f[from].addr
            && r[NextIndex(|r|, k)].addr == f[NextIndex(|f|, from)].addr
  {
    JoinedEntry(f, t, k);
    JoinedEntry(f, t, NextIndex(|Joined(f, t)|, k));
  }

  lemma ApartLink(f: seq<Extent>, base: nat, t: nat, ptr: map<nat, nat>, ptr': map<nat, nat>, k: nat)
    requires Nearly(f, base, t) && LinkedBut(f, ptr, t) && k < |f|
    requires ptr' == ptr[f[t].addr := f[t + 1].addr]
    ensures LinkAt(f, ptr', k)
  {
    if k != t {
      assert LinkAt(f, ptr, k);
      OtherAddress(f, base, t, k);
    }
  }

  lemma SizeNext(f: seq<Extent>, base: nat, t: nat, b: Extent, size: map<nat, nat>)
    requires GoesAfter(f, base, t, b) && Sized(f, size) && b.addr in size && size[b.addr] == b.size
    ensures f[NextIndex(|f|, t)].addr in size
    ensures var next := f[NextIndex(|f|, t)].addr;
            Sized(WithNext(f, t, b), if b.End() == next then size[b.addr := b.size + size[next]] else size)
  {
    var r, next := WithNext(f, t, b), f[NextIndex(|f|, t)].addr;
    var size' := if b.End() == next then size[b.addr := b.size + size[next]] else size;
    NewAddress(f, base, t, b);
    hide WithNext, GoesAfter;
    forall k | 0 <= k < |r|
      ensures r[k].addr in size' && size'[r[k].addr] == r[k].size
    {
      WithNextEntry(f, t, b, k);
    }
  }

  lemma SizeJoined(f: seq<Extent>, base: nat, t: nat, size: map<nat, nat>)
    requires Nearly(f, base, t) && Sized(f, size)
    ensures f[t].addr in size && f[t + 1].addr in size
    ensures var p, next := f[t].addr, f[t + 1].addr;
            Sized(Joined(f, t), if f[t].End() == next then size[p := size[p] + size[next]] else size)
  {
    if f[t].End() == f[t + 1].addr {
      var r, size' := Joined(f, t), size[f[t].addr := size[f[t].addr] + size[f[t + 1].addr]];
      hide Joined;
      forall k | 0 <= k < |r|
        ensures r[k].addr in size' && size'[r[k].addr] == r[k].size
      {
        JoinedEntry(f, t, k);
        if k != t {
          OtherAddress(f, base, t, if k < t then k else k + 1);
        }
      }
    }
  }

  /** The test that ends the search of free. */
  predicate Stops(bp: nat, p: nat, next: nat) {
    (p < bp && bp < next) || (next <= p && (p < bp || bp < next))
  }

  /** The search stops exactly where the block belongs. */
  lemma StopsThere(f: seq<Extent>, base: nat, b: Extent, c: nat)
    requires Ordered(f, base) && ApartFrom(b, f) && base < b.addr && b.size > 0 && c < |f|
    ensures Stops(b.addr, f[c].addr, f[NextIndex(|f|, c)].addr) <==> GoesAfter(f, base, c, b)
  {
    assert Disjoint(b, f[c]) && Disjoint(b, f[NextIndex(|f|, c)]);
    assert c + 1 < |f| ==> f[c].End() < f[c + 1].addr;
    assert 0 < c ==> f[0].End() < f[c].addr;
  }

  /** There is such a place. */
  lemma {:induction false} PlaceBelow(f: seq<Extent>, base: nat, b: Extent, n: nat) returns (t: nat)
    requires Ordered(f, base) && ApartFrom(b, f) && base < b.addr && b.size > 0 && 0 < n <= |f|
    requires n < |f| ==> b.addr < f[n].addr
    ensures t < |f| && GoesAfter(f, base, t, b)
  {
    t := n - 1;
    if f[t].addr <= b.addr {
      assert Disjoint(b, f[t]) && (n < |f| ==> Disjoint(b, f[n]));
    } else {
      t := PlaceBelow(f, base, b, n - 1);
    }
  }

  lemma DistanceStep(n: nat, c: nat, k: nat)
    requires c < n && k < n && c != k
    ensures Distance(n, NextIndex(n, c), k) == Distance(n, c, k) - 1
  {
  }

  lemma AddressesDiffer(f: seq<Extent>, base: nat, c: nat)
    requires Ordered(f, base) && c < |f|
    ensures forall i :: 0 <= i < |f| && i != c ==> f[i].addr != f[c].addr
  {
  }

  /** Unlinking position c. */
  lemma UnlinkTaken(f: seq<Extent>, base: nat, c: nat, ptr: map<nat, nat>)
    requires Ordered(f, base) && Linked(f, ptr) && 0 < c < |f|
    ensures f[c].addr in ptr
    ensures Linked(Taken(f, c, f[c].size), ptr[f[c - 1].addr := ptr[f[c].addr]])
  {
    hide Ordered;
    assert LinkAt(f, ptr, c);
    var r, ptr' := Taken(f, c, f[c].size), ptr[f[c - 1].addr := ptr[f[c].addr]];
    AddressesDiffer(f, base, c - 1);
    forall k | 0 <= k < |r|
      ensures LinkAt(r, ptr', k)
    {
      TakenNeighbours(f, c, k);
      assert LinkAt(f, ptr, if k < c then k else k + 1);
    }
  }

  lemma TakenNeighbours(f: seq<Extent>, c: nat, k: nat)
    requires 0 < c < |f| && k < |f| - 1
    ensures var r := Taken(f, c, f[c].size);
            && |r| == |f| - 1 && r[k] == f[if k < c then k else k + 1]
            && r[NextIndex(|r|, k)] ==
                 f[if k == c - 1 then NextIndex(|f|, c) else NextIndex(|f|, if k < c then k else k + 1)]
  {
  }

  lemma ShrinkTaken(f: seq<Extent>, c: nat, n: nat, ptr: map<nat, nat>)
    requires Linked(f, ptr) && c < |f| && n < f[c].size
    ensures Linked(Taken(f, c, n), ptr)
  {
    forall k | 0 <= k < |f|
      ensures LinkAt(Taken(f, c, n), ptr, k)
    {
      assert LinkAt(f, ptr, k);
    }
  }

  lemma SizeTaken(f: seq<Extent>, base: nat, c: nat, n: nat, size: map<nat, nat>)
    requires Ordered(f, base) && Sized(f, size) && 0 < c < |f| && 0 < n <= f[c].size
    ensures var e := Cut(f, c, n);
            Sized(Taken(f, c, n), size[f[c].addr := f[c].size - n][e.addr := n])
  {
    var r, e := Taken(f, c, n), Cut(f, c, n);
    var size' := size[f[c].addr := f[c].size - n][e.addr := n];
    TakenOrdered(f, base, c, n);
    assert forall k :: 0 <= k < |f| && k != c ==> f[k].addr != f[c].addr && f[k].addr != e.addr;
    forall k | 0 <= k < |r|
      ensures r[k].addr in size' && size'[r[k].addr] == r[k].size
    {
      if f[c].size == n {
        assert r[k] == f[if k < c then k else k + 1];
      }
    }
  }

  ghost predicate Listed(f: seq<Extent>, ptr: map<nat, nat>, size: map<nat, nat>, base: nat) {
    Ordered(f, base) && Linked(f, ptr) && Sized(f, size)
  }

  ghost predicate At(f: seq<Extent>, k: nat, p: nat) {
    k < |f| && f[k].addr == p
  }

  ghost predicate OnList(f: seq<Extent>, p: nat) {
    exists k :: At(f, k, p)
  }

  /** Live blocks keep their sizes and stay apart when b joins the list after position t. */
  lemma LiveAfterFree(live: seq<Extent>, f: seq<Extent>, base: nat, t: nat, b: Extent,
                      size: map<nat, nat>, size': map<nat, nat>)
    requires Apart(live, f, base) && Sized(live, size) && GoesAfter(f, base, t, b) && ApartFrom(b, live)
    requires forall x :: x in size && x != b.addr && x != f[t].addr ==> x in size' && size'[x] == size[x]
    ensures Apart(live, Inserted(f, t, b), base) && Sized(live, size')
  {
    assert f[t].size > 0 || f[t].addr == base;
    hide Inserted, GoesAfter;
    forall i | 0 <= i < |live|
      ensures ApartFrom(live[i], Inserted(f, t, b))
      ensures live[i].addr in size' && size'[live[i].addr] == live[i].size
    {
      assert Disjoint(b, live[i]) && Disjoint(live[i], f[t]);
      ApartInserted(live[i], f, base, t, b);
    }
  }

  /** The free list is one address-ordered cycle of coalesced blocks, live blocks overlap
      nothing, and free and live units are the units obtained from sbrk. */
  ghost predicate Sound(f: seq<Extent>, live: seq<Extent>, ptr: map<nat, nat>, size: map<nat, nat>,
                        base: nat, freep: nat, obtained: nat)
  {
    && 0 < base
    && (freep == 0 ==> f == [] && live == [] && obtained == 0)
    && (freep != 0 ==> Listed(f, ptr, size, base) && OnList(f, freep))
    && Sized(live, size) && Apart(live, f, base)
    && Units(f) + Units(live) == obtained
  }

  /** sbrk's promise: memory that no block occupies. */
  ghost predicate Fresh(b: Extent, f: seq<Extent>, live: seq<Extent>, base: nat) {
    base < b.addr && b.size > 0 && ApartFrom(b, f) && ApartFrom(b, live)
  }

  /** Writing the size of a new block disturbs no other header. */
  lemma SizesKept(s: seq<Extent>, size: map<nat, nat>, b: Extent, base: nat)
    requires Sized(s, size) && ApartFrom(b, s) && b.size > 0 && base < b.addr
    requires forall k :: 0 <= k < |s| ==> s[k].size > 0 || s[k].addr == base
    ensures Sized(s, size[b.addr := b.size])
  {
    assert forall k :: 0 <= k < |s| ==> Disjoint(b, s[k]);
  }

  /** Where the new block is found after free has put it into the list. */
  lemma RoomAfter(f: seq<Extent>, t: nat, b: Extent, n: nat)
    requires t < |f| && n <= b.size
    ensures HasRoom(Inserted(f, t, b), n)
  {
    var g := WithNext(f, t, b);
    WithNextEntry(f, t, b, t + 1);
    if g[t].End() == g[t + 1].addr {
      JoinedEntry(g, t, t);
      assert n <= Inserted(f, t, b)[t].size;
    } else {
      assert n <= Inserted(f, t, b)[t + 1].size;
    }
  }

  datatype Outcome = Null | Oversize | Pointer(ap: nat)

  /** Units from which on sbrk's argument is negative. */
  const MAXCORE: nat := 0x8000_0000 / HEADER

  /** The units of f and b are those of g and e. */
  ghost predicate Exchange(f: seq<Extent>, b: Extent, g: seq<Extent>, e: Extent) {
    forall u: nat :: Covers(f, u) || b.Has(u) <==> Covers(g, u) || e.Has(u)
  }

  /** The units of g are those of f and b. */
  ghost predicate Gained(f: seq<Extent>, g: seq<Extent>, b: Extent) {
    forall u: nat :: Covers(g, u) <==> Covers(f, u) || b.Has(u)
  }

  lemma GainedByInsert(f: seq<Extent>, base: nat, t: nat, b: Extent)
    requires GoesAfter(f, base, t, b)
    ensures t < |f| && Gained(f, Inserted(f, t, b), b)
  {
    InsertedIs(f, base, t, b);
  }

  lemma GainedNothing(f: seq<Extent>)
    ensures Gained(f, f, Extent(0, 0))
  {
  }

  lemma TakenExchange(f: seq<Extent>, b: Extent, g: seq<Extent>, c: nat, n: nat)
    requires Gained(f, g, b) && c < |g| && n <= g[c].size
    ensures Exchange(f, b, Taken(g, c, n), Cut(g, c, n))
  {
    TakenUnits(g, c, n);
    hide Covers, Extent.Has, Taken, Cut;
  }

  /** Where malloc's loop is: freep, prevp and p are at positions fi, pc and c of the list. */
  datatype Walk = Walk(fi: nat, pc: nat, c: nat, asked: bool)

  /** Before sbrk is asked, no block passed is large enough; afterwards one ahead is. */
  ghost predicate Searching(f0: seq<Extent>, f: seq<Extent>, w: Walk, freep: nat, prevp: nat, p: nat, n: nat,
                            core: Extent)
  {
    && At(f, w.fi, freep) && At(f, w.c, p) && At(f, w.pc, prevp) && w.c == NextIndex(|f|, w.pc)
    && (!w.asked ==> f == f0 && NoneBehind(f, w.c, w.fi, n))
    && (w.asked ==> Gained(f0, f, core) && !HasRoom(f0, n) && RoomAhead(f, w.c, w.fi, n))
  }

  ghost function ToGo(f: seq<Extent>, w: Walk): nat {
    if w.c < |f| && w.fi < |f| then Distance(|f|, w.c, w.fi) else 0
  }

  lemma FreshBegins(b: Extent, f: seq<Extent>, g: seq<Extent>, live: seq<Extent>, base: nat)
    requires Fresh(b, f, live, base) && (g == f || (f == [] && g == [Extent(base, 0)]))
    ensures Fresh(b, g, live, base)
  {
  }

  lemma ListHasFreep(f: seq<Extent>, live: seq<Extent>, ptr: map<nat, nat>, size: map<nat, nat>,
                     base: nat, freep: nat, obtained: nat)
    requires Sound(f, live, ptr, size, base, freep, obtained) && freep != 0
    ensures exists k :: At(f, k, freep)
  {
  }

  lemma SearchingBegins(f: seq<Extent>, w: Walk, freep: nat, p: nat, n: nat, core: Extent)
    requires At(f, w.fi, freep) && w.pc == w.fi && At(f, w.c, p) && w.c == NextIndex(|f|, w.fi) && !w.asked
    ensures Searching(f, f, w, freep, freep, p, n, core)
  {
    SearchBegins(f, w.fi, n);
  }

  lemma SearchingAgain(f0: seq<Extent>, base: nat, w: Walk, freep: nat, p: nat, n: nat, core: Extent)
    requires GoesAfter(f0, base, w.fi, core) && !HasRoom(f0, n) && n <= core.size
    requires var f := Inserted(f0, w.fi, core);
             At(f, w.fi, freep) && w.pc == w.fi && At(f, w.c, p) && w.c == NextIndex(|f|, w.fi) && w.asked
    ensures Searching(f0, Inserted(f0, w.fi, core), w, freep, freep, p, n, core)
  {
    var f := Inserted(f0, w.fi, core);
    hide GoesAfter, Inserted, HasRoom, RoomAhead;
    GainedByInsert(f0, base, w.fi, core);
    RoomAfter(f0, w.fi, core, n);
    SearchBegins(f, w.fi, n);
  }

  lemma SearchingGoesOn(f0: seq<Extent>, f: seq<Extent>, w: Walk, freep: nat, prevp: nat, p: nat, next: nat, n: nat,
                        core: Extent)
    requires Searching(f0, f, w, freep, prevp, p, n, core) && f[w.c].size < n && p != freep
    requires At(f, NextIndex(|f|, w.c), next)
    ensures var w' := w.(pc := w.c, c := NextIndex(|f|, w.c));
            Searching(f0, f, w', freep, p, next, n, core) && ToGo(f, w') < ToGo(f, w)
  {
    SearchGoesOn(f, w.c, w.fi, n);
    DistanceStep(|f|, w.c, w.fi);
  }

  /** Coming to freep with nothing found, before sbrk is asked: there is no block large enough. */
  lemma SearchingEnds(f0: seq<Extent>, w: Walk, freep: nat, prevp: nat, p: nat, n: nat, core: Extent)
    requires !w.asked && Searching(f0, f0, w, freep, prevp, p, n, core) && w.c == w.fi && f0[w.c].size < n
    ensures !HasRoom(f0, n)
  {
    SearchEnds(f0, w.fi, n);
  }

  /** What the walk says of the block it is at. */
  lemma Searched(f0: seq<Extent>, f: seq<Extent>, w: Walk, freep: nat, prevp: nat, p: nat, n: nat, core: Extent)
    requires Searching(f0, f, w, freep, prevp, p, n, core)
    ensures At(f, w.fi, freep) && At(f, w.c, p) && (w.c > 0 ==> At(f, w.c - 1, prevp))
    ensures w.asked && w.c == w.fi ==> n <= f[w.c].size
    ensures w.asked ==> !HasRoom(f0, n)
    ensures !w.asked && n <= f[w.c].size ==> HasRoom(f0, n)
    ensures n <= f[w.c].size ==> Exchange(f0, if w.asked then core else Extent(0, 0), Taken(f, w.c, n), Cut(f, w.c, n))
  {
    hide Taken, Exchange, Gained, SameUnits, RoomAhead;
    if n <= f[w.c].size {
      if !w.asked {
        GainedNothing(f);
      }
      TakenExchange(f0, if w.asked then core else Extent(0, 0), f, w.c, n);
    } else {
      if w.c == w.fi {
        SearchEnds(f, w.fi, n);
      }
    }
  }

  /** The list of the empty block alone has the units, and the room, of no list. */
  lemma EmptyBegins(f: seq<Extent>, g: seq<Extent>, base: nat, n: nat)
    requires g == f || (f == [] && g == [Extent(base, 0)])
    ensures SameUnits(g, f) && (n > 0 ==> (HasRoom(g, n) <==> HasRoom(f, n)))
  {
    if g != f {
      One(Extent(base, 0));
    }
  }

  function Core(grant: Option<nat>, n: nat): Extent {
    Extent(if grant.Some? then grant.value else 0, CoreFor(n))
  }

  /** What malloc promises for n units. Null is sbrk's refusal; Oversize is a request that
      sbrk, with its signed argument, takes for one to shrink, after which nothing is promised.
      A block comes from the list if one there is large enough, else from the memory granted,
      and the rest of it is free. */
  ghost predicate Found(f0: seq<Extent>, n: nat, grant: Option<nat>, r: Outcome, f: seq<Extent>,
                        live0: seq<Extent>, live: seq<Extent>, got: nat, obtained: nat)
  {
    && (r == Null <==> !HasRoom(f0, n) && CoreFor(n) < MAXCORE && grant.None?)
    && (r == Oversize <==> !HasRoom(f0, n) && CoreFor(n) >= MAXCORE)
    && (r == Null ==> SameUnits(f, f0) && live == live0 && obtained == got)
    && (r.Pointer? ==> 0 < r.ap && live == live0 + [Extent(r.ap - 1, n)])
    && (r.Pointer? && HasRoom(f0, n) ==> obtained == got && Exchange(f0, Extent(0, 0), f, Extent(r.ap - 1, n)))
    && (r.Pointer? && !HasRoom(f0, n) ==>
          obtained == got + CoreFor(n) && Exchange(f0, Core(grant, n), f, Extent(r.ap - 1, n)))
  }

  lemma FoundFrom(f: seq<Extent>, f0: seq<Extent>, n: nat, grant: Option<nat>, r: Outcome, g: seq<Extent>,
                  live0: seq<Extent>, live: seq<Extent>, got: nat, obtained: nat)
    requires SameUnits(f0, f) && (HasRoom(f0, n) <==> HasRoom(f, n))
    requires Found(f0, n, grant, r, g, live0, live, got, obtained)
    ensures Found(f, n, grant, r, g, live0, live, got, obtained)
  {
    hide Covers, HasRoom;
  }

  /** A request whose rounding wraps is given a block that holds its header and no byte. */
  lemma WrappedRequest(nbytes: nat, f0: seq<Extent>, grant: Option<nat>, r: Outcome, f: seq<Extent>,
                       live0: seq<Extent>, live: seq<Extent>, got: nat, obtained: nat)
    requires nbytes < UINT <= nbytes + HEADER - 1
    requires Found(f0, UnitsFor(nbytes), grant, r, f, live0, live, got, obtained)
    ensures r != Oversize && (r.Pointer? ==> live == live0 + [Extent(r.ap - 1, 1)])
  {
    assert UnitsFor(nbytes) == 1;
  }

  class Heap {
    const base: nat
    var ptr: map<nat, nat>
    var size: map<nat, nat>
    var freep: nat
    ghost var frees: seq<Extent>
    ghost var live: seq<Extent>
    ghost var obtained: nat

    ghost predicate Valid()
      reads this
    {
      Sound(frees, live, ptr, size, base, freep, obtained)
    }

    constructor (base: nat)
      requires 0 < base
      ensures Valid() && freep == 0 && this.base == base
    {
      this.base := base;
      ptr, size, freep, frees, live, obtained := map[], map[], 0, [], [], 0;
    }

    /** The search of free: round the list from freep to the block's place. */
    method FindPlace(bp: nat, ghost b: Extent) returns (p: nat, ghost t: nat)
      requires Listed(frees, ptr, size, base) && OnList(frees, freep)
      requires b.addr == bp && b.size > 0 && base < bp && ApartFrom(b, frees)
      ensures At(frees, t, p) && GoesAfter(frees, base, t, b)
    {
      ghost var n := |frees|;
      t := PlaceBelow(frees, base, b, n);
      p := freep;
      ghost var c :| At(frees, c, p);
      hide Ordered, ApartFrom, Sized, GoesAfter;
      while !(p < bp && bp < ptr[p])
        invariant At(frees, c, p) && LinkAt(frees, ptr, c)
        decreases Distance(n, c, t)
      {
        if p >= ptr[p] && (p < bp || bp < ptr[p]) {
          break;
        }
        StopsThere(frees, base, b, c);
        DistanceStep(n, c, t);
        p, c := ptr[p], NextIndex(n, c);
      }
      StopsThere(frees, base, b, c);
      t := c;
    }

    /** free, for a block that is in nobody's hands: b enters the list after its place. */
    method Release(bp: nat, ghost b: Extent) returns (ghost t: nat)
      requires Listed(frees, ptr, size, base) && OnList(frees, freep)
      requires b.addr == bp && b.size > 0 && base < bp && ApartFrom(b, frees)
      requires bp in size && size[bp] == b.size
      modifies this`ptr, this`size, this`freep, this`frees
      ensures GoesAfter(old(frees), base, t, b) && frees == Inserted(old(frees), t, b)
      ensures Listed(frees, ptr, size, base) && At(frees, t, freep) && base <= freep
      ensures forall x :: x in old(size) && x != bp && x != old(frees)[t].addr ==> x in size && size[x] == old(size)[x]
    {
      var p;
      p, t := FindPlace(bp, b);
      ghost var f := frees;
      MergeNext(p, bp, t, b);
      WithNextNearly(f, base, t, b);
      assert base <= f[t].addr;
      hide GoesAfter, Ordered, Sized, LinkedBut;
      WithNextEntry(f, t, b, t);
      WithNextEntry(f, t, b, t + 1);
      MergePrevious(p, bp, WithNext(f, t, b), t);
      freep := p;
      frees := Inserted(f, t, b);
    }

    /** The first half of free: the block takes over the next one if they touch. */
    method MergeNext(p: nat, bp: nat, ghost t: nat, ghost b: Extent)
      requires Listed(frees, ptr, size, base) && GoesAfter(frees, base, t, b) && At(frees, t, p)
      requires b.addr == bp && bp in size && size[bp] == b.size
      modifies this`ptr, this`size
      ensures LinkedBut(WithNext(frees, t, b), ptr, t) && Sized(WithNext(frees, t, b), size)
      ensures KeptBut(old(size), size, bp)
    {
      LinkNext(frees, base, t, b, ptr);
      SizeNext(frees, base, t, b, size);
      assert LinkAt(frees, ptr, t);
      hide Linked, Sized, LinkedBut, GoesAfter, Ordered;
      var next := ptr[p];
      if bp + size[bp] == next {
        size := size[bp := size[bp] + size[next]];
        ptr := ptr[bp := ptr[next]];
      } else {
        ptr := ptr[bp := next];
      }
    }

    /** The second half: the block is taken over by the previous one if they touch. */
    method MergePrevious(p: nat, bp: nat, ghost f: seq<Extent>, ghost t: nat)
      requires Nearly(f, base, t) && LinkedBut(f, ptr, t) && Sized(f, size) && At(f, t, p) && At(f, t + 1, bp)
      modifies this`ptr, this`size
      ensures Listed(Joined(f, t), ptr, size, base) && KeptBut(old(size), size, p) && At(Joined(f, t), t, p)
    {
      LinkJoined(f, base, t, ptr);
      SizeJoined(f, base, t, size);
      JoinedOrdered(f, base, t);
      assert size[p] == f[t].size && size[bp] == f[t + 1].size;
      assert At(Joined(f, t), t, p);
      hide Linked, Sized, LinkedBut, Nearly, Ordered, Joined;
      if p + size[p] == bp {
        size := size[p := size[p] + size[bp]];
        ptr := ptr[p := ptr[bp]];
      } else {
        ptr := ptr[p := bp];
      }
    }

    /** Give back a block that malloc has given. */
    method Free(ap: nat) returns (ghost i: nat)
      requires Valid() && exists k :: 0 <= k < |live| && live[k].addr + 1 == ap
      modifies this`ptr, this`size, this`freep, this`frees, this`live
      ensures Valid() && i < |old(live)| && old(live)[i].addr + 1 == ap
      ensures live == old(live)[..i] + old(live)[i + 1..]
      ensures forall u: nat :: Covers(frees, u) <==> Covers(old(frees), u) || old(live)[i].Has(u)
    {
      hide Sound, Listed, GoesAfter, Inserted, ApartFrom, Covers, Units, Sized, Apart;
      i :| 0 <= i < |live| && live[i].addr + 1 == ap;
      ghost var b, f, all, was := live[i], frees, live, size;
      LiveIsApart(frees, live, ptr, size, base, freep, obtained, i);
      live := live[..i] + live[i + 1..];
      ghost var t := Release(ap - 1, b);
      InsertedIs(f, base, t, b);
      SoundAfterFree(f, all, i, was, base, freep, obtained, t, ptr, size);
    }

    /** Ask sbrk for memory and free it into the list. */
    method Morecore(nu: nat, grant: Option<nat>) returns (p: nat, ghost t: nat)
      requires Valid() && freep != 0
      requires grant.Some? ==> Fresh(Extent(grant.value, CoreFor(nu)), frees, live, base)
      modifies this`ptr, this`size, this`freep, this`frees, this`obtained
      ensures Valid() && freep != 0
      ensures grant.None? ==> p == 0 && frees == old(frees) && freep == old(freep) && obtained == old(obtained)
      ensures grant.Some? ==>
                var b := Extent(grant.value, CoreFor(nu));
                && p == freep && At(frees, t, p) && obtained == old(obtained) + b.size
                && GoesAfter(old(frees), base, t, b) && frees == Inserted(old(frees), t, b)
    {
      hide Sound, Listed, OnList, GoesAfter, Inserted, ApartFrom, Sized, Apart, Units, Fresh;
      t := 0;
      if grant.None? {
        return 0, t;
      }
      var hp, nu' := grant.value, CoreFor(nu);
      ghost var b, f := Extent(hp, nu'), frees;
      NewHeader(frees, live, ptr, size, base, freep, obtained, b);
      size := size[hp := nu'];
      ghost var was := size;
      obtained := obtained + nu';
      t := Release(hp, b);
      SoundAfterMore(f, live, was, base, freep, obtained, t, b, ptr, size);
      return freep, t;
    }

    /** Cut n units off the end of the block at p, or take it out of the list. */
    method Take(prevp: nat, p: nat, n: nat, ghost c: nat) returns (ap: nat)
      requires Valid() && freep != 0 && 0 < c && At(frees, c, p) && At(frees, c - 1, prevp) && 0 < n <= frees[c].size
      modifies this`ptr, this`size, this`freep, this`frees, this`live
      ensures Valid() && frees == Taken(old(frees), c, n) && ap == Cut(old(frees), c, n).addr + 1
      ensures live == old(live) + [Cut(old(frees), c, n)] && freep == prevp
    {
      hide Sound, Taken, Units;
      ghost var f, l, pt, sz, fp, e := frees, live, ptr, size, freep, Cut(frees, c, n);
      OnTheWay(f, l, ptr, size, base, freep, obtained, c, p);
      var q := p;
      if size[p] == n {
        ptr := ptr[prevp := ptr[p]];
      } else {
        size := size[p := size[p] - n];
        q := p + size[p];
        size := size[q := n];
      }
      freep := prevp;
      SoundAfterTake(f, l, pt, sz, base, fp, obtained, c, n, ptr, size);
      frees := Taken(f, c, n);
      live := live + [e];
      return q + 1;
    }

    /** The first call makes the list of the empty block alone. */
    method Begin()
      requires Valid()
      modifies this`ptr, this`size, this`freep, this`frees
      ensures Valid() && freep != 0
      ensures old(freep) != 0 ==> ptr == old(ptr) && size == old(size) && freep == old(freep) && frees == old(frees)
      ensures old(freep) == 0 ==> old(frees) == [] && frees == [Extent(base, 0)]
    {
      if freep == 0 {
        ptr, size, freep := ptr[base := base], size[base := 0], base;
        frees := [Extent(base, 0)];
        assert At(frees, 0, freep);
        assert LinkAt(frees, ptr, 0);
      }
    }

    /** The walk of malloc for n units, begun on the list f0 with `got` units obtained. */
    ghost predicate Walking(f0: seq<Extent>, w: Walk, prevp: nat, p: nat, n: nat, grant: Option<nat>, got: nat)
      reads this
    {
      && Valid() && freep != 0 && 0 < n && Searching(f0, frees, w, freep, prevp, p, n, Core(grant, n))
      && obtained == got + (if w.asked then CoreFor(n) else 0)
      && (w.asked ==> grant.Some? && CoreFor(n) < MAXCORE)
      && (!w.asked ==> frees == f0 && (grant.Some? ==> Fresh(Core(grant, n), f0, live, base)))
    }

    /** The end of the list before sbrk has been asked. */
    method Extend(prevp: nat, p: nat, n: nat, grant: Option<nat>, ghost f0: seq<Extent>, ghost w: Walk, ghost got: nat)
      returns (r: Option<Outcome>, prevp': nat, p': nat, ghost w': Walk)
      requires Walking(f0, w, prevp, p, n, grant, got) && !w.asked && !HasRoom(f0, n)
      modifies this`ptr, this`size, this`freep, this`frees, this`obtained
      ensures r.None? ==> Walking(f0, w', prevp', p', n, grant, got) && w'.asked
      ensures r.Some? && r.value != Oversize ==> Valid()
      ensures r.Some? ==> Found(f0, n, grant, r.value, frees, live, live, got, obtained)
    {
      hide Sound, HasRoom, Searching, Fresh, Exchange, Inserted, GoesAfter;
      prevp', p', w' := 0, 0, w;
      if CoreFor(n) >= MAXCORE {
        return Some(Oversize), 0, 0, w;
      }
      ghost var fi;
      prevp', fi := Morecore(n, grant);
      if prevp' == 0 {
        return Some(Null), 0, 0, w;
      }
      OnTheWay(frees, live, ptr, size, base, freep, obtained, fi, prevp');
      w' := Walk(fi, fi, NextIndex(|frees|, fi), true);
      p' := ptr[prevp'];
      SearchingAgain(f0, base, w', freep, p', n, Core(grant, n));
      r := None;
    }

    /** One turn of malloc's loop: an outcome, or a step nearer to it. */
    method Turn(prevp: nat, p: nat, n: nat, grant: Option<nat>, ghost f0: seq<Extent>, ghost w: Walk, ghost got: nat)
      returns (r: Option<Outcome>, prevp': nat, p': nat, ghost w': Walk)
      requires Walking(f0, w, prevp, p, n, grant, got)
      modifies this`ptr, this`size, this`freep, this`frees, this`live, this`obtained
      ensures r.None? ==> Walking(f0, w', prevp', p', n, grant, got) && live == old(live)
      ensures r.None? ==> (w'.asked && !w.asked) || (w'.asked == w.asked && ToGo(frees, w') < ToGo(old(frees), w))
      ensures r.Some? && r.value != Oversize ==> Valid()
      ensures r.Some? ==> Found(f0, n, grant, r.value, frees, old(live), live, got, obtained)
    {
      hide Sound, HasRoom, Searching, Fresh, Exchange, Taken, ToGo, SameUnits;
      Searched(f0, frees, w, freep, prevp, p, n, Core(grant, n));
      OnTheWay(frees, live, ptr, size, base, freep, obtained, w.c, p);
      if size[p] >= n {
        var ap := Take(prevp, p, n, w.c);
        return Some(Pointer(ap)), 0, 0, w;
      }
      if p == freep {
        SearchingEnds(f0, w, freep, prevp, p, n, Core(grant, n));
        r, prevp', p', w' := Extend(prevp, p, n, grant, f0, w, got);
      } else {
        SearchingGoesOn(f0, frees, w, freep, prevp, p, ptr[p], n, Core(grant, n));
        r, prevp', p', w' := None, p, ptr[p], w.(pc := w.c, c := NextIndex(|frees|, w.c));
      }
    }

    /** Find, or obtain, a block for nbytes. */
    method Malloc(nbytes: nat, grant: Option<nat>) returns (r: Outcome)
      requires Valid() && nbytes < UINT
      requires grant.Some? ==> Fresh(Core(grant, UnitsFor(nbytes)), frees, live, base)
      modifies this`ptr, this`size, this`freep, this`frees, this`live, this`obtained
      ensures r != Oversize ==> Valid()
      ensures Found(old(frees), UnitsFor(nbytes), grant, r, frees, old(live), live, old(obtained), obtained)
    {
      hide Sound, Searching, Found, Fresh, HasRoom, Covers;
      var n := UnitsFor(nbytes);
      Begin();
      ghost var f0, got := frees, obtained;
      EmptyBegins(old(frees), f0, base, n);
      if grant.Some? {
        FreshBegins(Core(grant, n), old(frees), f0, live, base);
      }
      ListHasFreep(frees, live, ptr, size, base, freep, obtained);
      ghost var fi :| At(frees, fi, freep);
      OnTheWay(frees, live, ptr, size, base, freep, obtained, fi, freep);
      var prevp, p := freep, ptr[freep];
      ghost var w := Walk(fi, fi, NextIndex(|frees|, fi), false);
      SearchingBegins(f0, w, freep, p, n, Core(grant, n));
      r := Search(prevp, p, n, grant, f0, w, got);
      FoundFrom(old(frees), f0, n, grant, r, frees, old(live), live, got, obtained);
    }

    /** Go round the list until a block is found or none can be. */
    method Search(prevp0: nat, p0: nat, n: nat, grant: Option<nat>, ghost f0: seq<Extent>, ghost w0: Walk,
                  ghost got: nat)
      returns (r: Outcome)
      requires Walking(f0, w0, prevp0, p0, n, grant, got)
      modifies this`ptr, this`size, this`freep, this`frees, this`live, this`obtained
      ensures r != Oversize ==> Valid()
      ensures Found(f0, n, grant, r, frees, old(live), live, got, obtained)
    {
      hide *;
      var prevp, p, o := prevp0, p0, None;
      ghost var w := w0;
      while o.None?
        invariant o.None? ==> Walking(f0, w, prevp, p, n, grant, got) && live == old(live)
        invariant o.Some? && o.value != Oversize ==> Valid()
        invariant o.Some? ==> Found(f0, n, grant, o.value, frees, old(live), live, got, obtained)
        decreases o.None?, !w.asked, ToGo(frees, w)
      {
        o, prevp, p, w := Turn(prevp, p, n, grant, f0, w, got);
      }
      return o.value;
    }
  }

  /** Following the pointers. */
  lemma OnTheWay(f: seq<Extent>, live: seq<Extent>, ptr: map<nat, nat>, size: map<nat, nat>,
                 base: nat, freep: nat, obtained: nat, c: nat, p: nat)
    requires Sound(f, live, ptr, size, base, freep, obtained) && freep != 0 && At(f, c, p)
    ensures p in ptr && At(f, NextIndex(|f|, c), ptr[p])
    ensures p in size && size[p] == f[c].size && (c == 0 ==> size[p] == 0)
    ensures p == freep ==> forall k :: At(f, k, freep) ==> k == c
  {
    assert LinkAt(f, ptr, c);
  }

  /** What free may rely on. */
  lemma LiveIsApart(f: seq<Extent>, live: seq<Extent>, ptr: map<nat, nat>, size: map<nat, nat>,
                    base: nat, freep: nat, obtained: nat, i: nat)
    requires Sound(f, live, ptr, size, base, freep, obtained) && i < |live|
    ensures freep != 0 && 0 < base && Listed(f, ptr, size, base) && OnList(f, freep)
    ensures var b := live[i];
            && base < b.addr && 0 < b.size && ApartFrom(b, f)
            && b.addr in size && size[b.addr] == b.size
            && Sized(live, size) && Apart(live, f, base) && Units(f) + Units(live) == obtained
  {
  }

  lemma SoundAfterFree(f: seq<Extent>, live: seq<Extent>, i: nat, was: map<nat, nat>,
                       base: nat, freep: nat, obtained: nat, t: nat, ptr: map<nat, nat>, size: map<nat, nat>)
    requires i < |live| && Apart(live, f, base) && Sized(live, was) && Units(f) + Units(live) == obtained
    requires GoesAfter(f, base, t, live[i]) && 0 < base <= freep
    requires Listed(Inserted(f, t, live[i]), ptr, size, base) && OnList(Inserted(f, t, live[i]), freep)
    requires forall x :: x in was && x != live[i].addr && x != f[t].addr ==> x in size && size[x] == was[x]
    ensures Sound(Inserted(f, t, live[i]), live[..i] + live[i + 1..], ptr, size, base, freep, obtained)
  {
    var l := live[..i] + live[i + 1..];
    hide Sized, Apart, ApartFrom, Listed, OnList, Units, Inserted, GoesAfter;
    WithoutLive(live, f, was, base, i);
    WithoutUnits(live, i);
    InsertedIs(f, base, t, live[i]);
    LiveAfterFree(l, f, base, t, live[i], was, size);
  }

  /** Writing the size of a fresh block into its header disturbs nothing. */
  lemma NewHeader(f: seq<Extent>, live: seq<Extent>, ptr: map<nat, nat>, size: map<nat, nat>,
                  base: nat, freep: nat, obtained: nat, b: Extent)
    requires Sound(f, live, ptr, size, base, freep, obtained) && freep != 0 && Fresh(b, f, live, base)
    ensures var size' := size[b.addr := b.size];
            && Listed(f, ptr, size', base) && OnList(f, freep) && 0 < base < b.addr && 0 < b.size
            && ApartFrom(b, f) && ApartFrom(b, live)
            && Sized(live, size') && Apart(live, f, base) && Units(f) + Units(live) == obtained
  {
    SizesKept(f, size, b, base);
    SizesKept(live, size, b, base);
  }

  lemma SoundAfterMore(f: seq<Extent>, live: seq<Extent>, was: map<nat, nat>, base: nat, freep: nat, obtained: nat,
                       t: nat, b: Extent, ptr: map<nat, nat>, size: map<nat, nat>)
    requires Apart(live, f, base) && Sized(live, was) && ApartFrom(b, live)
    requires Units(f) + Units(live) + b.size == obtained
    requires GoesAfter(f, base, t, b) && 0 < base <= freep
    requires Listed(Inserted(f, t, b), ptr, size, base) && At(Inserted(f, t, b), t, freep)
    requires forall x :: x in was && x != b.addr && x != f[t].addr ==> x in size && size[x] == was[x]
    ensures Sound(Inserted(f, t, b), live, ptr, size, base, freep, obtained)
  {
    hide Sized, Apart, ApartFrom, Listed, Units, Inserted, GoesAfter;
    InsertedIs(f, base, t, b);
    LiveAfterFree(live, f, base, t, b, was, size);
  }

  /** Taking n units from position c. */
  lemma SoundAfterTake(f: seq<Extent>, live: seq<Extent>, ptr: map<nat, nat>, size: map<nat, nat>, base: nat,
                       freep: nat, obtained: nat, c: nat, n: nat, ptr': map<nat, nat>, size': map<nat, nat>)
    requires Sound(f, live, ptr, size, base, freep, obtained) && freep != 0
    requires 0 < c < |f| && 0 < n <= f[c].size && f[c].addr in ptr
    requires ptr' == if n == f[c].size then ptr[f[c - 1].addr := ptr[f[c].addr]] else ptr
    requires f[c].addr in size && size[f[c].addr] == f[c].size
    requires size' == if n == f[c].size then size else size[f[c].addr := f[c].size - n][Cut(f, c, n).addr := n]
    ensures Sound(Taken(f, c, n), live + [Cut(f, c, n)], ptr', size', base, f[c - 1].addr, obtained)
  {
    var r, e := Taken(f, c, n), Cut(f, c, n);
    assert base <= f[c - 1].addr && base < f[c].addr;
    assert size' == size[f[c].addr := f[c].size - n][e.addr := n];
    if n == f[c].size {
      UnlinkTaken(f, base, c, ptr);
    } else {
      ShrinkTaken(f, c, n, ptr);
    }
    SizeTaken(f, base, c, n, size);
    TakenOrdered(f, base, c, n);
    TakenUnits(f, c, n);
    UnitsAppend(live, [e]);
    One(e);
    LiveAfterTake(live, f, base, c, n, size, size');
    assert At(r, c - 1, f[c - 1].addr);
  }

  lemma LiveAfterTake(live: seq<Extent>, f: seq<Extent>, base: nat, c: nat, n: nat, size: map<nat, nat>,
                      size': map<nat, nat>)
    requires Apart(live, f, base) && Sized(live, size) && Ordered(f, base) && 0 < c < |f| && 0 < n <= f[c].size
    requires size' == size[f[c].addr := f[c].size - n][Cut(f, c, n).addr := n]
    ensures Apart(live + [Cut(f, c, n)], Taken(f, c, n), base) && Sized(live + [Cut(f, c, n)], size')
  {
    var r, e := Taken(f, c, n), Cut(f, c, n);
    TakenOrdered(f, base, c, n);
    assert base < f[c].addr;
    assert ApartFrom(e, r);
    hide Taken, Ordered;
    forall i | 0 <= i < |live|
      ensures ApartFrom(live[i], r) && Disjoint(live[i], e) && live[i].addr in size'
      ensures size'[live[i].addr] == live[i].size
    {
      ApartTaken(live[i], f, base, c, n);
      assert Disjoint(live[i], f[c]);
    }
  }

  lemma WithoutLive(live: seq<Extent>, f: seq<Extent>, size: map<nat, nat>, base: nat, i: nat)
    requires i < |live| && Apart(live, f, base) && Sized(live, size)
    ensures var l := live[..i] + live[i + 1..];
            Apart(l, f, base) && Sized(l, size) && ApartFrom(live[i], l)
            && live[i].addr in size && size[live[i].addr] == live[i].size
  {
    var l := live[..i] + live[i + 1..];
    hide ApartFrom;
    assert forall k {:trigger l[k]} :: 0 <= k < |l| ==> l[k] == live[if k < i then k else k + 1];
    assert ApartFrom(live[i], l) by {
      forall k | 0 <= k < |l|
        ensures Disjoint(live[i], l[k])
      {
      }
    }
  }

  lemma WithoutUnits(live: seq<Extent>, i: nat)
    requires i < |live|
    ensures Units(live) == Units(live[..i] + live[i + 1..]) + live[i].size
  {
    hide Units;
    UnitsMiddle(live[..i], [live[i]], live[i + 1..]);
    UnitsAppend(live[..i], live[i + 1..]);
    SplitOne(live, i);
    One(live[i]);
  }
}
