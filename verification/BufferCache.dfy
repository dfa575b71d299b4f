/** The buffer cache over the memory disk. One transfer between a buffer and the disk
    is one atomic step, and `writes` records the disk after each of them. */
module BufferCache {
  import opened Blocks
  import opened Options
  import opened Rings

  const ROOTDEV: nat := 1

  datatype Buf = Buf(dev: nat, blockno: nat, valid: bool, dirty: bool, refcnt: nat, locked: bool, data: Block)
  {
    predicate Holds(dev: nat, blockno: nat) {
      this.dev == dev && this.blockno == blockno
    }

    /** May be recycled for another block. */
    predicate Idle() {
      refcnt == 0 && !dirty
    }
  }

  /** A buffer with one more reference. */
  function Referenced(b: Buf): Buf {
    b.(refcnt := b.refcnt + 1)
  }

  /** A buffer recycled for another block: not yet read. */
  function Emptied(b: Buf, dev: nat, blockno: nat): Buf {
    b.(dev := dev, blockno := blockno, valid := false, dirty := false, refcnt := 1)
  }

  /** A buffer referenced once more and locked by its reader, with the contents of the block. */
  function Held(b: Buf, blockno: nat, data: Block): Buf {
    Buf(ROOTDEV, blockno, true, b.dirty, b.refcnt + 1, true, data)
  }

  /** A buffer after brelse. */
  function Released(b: Buf): Buf
    requires b.refcnt > 0
  {
    b.(locked := false, refcnt := b.refcnt - 1)
  }

  /** What one buffer owes the disk and the contents that readers see: a buffer that
      nobody has locked differs from the disk only if it is dirty. */
  ghost predicate BufferOk(b: Buf, disk: Disk, view: Disk)
    requires |view| == |disk|
  {
    && (b.dirty ==> b.valid)
    && (b.locked ==> b.refcnt > 0)
    && (b.valid ==> b.dev == ROOTDEV && b.blockno < |disk| && view[b.blockno] == b.data)
    && (b.valid && !b.dirty && !b.locked ==> b.data == disk[b.blockno])
  }

  /** A buffer that may be released: its contents are on the disk, or it is dirty. */
  ghost predicate Settled(b: Buf, disk: Disk) {
    b.valid && b.blockno < |disk| && (b.dirty || b.data == disk[b.blockno])
  }

  ghost predicate UniqueBlocks(buf: seq<Buf>) {
    forall i, j :: 0 <= i < |buf| && 0 <= j < |buf| && i != j && buf[i].dev != 0
      ==> !buf[j].Holds(buf[i].dev, buf[i].blockno)
  }

  ghost predicate Present(buf: seq<Buf>, dev: nat, blockno: nat) {
    exists i :: 0 <= i < |buf| && buf[i].Holds(dev, blockno)
  }

  ghost predicate Cached(buf: seq<Buf>, blockno: nat) {
    exists i :: 0 <= i < |buf| && buf[i].valid && buf[i].blockno == blockno
  }

  /** Buffers, disk and visible contents agree. */
  ghost predicate Coherent(disk: Disk, buf: seq<Buf>, view: Disk) {
    && |view| == |disk|
    && UniqueBlocks(buf)
    && (forall i :: 0 <= i < |buf| ==> BufferOk(buf[i], disk, view))
    && (forall n :: 0 <= n < |disk| && !Cached(buf, n) ==> view[n] == disk[n])
  }

  /** The blocks pinned in memory until they are written. */
  ghost function DirtyBlocks(buf: seq<Buf>): set<nat> {
    set i | 0 <= i < |buf| && buf[i].dirty :: buf[i].blockno
  }

  ghost predicate SomeIdle(buf: seq<Buf>) {
    exists i :: 0 <= i < |buf| && buf[i].Idle()
  }

  /** The unreferenced clean buffer whose last release is oldest. */
  ghost predicate LeastRecent(buf: seq<Buf>, stamp: seq<nat>, b: nat)
    requires |stamp| == |buf|
  {
    && b < |buf| && buf[b].Idle()
    && forall i :: 0 <= i < |buf| && buf[i].Idle() ==> stamp[b] <= stamp[i]
  }

  /** Most recently released first. */
  ghost predicate ByRelease(order: seq<nat>, stamp: seq<nat>) {
    && (forall i :: 0 <= i < |order| ==> order[i] < |stamp|)
    && (forall i, j :: 0 <= i < j < |order| ==> stamp[order[i]] > stamp[order[j]])
  }

  lemma Recycled(disk: Disk, buf: seq<Buf>, view: Disk, b: nat, dev: nat, blockno: nat)
    requires Coherent(disk, buf, view)
    requires b < |buf| && buf[b].Idle() && !Present(buf, dev, blockno)
    ensures var buf' := buf[b := Emptied(buf[b], dev, blockno)];
            && Coherent(disk, buf', view) && DirtyBlocks(buf') == DirtyBlocks(buf)
  {
    var buf' := buf[b := Emptied(buf[b], dev, blockno)];
    forall n | Cached(buf, n) && n != buf[b].blockno
      ensures Cached(buf', n)
    {
      var i :| 0 <= i < |buf| && buf[i].valid && buf[i].blockno == n;
      assert buf'[i] == buf[i];
    }
    SameDirty(buf, buf');
  }

  lemma StillCached(buf: seq<Buf>, buf': seq<Buf>)
    requires |buf'| == |buf|
    requires forall i :: 0 <= i < |buf| && buf[i].valid ==> buf'[i].valid && buf'[i].blockno == buf[i].blockno
    ensures forall n :: Cached(buf, n) ==> Cached(buf', n)
  {
    forall n | Cached(buf, n)
      ensures Cached(buf', n)
    {
      var i :| 0 <= i < |buf| && buf[i].valid && buf[i].blockno == n;
      assert buf'[i].valid;
    }
  }

  lemma SameDirty(buf: seq<Buf>, buf': seq<Buf>)
    requires |buf'| == |buf|
    requires forall i :: 0 <= i < |buf| ==>
               buf'[i].dirty == buf[i].dirty && (buf[i].dirty ==> buf'[i].blockno == buf[i].blockno)
    ensures DirtyBlocks(buf') == DirtyBlocks(buf)
  {
    forall n
      ensures n in DirtyBlocks(buf') <==> n in DirtyBlocks(buf)
    {
      if n in DirtyBlocks(buf') {
        var i :| 0 <= i < |buf'| && buf'[i].dirty && buf'[i].blockno == n;
        assert buf[i].dirty;
      }
      if n in DirtyBlocks(buf) {
        var i :| 0 <= i < |buf| && buf[i].dirty && buf[i].blockno == n;
        assert buf'[i].dirty;
      }
    }
  }

  /** Changing only the counters, the lock or the dirty flag of one buffer. */
  lemma Retagged(disk: Disk, buf: seq<Buf>, view: Disk, b: nat, x: Buf)
    requires Coherent(disk, buf, view) && b < |buf|
    requires x.dev == buf[b].dev && x.blockno == buf[b].blockno && x.valid == buf[b].valid && x.data == buf[b].data
    requires BufferOk(x, disk, view)
    ensures Coherent(disk, buf[b := x], view)
  {
    var buf' := buf[b := x];
    StillCached(buf, buf');
  }

  /** Giving a buffer new contents makes them what readers of its block see; writing the
      disk at the same time is the transfer of a dirty buffer. */
  lemma Refilled(disk: Disk, disk': Disk, buf: seq<Buf>, view: Disk, b: nat, x: Buf)
    requires Coherent(disk, buf, view) && b < |buf|
    requires x.dev == buf[b].dev == ROOTDEV && x.blockno == buf[b].blockno < |disk| && x.valid
    requires x.dirty ==> x.valid
    requires x.locked && x.refcnt > 0
    requires disk' == disk || disk' == disk[x.blockno := x.data]
    ensures Coherent(disk', buf[b := x], view[x.blockno := x.data])
  {
    var buf', view' := buf[b := x], view[x.blockno := x.data];
    forall i | 0 <= i < |buf'| && i != b
      ensures BufferOk(buf'[i], disk', view')
    {
      assert !buf[i].Holds(buf[b].dev, buf[b].blockno);
    }
    StillCached(buf, buf');
    assert buf'[b].valid;
  }

  class Bcache {
    var disk: Disk
    var buf: seq<Buf>
    var next: seq<nat>
    var prev: seq<nat>
    ghost var order: seq<nat>
    ghost var stamp: seq<nat>
    ghost var clock: nat
    ghost var view: Disk
    ghost var writes: seq<Disk>

    ghost predicate Valid()
      reads this
    {
      && Coherent(disk, buf, view)
      && ListOk()
    }

    /** The list is one cycle through the sentinel and every buffer, ordered by last release. */
    ghost predicate ListOk()
      reads this
    {
      && |next| == |buf| + 1
      && Ring(next, prev, |buf|, order)
      && (forall b :: 0 <= b < |buf| ==> b in order)
      && |stamp| == |buf|
      && ByRelease(order, stamp)
      && (forall b :: 0 <= b < |stamp| ==> stamp[b] < clock)
    }

    /** binit: every buffer unreferenced and empty, pushed in front one by one. */
    constructor (disk: Disk, nbuf: nat)
      ensures Valid()
      ensures this.disk == disk && view == disk && writes == []
      ensures |buf| == nbuf && forall i :: 0 <= i < nbuf ==> buf[i] == Buf(0, 0, false, false, 0, false, Zeros())
    {
      this.disk, view, writes := disk, disk, [];
      buf := seq(nbuf, i => Buf(0, 0, false, false, 0, false, Zeros()));
      var nx: seq<nat>, pv: seq<nat> := seq(nbuf + 1, i => nbuf), seq(nbuf + 1, i => nbuf);
      ghost var ord: seq<nat> := [];
      var b := 0;
      while b < nbuf
        invariant 0 <= b <= nbuf && |nx| == nbuf + 1
        invariant Ring(nx, pv, nbuf, ord)
        invariant |ord| == b && forall i :: 0 <= i < b ==> ord[i] == b - 1 - i
      {
        PushFront(nx, pv, nbuf, ord, b);
        var first := nx[nbuf];
        nx := nx[b := first];
        pv := pv[b := nbuf];
        pv := pv[first := b];
        nx := nx[nbuf := b];
        ord := [b] + ord;
        b := b + 1;
      }
      next, prev, order := nx, pv, ord;
      stamp, clock := seq(nbuf, i => i), nbuf;
      forall i | 0 <= i < nbuf
        ensures i in ord
      {
        assert ord[nbuf - 1 - i] == i;
      }
    }

    /** bget's first scan, from the most recently used end. */
    method FindCached(dev: nat, blockno: nat) returns (r: Option<nat>)
      requires ListOk()
      ensures r.Some? <==> Present(buf, dev, blockno)
      ensures r.Some? ==> r.value < |buf| && buf[r.value].Holds(dev, blockno)
    {
      var head := |buf|;
      ghost var cycle := Cycle(head, order);
      var b := next[head];
      ghost var k := 0;
      assert Linked(next, prev, cycle[0], cycle[1]);
      while b != head
        invariant 0 <= k <= |order| && b == cycle[k + 1]
        invariant forall j :: 0 <= j < k ==> !buf[order[j]].Holds(dev, blockno)
        decreases |order| - k
      {
        assert b == order[k];
        if buf[b].Holds(dev, blockno) {
          return Some(b);
        }
        assert Linked(next, prev, cycle[k + 1], cycle[k + 2]);
        b, k := next[b], k + 1;
      }
      AbsentAfterScan(buf, order, k, dev, blockno);
      return None;
    }

    /** bget's second scan, from the least recently used end. */
    method FindIdle() returns (r: Option<nat>)
      requires ListOk()
      ensures r.Some? <==> SomeIdle(buf)
      ensures r.Some? ==> LeastRecent(buf, stamp, r.value)
    {
      var head := |buf|;
      ghost var cycle := Cycle(head, order);
      assert Linked(next, prev, cycle[|order|], cycle[|order| + 1]);
      var b := prev[head];
      ghost var k := |order|;
      while b != head
        invariant 0 <= k <= |order| && b == cycle[k]
        invariant forall j :: k <= j < |order| ==> !buf[order[j]].Idle()
        decreases k
      {
        assert b == order[k - 1];
        if buf[b].refcnt == 0 && !buf[b].dirty {
          OldestFound(buf, stamp, order, k - 1);
          return Some(b);
        }
        assert Linked(next, prev, cycle[k - 1], cycle[k]);
        b, k := prev[b], k - 1;
      }
      NoneIdle(buf, order, k);
      return None;
    }

    /** A reference to the buffer of a block, recycling one if the block has none.
        None is the panic "bget: no buffers". */
    method Bget(dev: nat, blockno: nat) returns (r: Option<nat>)
      requires Valid()
      modifies this`buf
      ensures Valid()
      ensures r.Some? <==> Present(old(buf), dev, blockno) || SomeIdle(old(buf))
      ensures r.Some? ==> r.value < |old(buf)| && buf == old(buf)[r.value :=
                if Present(old(buf), dev, blockno) then Referenced(old(buf)[r.value])
                else Emptied(old(buf)[r.value], dev, blockno)]
      ensures r.Some? && !Present(old(buf), dev, blockno) ==> LeastRecent(old(buf), stamp, r.value)
      ensures r.Some? && Present(old(buf), dev, blockno) ==> old(buf)[r.value].Holds(dev, blockno)
      ensures r.None? ==> buf == old(buf)
      ensures DirtyBlocks(buf) == DirtyBlocks(old(buf))
    {
      r := FindCached(dev, blockno);
      if r.Some? {
        var b := r.value;
        Retagged(disk, buf, view, b, Referenced(buf[b]));
        SameDirty(buf, buf[b := Referenced(buf[b])]);
        buf := buf[b := Referenced(buf[b])];
        return;
      }
      r := FindIdle();
      if r.Some? {
        var b := r.value;
        Recycled(disk, buf, view, b, dev, blockno);
        buf := buf[b := Emptied(buf[b], dev, blockno)];
      }
    }

    /** acquiresleep on the buffer, once its lock is free. */
    method AcquireBuffer(b: nat)
      requires Valid() && b < |buf| && buf[b].refcnt > 0 && !buf[b].locked
      modifies this`buf
      ensures Valid() && buf == old(buf)[b := old(buf[b]).(locked := true)]
      ensures DirtyBlocks(buf) == DirtyBlocks(old(buf))
    {
      Retagged(disk, buf, view, b, buf[b].(locked := true));
      SameDirty(buf, buf[b := buf[b].(locked := true)]);
      buf := buf[b := buf[b].(locked := true)];
    }

    /** Synchronise a locked buffer with the disk; false is one of its panics. */
    method Iderw(b: nat) returns (ok: bool)
      requires Valid() && b < |buf|
      modifies this`buf, this`disk, this`writes
      ensures Valid()
      ensures var o := old(buf[b]);
              ok <==> o.locked && !(o.valid && !o.dirty) && o.dev == ROOTDEV && o.blockno < |old(disk)|
      ensures !ok ==> buf == old(buf) && disk == old(disk) && writes == old(writes)
      ensures ok && old(buf[b]).dirty ==>
                && disk == old(disk)[old(buf[b]).blockno := old(buf[b]).data]
                && buf == old(buf)[b := old(buf[b]).(dirty := false)]
                && writes == old(writes) + [disk]
      ensures ok && !old(buf[b]).dirty ==>
                && buf == old(buf)[b := old(buf[b]).(valid := true, data := old(disk)[old(buf[b]).blockno])]
                && disk == old(disk) && writes == old(writes)
    {
      if !buf[b].locked || (buf[b].valid && !buf[b].dirty) || buf[b].dev != ROOTDEV || buf[b].blockno >= |disk| {
        return false;
      }
      var x := buf[b];
      if x.dirty {
        Refilled(disk, disk[x.blockno := x.data], buf, view, b, x.(dirty := false));
        assert view[x.blockno := x.data] == view;
        buf := buf[b := x.(dirty := false)];
        disk := disk[x.blockno := x.data];
        writes := writes + [disk];
      } else {
        Uncached(disk, buf, view, b);
        Refilled(disk, disk, buf, view, b, x.(valid := true, data := disk[x.blockno]));
        assert view[x.blockno := disk[x.blockno]] == view;
        buf := buf[b := x.(valid := true, data := disk[x.blockno])];
      }
      return true;
    }

    /** A locked buffer with the contents of a block; None is a panic. */
    method Bread(dev: nat, blockno: nat) returns (r: Option<nat>)
      requires Valid()
      requires forall i :: 0 <= i < |buf| && buf[i].Holds(dev, blockno) ==> !buf[i].locked
      modifies this`buf, this`disk, this`writes
      ensures Valid() && disk == old(disk) && writes == old(writes)
      ensures r.Some? <==>
                && dev == ROOTDEV && blockno < |disk|
                && (Present(old(buf), dev, blockno) || SomeIdle(old(buf)))
      ensures r.Some? ==>
                r.value < |old(buf)| && buf == old(buf)[r.value := Held(old(buf)[r.value], blockno, view[blockno])]
      ensures r.Some? ==> Settled(buf[r.value], disk)
      ensures r.Some? && Present(old(buf), dev, blockno) ==> old(buf)[r.value].Holds(dev, blockno)
      ensures r.Some? && !Present(old(buf), dev, blockno) ==> LeastRecent(old(buf), stamp, r.value)
      ensures DirtyBlocks(buf) == DirtyBlocks(old(buf))
    {
      hide DirtyBlocks, SomeIdle, Bcache.ListOk;
      r := Bget(dev, blockno);
      if r.None? {
        return;
      }
      var b := r.value;
      assert !old(buf)[b].locked;
      AcquireBuffer(b);
      if !buf[b].valid {
        ghost var was := buf;
        var ok := Iderw(b);
        if !ok {
          SameDirty(old(buf), buf);
          return None;
        }
        SameDirty(was, buf);
      }
    }

    /** The holder of a buffer changes its bytes in memory. */
    method Store(b: nat, data: Block)
      requires Valid() && b < |buf| && buf[b].locked && buf[b].valid
      modifies this`buf, this`view
      ensures Valid()
      ensures buf == old(buf)[b := old(buf)[b].(data := data)]
      ensures view == old(view)[old(buf)[b].blockno := data]
      ensures DirtyBlocks(buf) == DirtyBlocks(old(buf))
    {
      Refilled(disk, disk, buf, view, b, buf[b].(data := data));
      SameDirty(buf, buf[b := buf[b].(data := data)]);
      view := view[buf[b].blockno := data];
      buf := buf[b := buf[b].(data := data)];
    }

    /** `b->flags |= B_DIRTY`. */
    method MarkDirty(b: nat)
      requires Valid() && b < |buf| && buf[b].valid
      modifies this`buf
      ensures Valid()
      ensures buf == old(buf)[b := old(buf)[b].(dirty := true)]
      ensures DirtyBlocks(buf) == DirtyBlocks(old(buf)) + {old(buf)[b].blockno}
    {
      Retagged(disk, buf, view, b, buf[b].(dirty := true));
      DirtyAdded(buf, b);
      buf := buf[b := buf[b].(dirty := true)];
    }

    /** Write a locked buffer to its block; false is a panic. */
    method Bwrite(b: nat) returns (ok: bool)
      requires Valid() && b < |buf| && buf[b].valid
      modifies this`buf, this`disk, this`writes
      ensures Valid()
      ensures ok <==> old(buf)[b].locked
      ensures !ok ==> buf == old(buf) && disk == old(disk) && writes == old(writes)
      ensures ok ==> disk == old(disk)[old(buf)[b].blockno := old(buf)[b].data] && writes == old(writes) + [disk]
      ensures ok ==> buf == old(buf)[b := old(buf)[b].(dirty := false)]
      ensures ok ==> DirtyBlocks(buf) == DirtyBlocks(old(buf)) - {old(buf)[b].blockno}
    {
      if !buf[b].locked {
        return false;
      }
      DirtyRemoved(disk, buf, view, b);
      MarkDirty(b);
      ok := Iderw(b);
    }

    /** Unlock a buffer and drop the reference; the last reference moves it to the front. */
    method Brelse(b: nat)
      requires Valid() && b < |buf| && buf[b].locked
      requires Settled(buf[b], disk)
      modifies this`buf, this`next, this`prev, this`order, this`stamp, this`clock
      ensures Valid()
      ensures buf == old(buf)[b := Released(old(buf)[b])]
      ensures DirtyBlocks(buf) == DirtyBlocks(old(buf))
      ensures buf[b].refcnt > 0 ==> order == old(order) && stamp == old(stamp)
      ensures buf[b].refcnt == 0 ==> exists p ::
                && 0 <= p < |old(order)| && old(order)[p] == b
                && order == [b] + Without(old(order), p)
                && stamp == old(stamp)[b := old(clock)]
    {
      Retagged(disk, buf, view, b, Released(buf[b]));
      SameDirty(buf, buf[b := Released(buf[b])]);
      buf := buf[b := Released(buf[b])];
      if buf[b].refcnt == 0 {
        MoveToFront(b);
      }
    }

    method MoveToFront(b: nat)
      requires ListOk() && b < |buf|
      modifies this`next, this`prev, this`order, this`stamp, this`clock
      ensures ListOk()
      ensures exists p ::
                && 0 <= p < |old(order)| && old(order)[p] == b
                && order == [b] + Without(old(order), p)
                && stamp == old(stamp)[b := old(clock)]
    {
      hide ByRelease;
      var head, nx, pv := |buf|, next, prev;
      assert b in order;
      ghost var p :| 0 <= p < |order| && order[p] == b;
      Unlink(nx, pv, head, order, p);
      pv := pv[nx[b] := pv[b]];
      nx := nx[pv[b] := nx[b]];
      PushFront(nx, pv, head, Without(order, p), b);
      var first := nx[head];
      nx := nx[b := first];
      pv := pv[b := head];
      pv := pv[first := b];
      nx := nx[head := b];
      FrontHasAll(order, p);
      FrontIsNewest(order, stamp, clock, p);
      next, prev := nx, pv;
      order, stamp, clock := [b] + Without(order, p), stamp[b := clock], clock + 1;
    }
  }

  lemma FrontHasAll(order: seq<nat>, p: nat)
    requires p < |order|
    ensures forall b :: b in order ==> b in [order[p]] + Without(order, p)
  {
    var order' := [order[p]] + Without(order, p);
    forall b | b in order
      ensures b in order'
    {
      var i :| 0 <= i < |order| && order[i] == b;
      assert order'[if i == p then 0 else if i < p then i + 1 else i] == b;
    }
  }

  lemma FrontIsNewest(order: seq<nat>, stamp: seq<nat>, clock: nat, p: nat)
    requires ByRelease(order, stamp) && Distinct(order) && p < |order|
    requires forall b :: 0 <= b < |stamp| ==> stamp[b] < clock
    ensures ByRelease([order[p]] + Without(order, p), stamp[order[p] := clock])
  {
    var order', stamp' := [order[p]] + Without(order, p), stamp[order[p] := clock];
    forall i | 0 < i < |order'|
      ensures order'[i] == order[if i <= p then i - 1 else i] && stamp'[order'[i]] == stamp[order'[i]] < clock
    {
    }
    hide Distinct;
    forall i, j | 0 <= i < j < |order'|
      ensures stamp'[order'[i]] > stamp'[order'[j]]
    {
    }
  }

  lemma DirtyAdded(buf: seq<Buf>, b: nat)
    requires b < |buf|
    ensures DirtyBlocks(buf[b := buf[b].(dirty := true)]) == DirtyBlocks(buf) + {buf[b].blockno}
  {
    var buf' := buf[b := buf[b].(dirty := true)];
    forall n | n in DirtyBlocks(buf) + {buf[b].blockno}
      ensures n in DirtyBlocks(buf')
    {
      var i :| 0 <= i < |buf| && (buf[i].dirty || i == b) && buf[i].blockno == n;
      assert buf'[i].dirty && buf'[i].blockno == n;
    }
  }

  lemma DirtyRemoved(disk: Disk, buf: seq<Buf>, view: Disk, b: nat)
    requires Coherent(disk, buf, view) && b < |buf| && buf[b].valid
    ensures DirtyBlocks(buf[b := buf[b].(dirty := false)]) == DirtyBlocks(buf) - {buf[b].blockno}
  {
    var buf' := buf[b := buf[b].(dirty := false)];
    forall n | n in DirtyBlocks(buf) - {buf[b].blockno}
      ensures n in DirtyBlocks(buf')
    {
      var i :| 0 <= i < |buf| && buf[i].dirty && buf[i].blockno == n;
      assert buf'[i].dirty && buf'[i].blockno == n;
    }
    forall i | 0 <= i < |buf'| && buf'[i].dirty
      ensures buf'[i].blockno != buf[b].blockno
    {
      assert !buf[i].Holds(buf[b].dev, buf[b].blockno);
    }
  }

  lemma AbsentAfterScan(buf: seq<Buf>, order: seq<nat>, k: nat, dev: nat, blockno: nat)
    requires k <= |order| && Cycle(|buf|, order)[k + 1] == |buf|
    requires |buf| !in order && (forall i :: 0 <= i < |buf| ==> i in order)
    requires forall j :: 0 <= j < k ==> order[j] < |buf| && !buf[order[j]].Holds(dev, blockno)
    ensures !Present(buf, dev, blockno)
  {
    assert k == |order|;
    forall i | 0 <= i < |buf|
      ensures !buf[i].Holds(dev, blockno)
    {
      assert i in order;
    }
  }

  lemma NoneIdle(buf: seq<Buf>, order: seq<nat>, k: nat)
    requires k <= |order| && Cycle(|buf|, order)[k] == |buf|
    requires |buf| !in order && (forall i :: 0 <= i < |buf| ==> i in order)
    requires forall j :: k <= j < |order| ==> order[j] < |buf| && !buf[order[j]].Idle()
    ensures !SomeIdle(buf)
  {
    assert k == 0;
    forall i | 0 <= i < |buf|
      ensures !buf[i].Idle()
    {
      assert i in order;
    }
  }

  lemma OldestFound(buf: seq<Buf>, stamp: seq<nat>, order: seq<nat>, k: nat)
    requires |stamp| == |buf| && ByRelease(order, stamp) && k < |order|
    requires forall i :: 0 <= i < |buf| ==> i in order
    requires buf[order[k]].Idle() && forall j :: k < j < |order| ==> !buf[order[j]].Idle()
    ensures LeastRecent(buf, stamp, order[k])
  {
    forall i | 0 <= i < |buf| && buf[i].Idle()
      ensures stamp[order[k]] <= stamp[i]
    {
      assert i in order;
      var j :| 0 <= j < |order| && order[j] == i;
      assert j <= k;
    }
  }

  /** A buffer that is not valid is not what readers of its block see. */
  lemma Uncached(disk: Disk, buf: seq<Buf>, view: Disk, b: nat)
    requires Coherent(disk, buf, view) && b < |buf|
    requires buf[b].dev == ROOTDEV && buf[b].blockno < |disk| && !buf[b].valid
    ensures view[buf[b].blockno] == disk[buf[b].blockno]
  {
    assert forall i :: 0 <= i < |buf| && i != b ==> !buf[i].Holds(buf[b].dev, buf[b].blockno);
    assert !Cached(buf, buf[b].blockno);
  }
}
