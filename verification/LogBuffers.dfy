/** The buffers that the log uses for a copy, beside the buffers that readers hold meanwhile. */
module LogBuffers {
  import opened Blocks
  import opened BufferCache
  import opened CrashRecovery
  import opened Counting

  /** Nobody holds or waits for a buffer. */
  ghost predicate Quiet(buf: seq<Buf>) {
    forall i :: 0 <= i < |buf| ==> buf[i].refcnt == 0 && !buf[i].locked
  }

  /** What the log may find while it commits: nobody refers to a log block, and whoever holds
      another buffer only reads it. */
  ghost predicate OnlyRead(buf: seq<Buf>, disk: Disk, l: Layout) {
    && (forall i :: 0 <= i < |buf| && buf[i].dev == ROOTDEV && l.Within(buf[i].blockno) ==> buf[i].refcnt == 0)
    && (forall i :: 0 <= i < |buf| && buf[i].locked ==> Settled(buf[i], disk))
  }

  lemma QuietIsRead(buf: seq<Buf>, disk: Disk, l: Layout)
    requires Quiet(buf)
    ensures OnlyRead(buf, disk, l)
  {
  }

  ghost predicate Unlocked(buf: seq<Buf>, x: nat) {
    forall i :: 0 <= i < |buf| && buf[i].Holds(ROOTDEV, x) ==> !buf[i].locked
  }

  /** No log block is pinned. */
  ghost predicate LogClean(buf: seq<Buf>, l: Layout) {
    forall x :: x in DirtyBlocks(buf) ==> !l.Within(x)
  }

  /** bread can use buffer i for block x. */
  ghost predicate Serves(buf: seq<Buf>, i: nat, x: nat) {
    i < |buf| && (buf[i].Holds(ROOTDEV, x) || (!Present(buf, ROOTDEV, x) && buf[i].Idle()))
  }

  /** There are buffers for two blocks at once. */
  ghost predicate TwoBuffers(buf: seq<Buf>, x: nat, y: nat) {
    exists i: nat, j: nat :: i != j && Serves(buf, i, x) && Serves(buf, j, y)
  }

  lemma SwappedToo(buf: seq<Buf>, x: nat, y: nat)
    ensures TwoBuffers(buf, x, y) <==> TwoBuffers(buf, y, x)
  {
  }

  lemma FirstServed(buf: seq<Buf>, x: nat, y: nat)
    requires TwoBuffers(buf, x, y)
    ensures Present(buf, ROOTDEV, x) || SomeIdle(buf)
  {
  }

  /** Whichever buffer bread has taken for x, there is one for y if there were two. */
  lemma SecondServed(buf: seq<Buf>, x: nat, y: nat, r: nat, held: Buf)
    requires UniqueBlocks(buf) && x != y && r < |buf| && held.Holds(ROOTDEV, x) && held.refcnt > 0
    requires if Present(buf, ROOTDEV, x) then buf[r].Holds(ROOTDEV, x) else buf[r].Idle()
    ensures TwoBuffers(buf, x, y) <==> Present(buf[r := held], ROOTDEV, y) || SomeIdle(buf[r := held])
  {
    var after := buf[r := held];
    if TwoBuffers(buf, x, y) {
      var i: nat, j: nat :| i != j && Serves(buf, i, x) && Serves(buf, j, y);
      if j != r {
        assert after[j] == buf[j];
      } else {
        assert after[i] == buf[i];
      }
    }
    if Present(after, ROOTDEV, y) {
      var j :| 0 <= j < |after| && after[j].Holds(ROOTDEV, y);
      assert after[j] == buf[j] && Serves(buf, j, y) && Serves(buf, r, x);
    } else if SomeIdle(after) {
      var j :| 0 <= j < |after| && after[j].Idle();
      assert after[j] == buf[j] && j != r;
      if Present(buf, ROOTDEV, y) {
        var k :| 0 <= k < |buf| && buf[k].Holds(ROOTDEV, y);
        assert !after[k].Holds(ROOTDEV, y);
        assert Serves(buf, j, x) && Serves(buf, k, y);
      } else {
        assert Serves(buf, r, x) && Serves(buf, j, y);
      }
    }
  }

  /** A log block that is cached is in an idle buffer, and a pinned block is cached: an idle
      buffer is all that a copy between the two needs. */
  lemma IdleIsEnough(disk: Disk, buf: seq<Buf>, view: Disk, l: Layout, slot: nat, home: nat)
    requires Coherent(disk, buf, view) && OnlyRead(buf, disk, l) && LogClean(buf, l)
    requires l.Within(slot) && home in DirtyBlocks(buf)
    ensures TwoBuffers(buf, slot, home) <==> SomeIdle(buf)
  {
    var j :| 0 <= j < |buf| && buf[j].dirty && buf[j].blockno == home;
    assert Serves(buf, j, home);
    if Present(buf, ROOTDEV, slot) {
      var i :| 0 <= i < |buf| && buf[i].Holds(ROOTDEV, slot);
      CachedLogIdle(buf, disk, l, i);
      assert Serves(buf, i, slot);
    } else if SomeIdle(buf) {
      var i :| 0 <= i < |buf| && buf[i].Idle();
      assert Serves(buf, i, slot);
    }
  }

  lemma CachedLogIdle(buf: seq<Buf>, disk: Disk, l: Layout, i: nat)
    requires OnlyRead(buf, disk, l) && LogClean(buf, l)
    requires i < |buf| && buf[i].dev == ROOTDEV && l.Within(buf[i].blockno)
    ensures buf[i].Idle() && SomeIdle(buf)
  {
    assert buf[i].dirty ==> buf[i].blockno in DirtyBlocks(buf);
  }

  lemma LogBlockIdle(buf: seq<Buf>, disk: Disk, l: Layout, x: nat)
    requires OnlyRead(buf, disk, l) && LogClean(buf, l) && l.Within(x)
    ensures Present(buf, ROOTDEV, x) ==> SomeIdle(buf)
  {
    if Present(buf, ROOTDEV, x) {
      var i :| 0 <= i < |buf| && buf[i].Holds(ROOTDEV, x);
      CachedLogIdle(buf, disk, l, i);
    }
  }

  lemma LogUnlocked(disk: Disk, buf: seq<Buf>, view: Disk, l: Layout, x: nat)
    requires Coherent(disk, buf, view) && OnlyRead(buf, disk, l) && l.Within(x)
    ensures Unlocked(buf, x)
  {
  }

  lemma QuietUnlocked(buf: seq<Buf>, x: nat)
    ensures Quiet(buf) ==> Unlocked(buf, x)
  {
  }

  /** Whoever holds a buffer refers to it, and it is not the buffer of a block that is free. */
  lemma LockedElsewhere(disk: Disk, buf: seq<Buf>, view: Disk, l: Layout, x: nat)
    requires Coherent(disk, buf, view) && OnlyRead(buf, disk, l) && Unlocked(buf, x)
    ensures forall i :: 0 <= i < |buf| && buf[i].locked ==> buf[i].refcnt > 0 && buf[i].blockno != x
  {
  }

  /** The reader of block x, which holds buffer b, gives it back. */
  lemma ReaderEnds(disk: Disk, buf: seq<Buf>, view: Disk, l: Layout, b: nat, x: nat)
    requires Coherent(disk, buf, view) && OnlyRead(buf, disk, l)
    requires b < |buf| && buf[b].Holds(ROOTDEV, x) && buf[b].locked
    ensures buf[b].refcnt > 0 && Settled(buf[b], disk)
    ensures var after := buf[b := Released(buf[b])];
            && OnlyRead(after, disk, l) && Unlocked(after, x)
            && (x in DirtyBlocks(buf) ==> (SomeIdle(after) <==> SomeIdle(buf)))
  {
    assert BufferOk(buf[b], disk, view);
    var after := buf[b := Released(buf[b])];
    if x in DirtyBlocks(buf) {
      var j :| 0 <= j < |buf| && buf[j].dirty && buf[j].blockno == x;
      assert BufferOk(buf[j], disk, view) && buf[j].Holds(ROOTDEV, x) && j == b;
      if SomeIdle(after) {
        var i :| 0 <= i < |after| && after[i].Idle();
        assert buf[i].Idle();
      }
      if SomeIdle(buf) {
        var i :| 0 <= i < |buf| && buf[i].Idle();
        assert after[i].Idle();
      }
    }
  }

  /** At boot nothing is pinned, and two buffers are enough. */
  lemma BootIsEnough(buf: seq<Buf>, x: nat, y: nat)
    requires Quiet(buf) && DirtyBlocks(buf) == {} && |buf| >= 2 && UniqueBlocks(buf) && x != y
    ensures TwoBuffers(buf, x, y)
  {
    NothingDirty(buf);
    var i := if Present(buf, ROOTDEV, x) then var i :| 0 <= i < |buf| && buf[i].Holds(ROOTDEV, x); i
             else if Present(buf, ROOTDEV, y) && buf[0].Holds(ROOTDEV, y) then 1 else 0;
    var j := if Present(buf, ROOTDEV, y) then var j :| 0 <= j < |buf| && buf[j].Holds(ROOTDEV, y); j
             else if i == 0 then 1 else 0;
    assert Serves(buf, i, x) && Serves(buf, j, y);
  }

  lemma NothingDirty(buf: seq<Buf>)
    requires DirtyBlocks(buf) == {}
    ensures forall i :: 0 <= i < |buf| ==> !buf[i].dirty
  {
    forall i | 0 <= i < |buf|
      ensures !buf[i].dirty
    {
      assert buf[i].blockno !in DirtyBlocks(buf);
    }
  }

  lemma AllIdle(buf: seq<Buf>)
    requires Quiet(buf) && DirtyBlocks(buf) == {} && |buf| > 0
    ensures SomeIdle(buf)
  {
    NothingDirty(buf);
    assert buf[0].Idle();
  }

  /** Buffer y is buffer x taken by a bread. */
  predicate TakenFrom(x: Buf, y: Buf) {
    && y.dev == ROOTDEV && y.locked && !x.locked && y.refcnt == x.refcnt + 1 && y.dirty == x.dirty
    && (x.Holds(ROOTDEV, y.blockno) || x.Idle())
  }

  /** The caller has taken the buffers a and b, and the others are as they were. */
  ghost predicate HeldOnly(was: seq<Buf>, buf: seq<Buf>, disk: Disk, a: nat, b: nat) {
    && |buf| == |was| && a < |buf| && b < |buf| && a != b
    && Settled(buf[a], disk) && Settled(buf[b], disk)
    && TakenFrom(was[a], buf[a]) && TakenFrom(was[b], buf[b])
    && (forall i :: 0 <= i < |buf| && i != a && i != b ==> buf[i] == was[i])
  }

  lemma BothHeld(was: seq<Buf>, mid: seq<Buf>, buf: seq<Buf>, disk: Disk, a: nat, b: nat)
    requires |was| == |mid| == |buf| && a < |was| && b < |was|
    requires mid == was[a := mid[a]] && buf == mid[b := buf[b]] && buf[b].blockno != mid[a].blockno
    requires TakenFrom(was[a], mid[a]) && TakenFrom(mid[b], buf[b])
    requires Settled(mid[a], disk) && Settled(buf[b], disk)
    ensures HeldOnly(was, buf, disk, a, b)
  {
  }

  lemma HeldSwapped(was: seq<Buf>, buf: seq<Buf>, disk: Disk, a: nat, b: nat)
    ensures HeldOnly(was, buf, disk, a, b) ==> HeldOnly(was, buf, disk, b, a)
  {
  }

  function Written(b: Buf, data: Block): Buf {
    b.(data := data, dirty := false)
  }

  /** One buffer as its users find it again: as often referenced, locked if and only if it was,
      holding the same block if anyone refers to it, and not newly pinned. */
  predicate SameUse(x: Buf, y: Buf) {
    && y.refcnt == x.refcnt && y.locked == x.locked && (y.dirty ==> x.dirty)
    && (x.refcnt > 0 ==> y.Holds(x.dev, x.blockno)) && (x.locked ==> y == x)
  }

  ghost predicate Returned(was: seq<Buf>, buf: seq<Buf>) {
    |buf| == |was| && forall i :: 0 <= i < |buf| ==> SameUse(was[i], buf[i])
  }

  lemma ReturnedSize(was: seq<Buf>, buf: seq<Buf>)
    requires Returned(was, buf)
    ensures |buf| == |was|
  {
  }

  lemma ReturnedTaken(x: Buf, y: Buf, z: Buf)
    requires TakenFrom(x, y) && z.refcnt == y.refcnt - 1 && !z.locked && (z.dirty ==> y.dirty)
    requires z.Holds(y.dev, y.blockno)
    ensures SameUse(x, z)
  {
  }

  lemma BothReleased(was: seq<Buf>, held: seq<Buf>, disk: Disk, t: nat, f: nat, data: Block, buf: seq<Buf>)
    requires HeldOnly(was, held, disk, t, f)
    requires (forall i :: 0 <= i < |was| && was[i].locked ==> was[i].refcnt > 0)
    requires buf == held[t := Written(held[t], data)][f := Released(held[f])][t := Released(Written(held[t], data))]
    ensures Returned(was, buf)
  {
    ReturnedTaken(was[t], held[t], buf[t]);
    ReturnedTaken(was[f], held[f], buf[f]);
  }

  /** Writing block x, which nobody holds, leaves readers with what they have. */
  lemma StillRead(was: seq<Buf>, disk: Disk, buf: seq<Buf>, x: nat, data: Block, l: Layout)
    requires OnlyRead(was, disk, l) && Returned(was, buf) && x < |disk|
    requires forall i :: 0 <= i < |was| && was[i].locked ==> was[i].blockno != x
    ensures OnlyRead(buf, disk[x := data], l)
  {
    forall i | 0 <= i < |buf| && buf[i].dev == ROOTDEV && l.Within(buf[i].blockno)
      ensures buf[i].refcnt == 0
    {
      assert SameUse(was[i], buf[i]);
    }
    forall i | 0 <= i < |buf| && buf[i].locked
      ensures Settled(buf[i], disk[x := data])
    {
      assert SameUse(was[i], buf[i]);
    }
  }

  lemma StillQuiet(was: seq<Buf>, buf: seq<Buf>)
    requires Quiet(was) && Returned(was, buf)
    ensures Quiet(buf)
  {
    forall i | 0 <= i < |buf|
      ensures buf[i].refcnt == 0 && !buf[i].locked
    {
      assert SameUse(was[i], buf[i]);
    }
  }

  /** A block that is not pinned has its disk contents, as long as it is only read. */
  lemma CleanIsVisible(disk: Disk, buf: seq<Buf>, view: Disk, l: Layout, x: nat)
    requires Coherent(disk, buf, view) && OnlyRead(buf, disk, l) && x < |disk| && x !in DirtyBlocks(buf)
    ensures view[x] == disk[x]
  {
    if Cached(buf, x) {
      var i :| 0 <= i < |buf| && buf[i].valid && buf[i].blockno == x;
      assert !buf[i].dirty;
    }
  }

  /** The clean buffers that somebody refers to. */
  ghost function CleanInUse(buf: seq<Buf>): set<nat> {
    set i: nat | i < |buf| && !buf[i].dirty && buf[i].refcnt > 0
  }

  ghost function Pinned(buf: seq<Buf>): set<nat> {
    set i: nat | i < |buf| && buf[i].dirty
  }

  /** Every pinned buffer has a block of its own. */
  lemma PinnedSize(disk: Disk, buf: seq<Buf>, view: Disk)
    requires Coherent(disk, buf, view)
    ensures |Pinned(buf)| == |DirtyBlocks(buf)|
  {
    forall i, j | i in Pinned(buf) && j in Pinned(buf) && i != j
      ensures buf[i].blockno != buf[j].blockno
    {
      assert BufferOk(buf[i], disk, view) && BufferOk(buf[j], disk, view);
      assert !buf[j].Holds(buf[i].dev, buf[i].blockno);
    }
    var numbers := Numbers(buf);
    forall x | x in DirtyBlocks(buf)
      ensures exists i :: i in Pinned(buf) && numbers[i] == x
    {
      var i: nat :| i < |buf| && buf[i].dirty && buf[i].blockno == x;
      assert i in Pinned(buf) && numbers[i] == x;
    }
    OneToOne(Pinned(buf), DirtyBlocks(buf), numbers);
  }

  ghost function Numbers(buf: seq<Buf>): (s: seq<nat>)
    ensures |s| == |buf| && forall i :: 0 <= i < |buf| ==> s[i] == buf[i].blockno
  {
    seq(|buf|, i requires 0 <= i < |buf| => buf[i].blockno)
  }

  /** A buffer is idle if and only if pinned buffers and clean buffers in use are not all. */
  lemma IdleByCount(disk: Disk, buf: seq<Buf>, view: Disk)
    requires Coherent(disk, buf, view)
    ensures SomeIdle(buf) <==> |DirtyBlocks(buf)| + |CleanInUse(buf)| < |buf|
  {
    PinnedSize(disk, buf, view);
    var busy := Pinned(buf) + CleanInUse(buf);
    assert |busy| == |Pinned(buf)| + |CleanInUse(buf)| by {
      assert Pinned(buf) !! CleanInUse(buf);
    }
    if SomeIdle(buf) {
      var i :| 0 <= i < |buf| && buf[i].Idle();
      FewerInSubset(busy, Below(|buf|) - {i});
    } else {
      assert forall i :: 0 <= i < |buf| ==> !buf[i].Idle();
      FewerInSubset(Below(|buf|), busy);
      FewerInSubset(busy, Below(|buf|));
    }
  }
}
