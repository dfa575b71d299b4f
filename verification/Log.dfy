/** The redo log with group commit, over the buffer cache. A block copied is one step; between
    two steps of a commit, readers may take and give back any buffers but those of the log. */
module Log {
  import opened Blocks
  import opened Options
  import opened BufferCache
  import opened CrashRecovery
  import opened Counting
  import opened LogBuffers

  /** What a reader does: it takes the buffer of a home block, or gives back one that is held. */
  datatype ReaderStep = Open(x: nat) | Close(b: nat)

  /** What readers do before step k of a commit. */
  function Script(sched: seq<seq<ReaderStep>>, k: nat): seq<ReaderStep> {
    if k < |sched| then sched[k] else []
  }

  class Log {
    const bc: Bcache
    const layout: Layout
    var n: nat
    var block: seq<word>
    var outstanding: int
    var committing: bool
    ghost var logged: map<nat, Block>

    constructor (bc: Bcache, layout: Layout)
      ensures this.bc == bc && this.layout == layout
      ensures n == 0 && |block| == LOGSIZE && outstanding == 0 && !committing && logged == map[]
    {
      this.bc, this.layout := bc, layout;
      n, block, outstanding, committing, logged := 0, seq(LOGSIZE, i => 0), 0, false, map[];
    }

    /** bread two blocks, one after the other; false is a panic. */
    method ReadBoth(first: nat, second: nat) returns (ok: bool, a: nat, b: nat)
      requires bc.Valid() && first < |bc.disk| && second < |bc.disk| && first != second
      requires Unlocked(bc.buf, first) && Unlocked(bc.buf, second)
      modifies bc`buf, bc`disk, bc`writes
      ensures bc.Valid() && bc.disk == old(bc.disk) && bc.writes == old(bc.writes)
      ensures ok <==> TwoBuffers(old(bc.buf), first, second)
      ensures ok ==> HeldOnly(old(bc.buf), bc.buf, bc.disk, a, b)
      ensures ok ==> bc.buf[a].blockno == first && bc.buf[b].blockno == second
      ensures ok ==> DirtyBlocks(bc.buf) == DirtyBlocks(old(bc.buf))
    {
      hide Bcache.ListOk, DirtyBlocks, TwoBuffers;
      a, b := 0, 0;
      if TwoBuffers(bc.buf, first, second) {
        FirstServed(bc.buf, first, second);
      }
      var r := bc.Bread(ROOTDEV, first);
      if r.None? {
        return false, a, b;
      }
      a := r.value;
      ghost var mid := bc.buf;
      SecondServed(old(bc.buf), first, second, a, mid[a]);
      r := bc.Bread(ROOTDEV, second);
      if r.None? {
        return false, a, b;
      }
      b := r.value;
      BothHeld(old(bc.buf), mid, bc.buf, bc.disk, a, b);
      return true, a, b;
    }

    /** Change a held buffer and bwrite it. */
    method WriteOut(b: nat, data: Block)
      requires bc.Valid() && b < |bc.buf| && bc.buf[b].locked && bc.buf[b].valid
      modifies bc`buf, bc`view, bc`disk, bc`writes
      ensures bc.Valid()
      ensures bc.buf == old(bc.buf)[b := Written(old(bc.buf)[b], data)]
      ensures var to := old(bc.buf)[b].blockno;
              && to < |old(bc.disk)| == |old(bc.view)|
              && bc.disk == old(bc.disk)[to := data]
              && bc.view == old(bc.view)[to := data]
              && bc.writes == old(bc.writes) + [bc.disk]
              && DirtyBlocks(bc.buf) == DirtyBlocks(old(bc.buf)) - {to}
    {
      bc.Store(b, data);
      var ok := bc.Bwrite(b);
    }

    /** memmove, bwrite, and brelse both. */
    method Transfer(t: nat, f: nat, ghost was: seq<Buf>)
      requires bc.Valid() && HeldOnly(was, bc.buf, bc.disk, t, f)
      requires forall i :: 0 <= i < |was| && was[i].locked ==> was[i].refcnt > 0
      modifies bc
      ensures bc.Valid() && Returned(was, bc.buf)
      ensures Present(bc.buf, ROOTDEV, old(bc.buf)[t].blockno) && Present(bc.buf, ROOTDEV, old(bc.buf)[f].blockno)
      ensures var to, data := old(bc.buf)[t].blockno, old(bc.buf)[f].data;
              && bc.disk == old(bc.disk)[to := data]
              && bc.view == old(bc.view)[to := data]
              && bc.writes == old(bc.writes) + [bc.disk]
              && DirtyBlocks(bc.buf) == DirtyBlocks(old(bc.buf)) - {to}
    {
      assert !bc.buf[f].Holds(bc.buf[t].dev, bc.buf[t].blockno);
      WriteOut(t, bc.buf[f].data);
      bc.Brelse(f);
      bc.Brelse(t);
      hide Coherent, Bcache.ListOk, DirtyBlocks;
      BothReleased(was, old(bc.buf), old(bc.disk), t, f, old(bc.buf)[f].data, bc.buf);
      assert bc.buf[t].Holds(ROOTDEV, old(bc.buf)[t].blockno) && bc.buf[f].Holds(ROOTDEV, old(bc.buf)[f].blockno);
    }

    /** bread both blocks, memmove, bwrite, brelse both; false is a panic before the write. */
    method CopyBlock(to: nat, from: nat, toFirst: bool) returns (ok: bool)
      requires Steady() && to < |bc.disk| && from < |bc.disk| && to != from
      requires Unlocked(bc.buf, to) && Unlocked(bc.buf, from)
      modifies bc
      ensures bc.Valid() && (ok <==> TwoBuffers(old(bc.buf), to, from))
      ensures !ok ==> bc.disk == old(bc.disk) && bc.writes == old(bc.writes)
      ensures ok ==>
                && Returned(old(bc.buf), bc.buf) && OnlyRead(bc.buf, bc.disk, layout)
                && Present(bc.buf, ROOTDEV, to) && Present(bc.buf, ROOTDEV, from)
                && bc.disk == old(bc.disk)[to := old(bc.view)[from]]
                && bc.view == old(bc.view)[to := old(bc.view)[from]]
                && bc.writes == old(bc.writes) + [bc.disk]
                && DirtyBlocks(bc.buf) == DirtyBlocks(old(bc.buf)) - {to}
    {
      LockedElsewhere(bc.disk, bc.buf, bc.view, layout, to);
      hide Bcache.ListOk, DirtyBlocks, TwoBuffers, OnlyRead, UniqueBlocks, Cached, Returned, Present;
      var t, f;
      if toFirst {
        ok, t, f := ReadBoth(to, from);
      } else {
        ok, f, t := ReadBoth(from, to);
      }
      SwappedToo(old(bc.buf), to, from);
      if !ok {
        return;
      }
      assert bc.buf[f].data == bc.view[from];
      HeldSwapped(old(bc.buf), bc.buf, bc.disk, f, t);
      Transfer(t, f, old(bc.buf));
      StillRead(old(bc.buf), old(bc.disk), bc.buf, to, old(bc.view)[from], layout);
    }

    /** The log fits on the disk, and the in-memory header in its block. */
    ghost predicate Shape()
      reads this, bc
    {
      && bc.Valid() && |bc.view| == |bc.disk|
      && 0 < layout.size && layout.start + layout.size <= |bc.disk| <= 0x8000_0000
      && |block| == LOGSIZE && n <= LOGSIZE && n < layout.size
      && (forall i :: 0 <= i < n ==> block[i] < |bc.disk| && !layout.Within(block[i]))
    }

    /** Nobody but the log uses log blocks, and other blocks are only read. */
    ghost predicate Steady()
      reads this, bc
    {
      Shape() && OnlyRead(bc.buf, bc.disk, layout) && LogClean(bc.buf, layout)
    }

    ghost predicate DistinctBlocks()
      requires n <= |block|
      reads this
    {
      forall i, j :: 0 <= i < j < n ==> block[i] != block[j]
    }

    ghost function Homes(): set<nat>
      requires n <= |block|
      reads this
    {
      BlockSet(block, 0, n)
    }

    /** Nothing has happened but what readers do. */
    twostate predicate OnlyReaders()
      reads this, bc
    {
      && Steady()
      && bc.disk == old(bc.disk) && bc.view == old(bc.view) && bc.writes == old(bc.writes)
      && |bc.buf| == |old(bc.buf)| && DirtyBlocks(bc.buf) == DirtyBlocks(old(bc.buf))
    }

    /** One step of a reader; false is its panic for want of a buffer. A reader of a block whose
        buffer is locked waits. */
    method Reader(a: ReaderStep) returns (ok: bool)
      requires Steady()
      modifies bc
      ensures bc.disk == old(bc.disk) && bc.view == old(bc.view) && bc.writes == old(bc.writes)
      ensures ok ==> OnlyReaders()
    {
      hide Bcache.ListOk, DirtyBlocks;
      ok := true;
      match a {
        case Open(x) =>
          if x < |bc.disk| && !layout.Within(x) && !Locked(x) {
            var r := bc.Bread(ROOTDEV, x);
            ok := r.Some?;
          }
        case Close(b) =>
          if b < |bc.buf| && bc.buf[b].locked {
            bc.Brelse(b);
          }
      }
    }

    predicate Locked(x: nat)
      reads bc
    {
      exists i :: 0 <= i < |bc.buf| && bc.buf[i].Holds(ROOTDEV, x) && bc.buf[i].locked
    }

    /** What readers do before a step, and then, if the block of the step is held, its reader
        comes to an end: bread waits for that. False is the panic of a reader. */
    method Readers(script: seq<ReaderStep>, x: nat) returns (ok: bool)
      requires Steady()
      modifies bc
      ensures bc.disk == old(bc.disk) && bc.view == old(bc.view) && bc.writes == old(bc.writes)
      ensures ok ==> OnlyReaders() && Unlocked(bc.buf, x)
      ensures script == [] ==> ok
      ensures script == [] && x in DirtyBlocks(old(bc.buf)) ==> (SomeIdle(bc.buf) <==> SomeIdle(old(bc.buf)))
      ensures script == [] && Unlocked(old(bc.buf), x) ==> bc.buf == old(bc.buf)
    {
      hide Shape, OnlyRead, DirtyBlocks;
      var k := 0;
      ok := true;
      while k < |script|
        invariant 0 <= k <= |script| && OnlyReaders() && (k == 0 ==> bc.buf == old(bc.buf))
      {
        ok := Reader(script[k]);
        if !ok {
          return;
        }
        k := k + 1;
      }
      WaitFor(x);
    }

    /** The reader of a block comes to an end, if it has one. */
    method WaitFor(x: nat)
      requires Steady()
      modifies bc
      ensures OnlyReaders() && Unlocked(bc.buf, x)
      ensures x in DirtyBlocks(old(bc.buf)) ==> (SomeIdle(bc.buf) <==> SomeIdle(old(bc.buf)))
      ensures Unlocked(old(bc.buf), x) ==> bc.buf == old(bc.buf)
    {
      var b := 0;
      while b < |bc.buf| && !(bc.buf[b].Holds(ROOTDEV, x) && bc.buf[b].locked)
        invariant 0 <= b <= |bc.buf| && bc.buf == old(bc.buf)
        invariant forall i :: 0 <= i < b ==> !(bc.buf[i].Holds(ROOTDEV, x) && bc.buf[i].locked)
      {
        b := b + 1;
      }
      if b < |bc.buf| {
        hide Bcache.ListOk, DirtyBlocks, SomeIdle;
        ReaderEnds(bc.disk, bc.buf, bc.view, layout, b, x);
        bc.Brelse(b);
      }
    }

    /** The header block for the in-memory header, over the old one. */
    method BuildHead(b: Block) returns (h: Block)
      requires |block| == LOGSIZE && n <= LOGSIZE
      ensures h == Headed(b, block[..n], n)
    {
      h := PutWord(b, 0, n);
      var i := 0;
      while i < n
        invariant 0 <= i <= n && h == Headed(b, block[..n], i)
      {
        h := PutWord(h, 1 + i, block[i]);
        i := i + 1;
      }
    }

    /** Write the in-memory header to disk; false is a panic. */
    method WriteHead() returns (ok: bool)
      requires Steady()
      modifies bc
      ensures Shape() && (ok <==> SomeIdle(old(bc.buf)))
      ensures !ok ==> bc.disk == old(bc.disk) && bc.writes == old(bc.writes)
      ensures ok ==>
                && Steady() && SomeIdle(bc.buf) && Returned(old(bc.buf), bc.buf)
                && bc.disk == old(bc.disk)[layout.start := Headed(old(bc.disk)[layout.start], block[..n], n)]
                && SameHome(bc.view, old(bc.view), layout)
                && bc.writes == old(bc.writes) + [bc.disk]
                && DirtyBlocks(bc.buf) == DirtyBlocks(old(bc.buf))
    {
      var start := layout.start;
      hide Coherent, Bcache.ListOk, DirtyBlocks, OnlyRead, Present, SomeIdle, Returned;
      HeadReady();
      var r := bc.Bread(ROOTDEV, start);
      if r.None? {
        return false;
      }
      var h := BuildHead(bc.buf[r.value].data);
      Finish(r.value, h, old(bc.buf));
      StillRead(old(bc.buf), old(bc.disk), bc.buf, start, h, layout);
      LogBlockIdle(bc.buf, bc.disk, layout, start);
      return true;
    }

    lemma HeadReady()
      requires Steady()
      ensures var start := layout.start;
              && layout.Within(start) && Unlocked(bc.buf, start) && bc.view[start] == bc.disk[start]
              && (Present(bc.buf, ROOTDEV, start) ==> SomeIdle(bc.buf))
              && (forall i :: 0 <= i < |bc.buf| && bc.buf[i].Idle() ==> !bc.buf[i].locked)
              && (forall i :: 0 <= i < |bc.buf| && bc.buf[i].locked ==>
                    bc.buf[i].refcnt > 0 && bc.buf[i].blockno != start)
              && DirtyBlocks(bc.buf) - {start} == DirtyBlocks(bc.buf)
    {
      var start := layout.start;
      assert layout.Within(start);
      LogBlockIdle(bc.buf, bc.disk, layout, start);
      LogUnlocked(bc.disk, bc.buf, bc.view, layout, start);
      CleanIsVisible(bc.disk, bc.buf, bc.view, layout, start);
      LockedElsewhere(bc.disk, bc.buf, bc.view, layout, start);
    }

    /** bwrite and brelse the one buffer that has been taken. */
    method Finish(b: nat, h: Block, ghost was: seq<Buf>)
      requires bc.Valid() && b < |was| == |bc.buf|
      requires bc.buf == was[b := bc.buf[b]] && TakenFrom(was[b], bc.buf[b]) && bc.buf[b].valid
      requires forall i :: 0 <= i < |was| && was[i].locked ==> was[i].refcnt > 0
      modifies bc
      ensures bc.Valid() && Returned(was, bc.buf) && Present(bc.buf, ROOTDEV, old(bc.buf)[b].blockno)
      ensures var x := old(bc.buf)[b].blockno;
              && x < |old(bc.disk)| == |old(bc.view)|
              && bc.disk == old(bc.disk)[x := h]
              && bc.view == old(bc.view)[x := h]
              && bc.writes == old(bc.writes) + [bc.disk]
              && DirtyBlocks(bc.buf) == DirtyBlocks(old(bc.buf)) - {x}
    {
      hide Coherent, Bcache.ListOk, DirtyBlocks;
      WriteOut(b, h);
      bc.Brelse(b);
      assert bc.buf == was[b := Released(Written(old(bc.buf)[b], h))];
      assert bc.buf[b].Holds(ROOTDEV, old(bc.buf)[b].blockno);
    }

    /** The cache is being copied to the log: the logged blocks are pinned, and readers see of
        every home block what they saw at the beginning. */
    ghost predicate Copying(v: Disk)
      reads this, bc
    {
      Steady() && DirtyBlocks(bc.buf) == Homes() && SameHome(bc.view, v, layout)
    }

    /** One turn of write_log: copy a logged block from the cache to its slot; false is a panic. */
    method LogSlot(tail: nat, ghost v: Disk) returns (ok: bool)
      requires Copying(v) && tail < n && Unlocked(bc.buf, block[tail])
      modifies bc
      ensures ok <==> SomeIdle(old(bc.buf))
      ensures !ok ==> bc.disk == old(bc.disk) && bc.writes == old(bc.writes)
      ensures ok ==>
                && Copying(v) && SomeIdle(bc.buf)
                && bc.disk == old(bc.disk)[layout.start + tail + 1 := v[block[tail]]]
                && bc.writes == old(bc.writes) + [bc.disk]
    {
      hide Coherent, Bcache.ListOk, DirtyBlocks, OnlyRead, TwoBuffers, Unlocked, Present, SomeIdle, Returned;
      var slot := layout.start + tail + 1;
      assert layout.Within(slot);
      PinnedReady(tail, slot);
      ok := CopyBlock(slot, block[tail], true);
      if ok {
        LogBlockIdle(bc.buf, bc.disk, layout, slot);
      }
    }

    lemma PinnedReady(tail: nat, slot: nat)
      requires Steady() && DirtyBlocks(bc.buf) == Homes() && tail < n && layout.Within(slot)
      ensures !layout.Within(block[tail]) && Unlocked(bc.buf, slot)
      ensures TwoBuffers(bc.buf, slot, block[tail]) <==> SomeIdle(bc.buf)
      ensures DirtyBlocks(bc.buf) - {slot} == DirtyBlocks(bc.buf)
    {
      assert block[tail] in Homes();
      IdleIsEnough(bc.disk, bc.buf, bc.view, layout, slot, block[tail]);
      LogUnlocked(bc.disk, bc.buf, bc.view, layout, slot);
    }

    /** Copy the logged blocks from the cache to the log, `k` of them; false is a panic. Without
        readers that comes before any write, exactly if no buffer is idle. */
    method WriteLog(sched: seq<seq<ReaderStep>>) returns (ok: bool, ghost k: nat)
      requires Steady() && DirtyBlocks(bc.buf) == Homes()
      modifies bc
      ensures k <= n && (ok <==> k == n)
      ensures sched == [] ==> (ok <==> n == 0 || SomeIdle(old(bc.buf)))
      ensures sched == [] && !ok ==> k == 0
      ensures ok ==> Copying(old(bc.view)) && (sched == [] && n > 0 ==> SomeIdle(bc.buf))
      ensures bc.disk == Filled(old(bc.disk), layout, Contents(old(bc.view), block[..n]), k)
      ensures bc.writes == old(bc.writes) + FillSteps(old(bc.disk), layout, Contents(old(bc.view), block[..n]), k)
    {
      hide Coherent, Bcache.ListOk, DirtyBlocks, Filled, FillSteps, OnlyRead, SomeIdle, Unlocked, LogClean;
      ghost var d, w, v, data := bc.disk, bc.writes, bc.view, Contents(bc.view, block[..n]);
      k := 0;
      var tail := 0;
      NextFill(d, layout, data, 0);
      while tail < n
        invariant 0 <= tail == k <= n && Copying(v)
        invariant bc.disk == Filled(d, layout, data, tail)
        invariant bc.writes == w + FillSteps(d, layout, data, tail)
        invariant sched == [] && tail == 0 ==> bc.buf == old(bc.buf)
        invariant sched == [] && tail > 0 ==> SomeIdle(bc.buf) && SomeIdle(old(bc.buf))
      {
        assert block[tail] in Homes();
        ok := Readers(Script(sched, tail), block[tail]);
        if !ok {
          return;
        }
        ok := LogSlot(tail, v);
        if !ok {
          return;
        }
        tail, k := tail + 1, k + 1;
        NextFill(d, layout, data, tail);
      }
      return true, k;
    }

    /** The logged blocks from `tail` on. */
    ghost function Pending(tail: nat): set<nat>
      requires n <= |block|
      reads this
    {
      BlockSet(block, tail, n)
    }

    /** The blocks still to install are those that are pinned. */
    ghost predicate Unpinning(tail: nat)
      requires n <= |block|
      reads this, bc
    {
      DirtyBlocks(bc.buf) == Pending(tail) && DistinctBlocks()
    }

    /** Nothing is pinned, and there is nobody about. */
    ghost predicate Booting()
      reads bc
    {
      DirtyBlocks(bc.buf) == {} && Quiet(bc.buf) && |bc.buf| >= 2
    }

    /** One turn of install_trans: copy a log slot to its home block; false is a panic. */
    method InstallSlot(tail: nat) returns (ok: bool)
      requires Steady() && tail < n && (Unpinning(tail) || Booting()) && Unlocked(bc.buf, block[tail])
      modifies bc
      ensures SomeIdle(old(bc.buf)) || old(Booting()) ==> ok
      ensures !ok ==> bc.disk == old(bc.disk) && bc.writes == old(bc.writes)
      ensures ok ==>
                && Steady() && SomeIdle(bc.buf) && |bc.buf| == |old(bc.buf)|
                && (old(Unpinning(tail)) ==> Unpinning(tail + 1)) && (old(Booting()) ==> Booting())
                && bc.disk == old(bc.disk)[block[tail] := old(bc.disk)[layout.start + tail + 1]]
                && bc.writes == old(bc.writes) + [bc.disk]
    {
      hide Coherent, Bcache.ListOk, DirtyBlocks, OnlyRead, TwoBuffers, Unlocked, Present, SomeIdle, Quiet, Returned;
      var slot := layout.start + tail + 1;
      assert layout.Within(slot);
      SlotReady(tail, slot);
      PendingNext(block, tail, n);
      ok := CopyBlock(block[tail], slot, false);
      if ok {
        LogBlockIdle(bc.buf, bc.disk, layout, slot);
        if old(Booting()) {
          StillQuiet(old(bc.buf), bc.buf);
        }
        ReturnedSize(old(bc.buf), bc.buf);
      }
    }

    lemma NonePending()
      requires n <= |block| && (Unpinning(n) || Booting())
      ensures DirtyBlocks(bc.buf) == {}
    {
      assert Pending(n) == {};
    }

    /** The in-memory header is the one on disk. */
    ghost predicate HeaderOnDisk()
      reads this, bc
    {
      && |block| == LOGSIZE
      && WellFormed(bc.disk, layout) && HeadCount(bc.disk, layout) == n
      && (forall i :: 0 <= i < n ==> HeadBlock(bc.disk, layout, i) == block[i])
    }

    lemma SlotReady(tail: nat, slot: nat)
      requires Steady() && tail < n && layout.Within(slot)
      ensures !layout.Within(block[tail]) && Unlocked(bc.buf, slot) && bc.view[slot] == bc.disk[slot]
      ensures Booting() || (Unpinning(tail) && SomeIdle(bc.buf)) ==> TwoBuffers(bc.buf, block[tail], slot)
      ensures Booting() ==> DirtyBlocks(bc.buf) - {block[tail]} == {}
    {
      LogUnlocked(bc.disk, bc.buf, bc.view, layout, slot);
      CleanIsVisible(bc.disk, bc.buf, bc.view, layout, slot);
      if Booting() {
        BootIsEnough(bc.buf, block[tail], slot);
      } else if Unpinning(tail) {
        assert block[tail] in Pending(tail);
        IdleIsEnough(bc.disk, bc.buf, bc.view, layout, slot, block[tail]);
        SwappedToo(bc.buf, slot, block[tail]);
      }
    }

    /** What readers do, and one turn of install_trans; false is a panic. */
    method InstallTurn(script: seq<ReaderStep>, tail: nat) returns (ok: bool)
      requires Steady() && tail < n && (Unpinning(tail) || (Booting() && script == []))
      modifies bc
      ensures script == [] && (SomeIdle(old(bc.buf)) || old(Booting())) ==> ok
      ensures !ok ==> bc.disk == old(bc.disk) && bc.writes == old(bc.writes)
      ensures ok ==>
                && Steady() && SomeIdle(bc.buf) && |bc.buf| == |old(bc.buf)|
                && (old(Unpinning(tail)) ==> Unpinning(tail + 1))
                && (script == [] && old(Booting()) ==> Booting())
                && bc.disk == old(bc.disk)[block[tail] := old(bc.disk)[layout.start + tail + 1]]
                && bc.writes == old(bc.writes) + [bc.disk]
    {
      hide Coherent, Bcache.ListOk, DirtyBlocks, OnlyRead, SomeIdle, Unlocked, LogClean, Quiet;
      assert block[tail] in Pending(tail);
      QuietUnlocked(bc.buf, block[tail]);
      ok := Readers(script, block[tail]);
      if ok {
        ok := InstallSlot(tail);
      }
    }

    /** Copy committed blocks from the log to their homes, `k` of them; false is a panic. */
    method InstallTrans(sched: seq<seq<ReaderStep>>, from: nat) returns (ok: bool, ghost k: nat)
      requires Steady() && HeaderOnDisk() && (Unpinning(0) || (Booting() && sched == []))
      modifies bc
      ensures k <= n && (ok <==> k == n)
      ensures sched == [] && (SomeIdle(old(bc.buf)) || old(Booting())) ==> ok
      ensures ok ==> Steady() && DirtyBlocks(bc.buf) == {} && |bc.buf| == |old(bc.buf)|
      ensures ok && sched == [] && n > 0 ==> SomeIdle(bc.buf)
      ensures ok && sched == [] && old(Booting()) ==> Booting()
      ensures ok && sched == [] && n == 0 ==> bc.buf == old(bc.buf)
      ensures bc.disk == Installed(old(bc.disk), layout, k)
      ensures bc.writes == old(bc.writes) + InstallSteps(old(bc.disk), layout, k)
    {
      hide Bcache.Valid, DirtyBlocks, Installed, InstallSteps, OnlyRead, SomeIdle, LogClean, Log.Booting, Log.Unpinning,
        WellFormed, HeadCount, HeadBlock;
      ghost var d, w := bc.disk, bc.writes;
      assert WellFormed(d, layout) && HeadCount(d, layout) == n;
      assert forall i :: 0 <= i < n ==> HeadBlock(d, layout, i) == block[i];
      k := 0;
      var tail := 0;
      NextInstall(d, layout, 0);
      while tail < n
        invariant 0 <= tail == k <= n && Steady() && (Unpinning(tail) || (Booting() && sched == []))
        invariant |bc.buf| == |old(bc.buf)|
        invariant bc.disk == Installed(d, layout, tail)
        invariant bc.writes == w + InstallSteps(d, layout, tail)
        invariant sched == [] && tail == 0 ==> bc.buf == old(bc.buf)
        invariant sched == [] && tail > 0 ==> SomeIdle(bc.buf)
        invariant sched == [] && old(Booting()) ==> Booting()
      {
        NextInstall(d, layout, tail + 1);
        assert HeadBlock(d, layout, tail) == block[tail];
        ok := InstallTurn(Script(sched, from + tail), tail);
        if !ok {
          return;
        }
        tail, k := tail + 1, k + 1;
      }
      NonePending();
      return true, k;
    }

    /** Between two commits the log on disk is empty, and the blocks pinned in the cache are
        exactly the logged ones. */
    ghost predicate Synced()
      reads this, bc
    {
      && Shape() && DistinctBlocks()
      && DirtyBlocks(bc.buf) == Homes() && HeadCount(bc.disk, layout) == 0
    }

    /** write_log and write_head, up to the commit point: `k` writes; false is a panic. */
    method LogTransaction(sched: seq<seq<ReaderStep>>) returns (ok: bool, ghost k: nat)
      requires Synced() && OnlyRead(bc.buf, bc.disk, layout) && n > 0
      modifies bc
      ensures k <= n + 1 && (ok <==> k == n + 1)
      ensures sched == [] ==> (ok <==> SomeIdle(old(bc.buf)))
      ensures sched == [] && !ok ==> k == 0
      ensures ok ==> Steady() && Unpinning(0) && HeaderOnDisk() && SomeIdle(bc.buf)
      ensures ok ==> SameHome(bc.view, old(bc.view), layout)
      ensures var blocks := block[..n];
              var data := Contents(old(bc.view), blocks);
              && Transaction(old(bc.disk), layout, blocks, data)
              && CutCommit(old(bc.disk), layout, blocks, data, k, old(bc.writes), bc.writes, bc.disk)
    {
      hide Coherent, Bcache.ListOk, DirtyBlocks, Filled, FillSteps, Committed, Headed, WellFormed, OnlyRead,
        SomeIdle, CutCommit, CommitSteps, Unlocked, LogClean;
      ghost var d, w, blocks := bc.disk, bc.writes, block[..n];
      ghost var data := Contents(bc.view, blocks);
      HomesNotInLog();
      ok, k := WriteLog(sched);
      CutFilling(d, layout, blocks, data, k, w);
      if !ok {
        return;
      }
      assert layout.Within(layout.start);
      LogUnlocked(bc.disk, bc.buf, bc.view, layout, layout.start);
      ok := Readers(Script(sched, n), layout.start);
      if !ok {
        return;
      }
      CommittedIs(d, layout, blocks, data);
      ok := WriteHead();
      if !ok {
        return;
      }
      k := k + 1;
      CutCommitted(d, layout, blocks, data, w);
      CommittedWellFormed(d, layout, blocks, data);
      assert Pending(0) == Homes();
    }

    lemma HomesNotInLog()
      requires Shape() && DirtyBlocks(bc.buf) == Homes()
      ensures LogClean(bc.buf, layout)
    {
      forall x | x in DirtyBlocks(bc.buf)
        ensures !layout.Within(x)
      {
        assert x in Homes();
      }
    }

    /** The log is emptied; false is a panic. */
    method ClearHead(script: seq<ReaderStep>) returns (ok: bool)
      requires Steady() && DirtyBlocks(bc.buf) == {}
      modifies this`n, bc
      ensures script == [] && SomeIdle(old(bc.buf)) ==> ok
      ensures !ok ==> bc.disk == old(bc.disk) && bc.writes == old(bc.writes)
      ensures ok ==>
                && n == 0 && Synced() && OnlyRead(bc.buf, bc.disk, layout) && bc.view == bc.disk
                && |bc.buf| == |old(bc.buf)| && (script == [] && Quiet(old(bc.buf)) ==> Quiet(bc.buf))
                && bc.disk == Cleared(old(bc.disk), layout) && bc.writes == old(bc.writes) + [bc.disk]
    {
      hide Coherent, Bcache.ListOk, DirtyBlocks, OnlyRead, SomeIdle, Quiet, Returned, Unlocked;
      n := 0;
      assert layout.Within(layout.start);
      LogUnlocked(bc.disk, bc.buf, bc.view, layout, layout.start);
      ok := Readers(script, layout.start);
      if !ok {
        return;
      }
      ghost var was := bc.buf;
      ok := WriteHead();
      if !ok {
        return;
      }
      AllVisible();
      ReturnedSize(was, bc.buf);
      if Quiet(was) {
        StillQuiet(was, bc.buf);
      }
      assert Homes() == {};
    }

    /** install_trans, then an empty header, what commit and recovery both end with: `k` writes;
        false is a panic. */
    method InstallAndClear(sched: seq<seq<ReaderStep>>, from: nat) returns (ok: bool, ghost k: nat)
      requires Steady() && HeaderOnDisk() && (Unpinning(0) || (Booting() && sched == []))
      modifies this`n, bc
      ensures k <= |RecoverySteps(old(bc.disk), layout)| && (ok <==> k == |RecoverySteps(old(bc.disk), layout)|)
      ensures sched == [] && (SomeIdle(old(bc.buf)) || old(Booting())) ==> ok
      ensures ok ==> n == 0 && Synced() && OnlyRead(bc.buf, bc.disk, layout) && bc.view == bc.disk
      ensures ok && sched == [] && old(Booting()) ==> Quiet(bc.buf)
      ensures ok ==> bc.disk == Recovered(old(bc.disk), layout) && |bc.buf| == |old(bc.buf)|
      ensures CutRecovery(old(bc.disk), layout, k, old(bc.writes), bc.writes, bc.disk)
    {
      hide Coherent, Bcache.ListOk, DirtyBlocks, OnlyRead, SomeIdle, Quiet, CutRecovery, RecoverySteps, WellFormed,
        Installed, InstallSteps, LogClean, Cleared, Log.Synced, Log.Unpinning, Log.Booting;
      ghost var c, w := bc.disk, bc.writes;
      var last := from + n;
      RecoveryLength(c, layout);
      ok, k := InstallTrans(sched, from);
      CutInstalling(c, layout, k, w);
      if !ok {
        return;
      }
      BootIdle();
      ok := ClearHead(Script(sched, last));
      if ok {
        k := k + 1;
        CutCleared(c, layout, w);
      }
    }

    lemma BootIdle()
      ensures Booting() ==> SomeIdle(bc.buf) && Quiet(bc.buf)
    {
      if Booting() {
        AllIdle(bc.buf);
      }
    }

    lemma AllVisible()
      requires Shape() && OnlyRead(bc.buf, bc.disk, layout) && DirtyBlocks(bc.buf) == {}
      ensures bc.view == bc.disk
    {
      forall x | 0 <= x < |bc.disk|
        ensures bc.view[x] == bc.disk[x]
      {
        CleanIsVisible(bc.disk, bc.buf, bc.view, layout, x);
      }
    }

    /** commit: log, header, install, header, with readers in between. The disk goes through a
        part of the disks of a commit, all of them unless there is a panic for want of a buffer.
        Without readers in between, the panic comes before any write, exactly if blocks are
        logged and every buffer is pinned or in use. */
    method Commit(sched: seq<seq<ReaderStep>>) returns (ok: bool, ghost k: nat)
      requires Synced() && OnlyRead(bc.buf, bc.disk, layout)
      modifies this`n, bc
      ensures sched == [] ==> (ok <==> old(n) == 0 || SomeIdle(old(bc.buf)))
      ensures sched == [] && !ok ==> k == 0
      ensures ok ==> n == 0 && Synced() && OnlyRead(bc.buf, bc.disk, layout)
      ensures ok ==> bc.view == bc.disk && SameHome(bc.view, old(bc.view), layout)
      ensures var blocks := block[..old(n)];
              var data := Contents(old(bc.view), blocks);
              && Transaction(old(bc.disk), layout, blocks, data)
              && CutCommit(old(bc.disk), layout, blocks, data, k, old(bc.writes), bc.writes, bc.disk)
              && (ok && old(n) > 0 ==> k == |CommitSteps(old(bc.disk), layout, blocks, data)|)
              && (old(n) == 0 ==> ok && k == 0)
    {
      hide Coherent, Bcache.ListOk, DirtyBlocks, AllAfter, CommitSteps, RecoverySteps, Recovered, OnlyRead,
        SomeIdle, CutCommit, CutRecovery, Log.Unpinning, LogClean, WellFormed, Committed;
      ghost var d, v, w, blocks := bc.disk, bc.view, bc.writes, block[..n];
      ghost var data := Contents(v, blocks);
      if n > 0 {
        VisibleElsewhere();
        ok, k := LogTransaction(sched);
        if !ok {
          return;
        }
        CommittedRecoversAll(d, layout, blocks, data);
        ghost var mid, m := bc.writes, 0;
        CutAtCommit(d, layout, blocks, data, w, mid, bc.disk);
        ok, m := InstallAndClear(sched, n + 1);
        k := k + m;
        CutJoined(d, layout, blocks, data, m, w, mid, bc.writes, bc.disk);
        if !ok {
          return;
        }
        HomeKept(d, v, bc.disk, layout, blocks);
      } else {
        AllVisible();
        k := 0;
        CutNothing(d, layout, blocks, data, w);
      }
      return true, k;
    }

    lemma VisibleElsewhere()
      requires Synced() && OnlyRead(bc.buf, bc.disk, layout)
      ensures SameExcept(bc.view, bc.disk, block[..n])
    {
      forall x | 0 <= x < |bc.disk| && x !in block[..n]
        ensures bc.view[x] == bc.disk[x]
      {
        assert x !in Homes();
        CleanIsVisible(bc.disk, bc.buf, bc.view, layout, x);
      }
    }

    /** Copy the count and the block numbers out of a header block. */
    method TakeHead(h: Block)
      requires Word(h, 0) <= LOGSIZE == |block|
      modifies this`n, this`block
      ensures n == Word(h, 0) && |block| == LOGSIZE && forall j :: 0 <= j < n ==> block[j] == Word(h, 1 + j)
    {
      n := Word(h, 0);
      var i := 0;
      while i < n
        invariant 0 <= i <= n <= LOGSIZE == |block|
        invariant forall j :: 0 <= j < i ==> block[j] == Word(h, 1 + j)
        modifies this`block
      {
        block := block[i := Word(h, 1 + i)];
        i := i + 1;
      }
    }

    /** Read the log header from disk into the in-memory header. */
    method ReadHead()
      requires bc.Valid() && Booting()
      requires WellFormed(bc.disk, layout) && |bc.disk| <= 0x8000_0000 && |block| == LOGSIZE
      modifies this`n, this`block, bc
      ensures Steady() && HeaderOnDisk() && Booting()
      ensures bc.disk == old(bc.disk) && bc.writes == old(bc.writes) && |bc.buf| == |old(bc.buf)|
    {
      hide Bcache.ListOk, DirtyBlocks, UniqueBlocks, Cached;
      AllIdle(bc.buf);
      QuietIsRead(bc.buf, bc.disk, layout);
      CleanIsVisible(bc.disk, bc.buf, bc.view, layout, layout.start);
      var r := bc.Bread(ROOTDEV, layout.start);
      var h := bc.buf[r.value].data;
      TakeHead(h);
      assert forall j :: 0 <= j < n ==> block[j] == HeadBlock(bc.disk, layout, j);
      bc.Brelse(r.value);
      QuietIsRead(bc.buf, bc.disk, layout);
    }

    /** Recovery at boot, from an empty cache: it passes through the disks of RecoverySteps
        and leaves the recovered disk, with an empty log. */
    method RecoverFromLog()
      requires bc.Valid() && Booting()
      requires WellFormed(bc.disk, layout) && |bc.disk| <= 0x8000_0000 && |block| == LOGSIZE
      modifies this`n, this`block, bc
      ensures n == 0 && Synced() && Quiet(bc.buf) && bc.view == bc.disk && |bc.buf| == |old(bc.buf)|
      ensures bc.disk == Recovered(old(bc.disk), layout)
      ensures bc.writes == old(bc.writes) + RecoverySteps(old(bc.disk), layout)
    {
      hide Coherent, Bcache.ListOk, DirtyBlocks, OnlyRead, SomeIdle;
      ReadHead();
      var _, _ := InstallAndClear([], 0);
    }

    /** What holds between any two calls, whoever makes them: the log and the cache are in
        step, and a pinned buffer that nobody holds has the contents last logged for it. */
    ghost predicate Valid()
      reads this, bc
    {
      && Synced() && logged.Keys == Homes() && 0 <= outstanding && !committing
      && PinnedAsLogged(bc.buf, logged)
    }

    /** What a reader of block x is to see: the contents last logged, or else the disk's. */
    ghost function Latest(x: nat): Block
      requires x < |bc.disk|
      reads this, bc
    {
      if x in logged then logged[x] else bc.disk[x]
    }

    lemma ViewIsLatest(x: nat)
      requires Valid() && x < |bc.disk| && Unlocked(bc.buf, x)
      ensures bc.view[x] == Latest(x)
    {
      if Cached(bc.buf, x) {
        var i :| 0 <= i < |bc.buf| && bc.buf[i].valid && bc.buf[i].blockno == x;
        assert bc.buf[i].Holds(ROOTDEV, x);
        if x in logged {
          var j :| 0 <= j < |bc.buf| && bc.buf[j].dirty && bc.buf[j].blockno == x;
          assert bc.buf[j].Holds(ROOTDEV, x) && i == j;
        } else {
          assert !bc.buf[i].dirty;
        }
      } else {
        assert x !in DirtyBlocks(bc.buf);
      }
    }

    /** bread: the holder gets the latest contents; None is a panic. */
    method Read(x: nat) returns (r: Option<nat>)
      requires Valid() && Unlocked(bc.buf, x)
      modifies bc
      ensures bc.disk == old(bc.disk) && bc.writes == old(bc.writes) && bc.view == old(bc.view)
      ensures r.Some? ==> Valid()
      ensures r.Some? <==> x < |bc.disk| && (Present(old(bc.buf), ROOTDEV, x) || SomeIdle(old(bc.buf)))
      ensures r.Some? ==>
                && r.value < |bc.buf| == |old(bc.buf)|
                && bc.buf == old(bc.buf)[r.value := Held(old(bc.buf)[r.value], x, Latest(x))]
                && (old(bc.buf)[r.value].Holds(ROOTDEV, x) || old(bc.buf)[r.value].Idle())
                && Settled(bc.buf[r.value], bc.disk) && DirtyBlocks(bc.buf) == DirtyBlocks(old(bc.buf))
    {
      hide Coherent, Bcache.ListOk, DirtyBlocks, SomeIdle, Present;
      if x < |bc.disk| {
        ViewIsLatest(x);
      }
      r := bc.Bread(ROOTDEV, x);
    }

    /** The holder of a buffer changes its bytes, on the way to LogWrite. */
    method Modify(b: nat, data: Block)
      requires Valid() && b < |bc.buf| && bc.buf[b].locked && bc.buf[b].valid
      requires !layout.Within(bc.buf[b].blockno)
      modifies bc
      ensures Valid() && bc.disk == old(bc.disk) && bc.writes == old(bc.writes)
      ensures bc.buf == old(bc.buf)[b := old(bc.buf)[b].(data := data)]
      ensures bc.view == old(bc.view)[old(bc.buf)[b].blockno := data]
    {
      bc.Store(b, data);
      hide Coherent, Bcache.ListOk, DirtyBlocks;
    }

    /** The guards of log_write, which it reads without the lock; false is one of its two panics. */
    method Guard() returns (ok: bool)
      ensures ok <==> n < LOGSIZE && n < layout.size - 1 && outstanding >= 1
    {
      return !(n >= LOGSIZE || n >= layout.size - 1) && outstanding >= 1;
    }

    /** The part of log_write under the lock. That there is a slot for a block not yet logged is
        what the reservations of begin_op are for. */
    method Append(b: nat)
      requires Valid() && b < |bc.buf| && bc.buf[b].locked && bc.buf[b].valid
      requires !layout.Within(bc.buf[b].blockno)
      requires bc.buf[b].blockno in logged || (n < LOGSIZE && n < layout.size - 1)
      modifies this`n, this`block, this`logged, bc
      ensures Valid()
      ensures bc.disk == old(bc.disk) && bc.writes == old(bc.writes) && bc.view == old(bc.view)
      ensures logged == old(logged)[old(bc.buf)[b].blockno := old(bc.buf)[b].data]
      ensures bc.buf == old(bc.buf)[b := old(bc.buf)[b].(dirty := true)]
      ensures n == old(n) + (if old(bc.buf)[b].blockno in old(logged) then 0 else 1)
    {
      hide Coherent, Bcache.ListOk, DirtyBlocks, BlockSet, PinnedAsLogged;
      var x := bc.buf[b].blockno;
      LoggedNow(bc.disk, bc.buf, bc.view, logged, b);
      Absorb(x);
      logged := logged[x := bc.buf[b].data];
      bc.MarkDirty(b);
    }

    /** log_write, with nothing between its guards and the rest. */
    method LogWrite(b: nat) returns (ok: bool)
      requires Valid() && b < |bc.buf| && bc.buf[b].locked && bc.buf[b].valid
      requires !layout.Within(bc.buf[b].blockno)
      modifies this`n, this`block, this`logged, bc
      ensures Valid()
      ensures bc.disk == old(bc.disk) && bc.writes == old(bc.writes) && bc.view == old(bc.view)
      ensures ok <==> old(n) < LOGSIZE && old(n) < layout.size - 1 && outstanding >= 1
      ensures !ok ==> bc.buf == old(bc.buf) && n == old(n) && block == old(block) && logged == old(logged)
      ensures ok ==>
                && logged == old(logged)[old(bc.buf)[b].blockno := old(bc.buf)[b].data]
                && bc.buf == old(bc.buf)[b := old(bc.buf)[b].(dirty := true)]
                && n == old(n) + (if old(bc.buf)[b].blockno in old(logged) then 0 else 1)
    {
      hide Log.Valid;
      ok := Guard();
      if ok {
        Append(b);
      }
    }

    /** Find the block among the logged ones, or add it. */
    method Absorb(x: word)
      requires |block| == LOGSIZE && n <= LOGSIZE && DistinctBlocks() && (n < LOGSIZE || x in Homes())
      modifies this`n, this`block
      ensures |block| == LOGSIZE && n <= LOGSIZE && DistinctBlocks()
      ensures Homes() == old(Homes()) + {x}
      ensures n == old(n) + (if x in old(Homes()) then 0 else 1)
      ensures forall i :: 0 <= i < n ==> block[i] == x || (i < old(n) && block[i] == old(block)[i])
    {
      var i := 0;
      while i < n && block[i] != x
        invariant 0 <= i <= n && forall j :: 0 <= j < i ==> block[j] != x
      {
        i := i + 1;
      }
      assert i == n ==> x !in Homes();
      Absorbed(block, n, i, x);
      block := block[i := x];
      if i == n {
        n := n + 1;
      }
    }

    /** brelse, once the block is logged or left as it was. */
    method Release(b: nat)
      requires Valid() && b < |bc.buf| && bc.buf[b].locked && bc.buf[b].valid
      requires bc.buf[b].data == (if bc.buf[b].dirty then Latest(bc.buf[b].blockno) else bc.disk[bc.buf[b].blockno])
      modifies bc
      ensures Valid() && bc.disk == old(bc.disk) && bc.writes == old(bc.writes) && bc.view == old(bc.view)
      ensures bc.buf == old(bc.buf)[b := Released(old(bc.buf)[b])]
    {
      hide Coherent, Bcache.ListOk, DirtyBlocks, PinnedAsLogged, BlockSet;
      InRange(bc.disk, bc.buf, bc.view, b);
      ReleasedAsLogged(bc.disk, bc.buf, bc.view, logged, b);
      bc.Brelse(b);
    }

    /** One try of begin_op; false means that the caller has to sleep and try again. */
    method BeginOp() returns (started: bool)
      requires Valid()
      modifies this`outstanding
      ensures Valid()
      ensures started <==> n + (old(outstanding) + 1) * MAXOPBLOCKS <= LOGSIZE
      ensures outstanding == old(outstanding) + (if started then 1 else 0)
    {
      if committing || n + (outstanding + 1) * MAXOPBLOCKS > LOGSIZE {
        return false;
      }
      outstanding := outstanding + 1;
      return true;
    }

    /** end_op: the last outstanding operation commits, with readers in between. False is the
        panic for want of a buffer. */
    method EndOp(sched: seq<seq<ReaderStep>>) returns (ok: bool, ghost k: nat)
      requires Valid() && outstanding >= 1 && (outstanding == 1 ==> OnlyRead(bc.buf, bc.disk, layout))
      modifies this`n, this`outstanding, this`committing, this`logged, bc
      ensures outstanding == old(outstanding) - 1
      ensures outstanding > 0 ==> ok && Valid() && unchanged(bc)
      ensures outstanding == 0 && sched == [] ==>
                (ok <==> old(n) == 0 || old(n) + |CleanInUse(old(bc.buf))| < |old(bc.buf)|)
      ensures outstanding == 0 && sched == [] && !ok ==> k == 0
      ensures ok ==> Valid() && SameHome(bc.view, old(bc.view), layout)
      ensures ok && outstanding == 0 ==>
                n == 0 && logged == map[] && bc.view == bc.disk && OnlyRead(bc.buf, bc.disk, layout)
      ensures var blocks := block[..old(n)];
              var data := Contents(old(bc.view), blocks);
              && Transaction(old(bc.disk), layout, blocks, data)
              && (outstanding == 0 ==>
                    CutCommit(old(bc.disk), layout, blocks, data, k, old(bc.writes), bc.writes, bc.disk))
              && (outstanding == 0 && ok && old(n) > 0 ==> k == |CommitSteps(old(bc.disk), layout, blocks, data)|)
    {
      hide Coherent, Bcache.ListOk, DirtyBlocks, CommitSteps, CutCommit, OnlyRead, SomeIdle, CleanInUse;
      outstanding, k := outstanding - 1, 0;
      if outstanding > 0 {
        return true, k;
      }
      BufferForCommit();
      committing := true;
      ok, k := Commit(sched);
      if ok {
        logged := map[];
        NothingDirty(bc.buf);
      }
      committing := false;
    }

    /** The pinned buffers are as many as the logged blocks, so commit finds a buffer for its
        log block exactly if these and the clean buffers in use are fewer than all. */
    lemma BufferForCommit()
      requires Synced()
      ensures SomeIdle(bc.buf) <==> n + |CleanInUse(bc.buf)| < |bc.buf|
    {
      DistinctSize(block[..n]);
      assert Homes() == Elements(block[..n]);
      IdleByCount(bc.disk, bc.buf, bc.view);
    }
  }

  /** initlog, with a cache of nbuf buffers, on the disk that a crash has left. */
  method InitLog(disk: Disk, nbuf: nat, layout: Layout) returns (log: Log)
    requires WellFormed(disk, layout) && |disk| <= 0x8000_0000 && 2 <= nbuf
    ensures fresh(log) && fresh(log.bc) && log.layout == layout && log.Valid() && log.outstanding == 0
    ensures log.bc.disk == log.bc.view == Recovered(disk, layout)
    ensures Quiet(log.bc.buf) && |log.bc.buf| == nbuf && log.n == 0
  {
    var bc := new Bcache(disk, nbuf);
    log := new Log(bc, layout);
    assert DirtyBlocks(bc.buf) == {};
    log.RecoverFromLog();
    NothingDirty(bc.buf);
  }

  /** One block is logged, and readers of other blocks hold the first i of nbuf - 1 buffers. */
  ghost predicate Crowded(buf: seq<Buf>, h: nat, i: nat) {
    && DirtyBlocks(buf) == {h} && |CleanInUse(buf)| == i
    && (forall j :: 0 <= j < |buf| && buf[j].refcnt > 0 ==> h < buf[j].blockno <= h + i)
  }

  lemma CrowdedMore(disk: Disk, buf: seq<Buf>, view: Disk, h: nat, i: nat, r: nat, x: Buf, after: seq<Buf>)
    requires Coherent(disk, buf, view) && Crowded(buf, h, i) && r < |buf| && after == buf[r := x]
    requires buf[r].Holds(ROOTDEV, h + i + 1) || buf[r].Idle()
    requires x.blockno == h + i + 1 && x.refcnt > 0 && x.dirty == buf[r].dirty && DirtyBlocks(after) == DirtyBlocks(buf)
    ensures Crowded(after, h, i + 1)
  {
    PinnedBlock(buf, r);
    assert r !in CleanInUse(buf);
    assert CleanInUse(after) == CleanInUse(buf) + {r};
  }

  lemma PinnedBlock(buf: seq<Buf>, r: nat)
    requires r < |buf|
    ensures buf[r].dirty ==> buf[r].blockno in DirtyBlocks(buf)
  {
  }

  lemma CrowdedReads(disk: Disk, buf: seq<Buf>, view: Disk, h: nat, i: nat, l: Layout)
    requires Coherent(disk, buf, view) && Crowded(buf, h, i) && l.start + l.size <= h
    requires forall j :: 0 <= j < |buf| && buf[j].locked ==> Settled(buf[j], disk)
    ensures OnlyRead(buf, disk, l) && Unlocked(buf, h) && Unlocked(buf, h + i + 1)
    ensures i + 1 < |buf| ==> SomeIdle(buf)
  {
    IdleByCount(disk, buf, view);
  }

  /** A run in which a commit of one block panics, although there are many more buffers than
      blocks logged: readers hold all the others. */
  method StarvedCommit(disk: Disk, nbuf: nat, layout: Layout) returns (ok: bool, n: nat)
    requires WellFormed(disk, layout) && 2 <= nbuf && 3 <= layout.size
    requires layout.start + layout.size + nbuf <= |disk| <= 0x8000_0000
    ensures !ok && n == 1 < nbuf
  {
    hide Coherent, Bcache.ListOk, DirtyBlocks, CleanInUse, Quiet, Recovered, WellFormed, SomeIdle, Crowded,
      PinnedAsLogged, Present;
    var log := InitLog(disk, nbuf, layout);
    var h := layout.start + layout.size;
    LogOne(log, h);
    var i := 1;
    while i < nbuf
      invariant 1 <= i <= nbuf && log.Valid() && log.n == 1 == log.outstanding && |log.bc.buf| == nbuf
      invariant fresh(log) && fresh(log.bc) && log.layout == layout && |log.bc.disk| == |disk|
      invariant Crowded(log.bc.buf, h, i - 1)
      invariant forall j :: 0 <= j < nbuf && log.bc.buf[j].locked ==> Settled(log.bc.buf[j], log.bc.disk)
    {
      i := Crowd(log, h, i);
    }
    CrowdedReads(log.bc.disk, log.bc.buf, log.bc.view, h, nbuf - 1, layout);
    n := log.n;
    CrowdedSize(log.bc.buf, h, nbuf - 1);
    ghost var k;
    ok, k := log.EndOp([]);
  }

  lemma CrowdedSize(buf: seq<Buf>, h: nat, i: nat)
    requires Crowded(buf, h, i)
    ensures |CleanInUse(buf)| == i
  {
  }

  /** An operation begins and logs block h. */
  method LogOne(log: Log, h: nat)
    requires log.Valid() && log.n == 0 && log.outstanding == 0 && Quiet(log.bc.buf) && |log.bc.buf| >= 2
    requires h < |log.bc.disk| && log.layout.start + log.layout.size <= h && 3 <= log.layout.size
    modifies log, log.bc
    ensures log.Valid() && log.n == 1 == log.outstanding && |log.bc.buf| == |old(log.bc.buf)|
    ensures |log.bc.disk| == |old(log.bc.disk)|
    ensures Crowded(log.bc.buf, h, 0) && forall j :: 0 <= j < |log.bc.buf| ==> !log.bc.buf[j].locked
  {
    hide Coherent, Bcache.ListOk, DirtyBlocks, SomeIdle, Present, PinnedAsLogged, BlockSet, Crowded;
    NothingLogged(log);
    AllIdle(log.bc.buf);
    QuietUnlocked(log.bc.buf, h);
    var _ := log.BeginOp();
    var r := log.Read(h);
    Update(log, r.value);
    OnePinned(log.bc.buf, r.value, h, old(log.bc.buf));
  }

  lemma NothingLogged(log: Log)
    requires log.Valid() && log.n == 0
    ensures DirtyBlocks(log.bc.buf) == {} && log.logged == map[]
  {
    assert log.Homes() == {};
  }

  /** The holder of a buffer changes it, logs it and gives it back. */
  method Update(log: Log, b: nat)
    requires log.Valid() && log.n == 0 && log.outstanding == 1 && b < |log.bc.buf| && 3 <= log.layout.size
    requires log.bc.buf[b].locked && log.bc.buf[b].valid && !log.layout.Within(log.bc.buf[b].blockno)
    requires log.bc.buf[b].blockno !in log.logged && log.bc.buf[b].refcnt == 1
    modifies log, log.bc
    ensures log.Valid() && log.n == 1 == log.outstanding && |log.bc.buf| == |old(log.bc.buf)|
    ensures log.bc.disk == old(log.bc.disk)
    ensures log.bc.buf == old(log.bc.buf)[b := Released(old(log.bc.buf)[b].(data := Zeros(), dirty := true))]
  {
    hide Coherent, Bcache.ListOk, DirtyBlocks, SomeIdle, Present, PinnedAsLogged, BlockSet, Log.Synced;
    log.Modify(b, Zeros());
    var _ := log.LogWrite(b);
    log.Release(b);
  }

  lemma OnePinned(buf: seq<Buf>, b: nat, h: nat, was: seq<Buf>)
    requires Quiet(was) && DirtyBlocks(was) == {} && |buf| == |was| && b < |buf|
    requires buf == was[b := buf[b]] && buf[b].dirty && buf[b].refcnt == 0 && buf[b].blockno == h
    ensures Crowded(buf, h, 0)
  {
    NothingDirty(was);
    assert buf[b].dirty;
    assert DirtyBlocks(buf) == {h};
    assert CleanInUse(buf) == {};
  }

  /** One reader more. */
  method Crowd(log: Log, h: nat, i: nat) returns (next: nat)
    requires log.Valid() && log.n == 1 == log.outstanding && 1 <= i < |log.bc.buf|
    requires log.layout.start + log.layout.size <= h && h + |log.bc.buf| <= |log.bc.disk|
    requires Crowded(log.bc.buf, h, i - 1)
    requires forall j :: 0 <= j < |log.bc.buf| && log.bc.buf[j].locked ==> Settled(log.bc.buf[j], log.bc.disk)
    modifies log.bc
    ensures next == i + 1 && log.Valid() && |log.bc.buf| == |old(log.bc.buf)| && log.bc.disk == old(log.bc.disk)
    ensures Crowded(log.bc.buf, h, i)
    ensures forall j :: 0 <= j < |log.bc.buf| && log.bc.buf[j].locked ==> Settled(log.bc.buf[j], log.bc.disk)
  {
    hide Coherent, Bcache.ListOk, DirtyBlocks, SomeIdle, Present, Crowded, PinnedAsLogged;
    CrowdedReads(log.bc.disk, log.bc.buf, log.bc.view, h, i - 1, log.layout);
    ghost var was, view := log.bc.buf, log.bc.view;
    var r := log.Read(h + i);
    CrowdedMore(log.bc.disk, was, view, h, i - 1, r.value, log.bc.buf[r.value], log.bc.buf);
    return i + 1;
  }

  /** The first k writes of a commit have been made, and nothing else. */
  ghost predicate CutCommit(d: Disk, l: Layout, blocks: seq<word>, data: seq<Block>, k: nat,
                            w: seq<Disk>, writes: seq<Disk>, disk: Disk)
    requires Transaction(d, l, blocks, data)
  {
    && k <= |CommitSteps(d, l, blocks, data)|
    && writes == w + CommitSteps(d, l, blocks, data)[..k] && disk == CrashDisk(d, l, blocks, data, k)
  }

  /** The first k writes of a recovery have been made, and nothing else. */
  ghost predicate CutRecovery(c: Disk, l: Layout, k: nat, w: seq<Disk>, writes: seq<Disk>, disk: Disk)
    requires WellFormed(c, l)
  {
    && k <= |RecoverySteps(c, l)|
    && writes == w + RecoverySteps(c, l)[..k] && disk == if k == 0 then c else RecoverySteps(c, l)[k - 1]
  }

  lemma {:induction false} FillPrefix(d: Disk, l: Layout, data: seq<Block>, k: nat, m: nat)
    requires l.start + l.size <= |d| && k <= m <= |data| < l.size
    ensures FillSteps(d, l, data, m)[..k] == FillSteps(d, l, data, k)
    decreases m
  {
    if k < m {
      FillPrefix(d, l, data, k, m - 1);
    }
  }

  lemma {:induction false} InstallPrefix(c: Disk, l: Layout, k: nat, m: nat)
    requires WellFormed(c, l) && k <= m <= HeadCount(c, l)
    ensures InstallSteps(c, l, m)[..k] == InstallSteps(c, l, k)
    decreases m
  {
    if k < m {
      InstallPrefix(c, l, k, m - 1);
    }
  }

  lemma CutFilling(d: Disk, l: Layout, blocks: seq<word>, data: seq<Block>, k: nat, w: seq<Disk>)
    requires Transaction(d, l, blocks, data) && k <= |data|
    ensures CutCommit(d, l, blocks, data, k, w, w + FillSteps(d, l, data, k), Filled(d, l, data, k))
  {
    hide RecoverySteps, Filled, FillSteps, Committed;
    FillPrefix(d, l, data, k, |data|);
    var steps := CommitSteps(d, l, blocks, data);
    assert steps[..k] == FillSteps(d, l, data, |data|)[..k];
    if k == 0 {
      NextFill(d, l, data, 0);
    } else {
      FillStepAt(d, l, data, |data|, k - 1);
    }
  }

  lemma CutNothing(d: Disk, l: Layout, blocks: seq<word>, data: seq<Block>, w: seq<Disk>)
    requires Transaction(d, l, blocks, data)
    ensures CutCommit(d, l, blocks, data, 0, w, w, d)
  {
    hide CommitSteps;
    assert w + [] == w;
  }

  lemma CutCommitted(d: Disk, l: Layout, blocks: seq<word>, data: seq<Block>, w: seq<Disk>)
    requires Transaction(d, l, blocks, data)
    ensures var c := Committed(d, l, blocks, data);
            CutCommit(d, l, blocks, data, |data| + 1, w, w + FillSteps(d, l, data, |data|) + [c], c)
  {
    hide RecoverySteps, Committed;
    var fill, steps := FillSteps(d, l, data, |data|), CommitSteps(d, l, blocks, data);
    assert steps[..|data| + 1] == fill + [Committed(d, l, blocks, data)];
  }

  /** At the commit point the disk is the committed one. */
  lemma CutAtCommit(d: Disk, l: Layout, blocks: seq<word>, data: seq<Block>, w: seq<Disk>, writes: seq<Disk>,
                    disk: Disk)
    requires Transaction(d, l, blocks, data) && CutCommit(d, l, blocks, data, |data| + 1, w, writes, disk)
    ensures disk == Committed(d, l, blocks, data)
  {
    hide RecoverySteps, Committed;
  }

  lemma CutInstalling(c: Disk, l: Layout, k: nat, w: seq<Disk>)
    requires WellFormed(c, l) && k <= HeadCount(c, l)
    ensures CutRecovery(c, l, k, w, w + InstallSteps(c, l, k), Installed(c, l, k))
  {
    hide Installed, InstallSteps, Recovered, HeadBlock;
    InstallPrefix(c, l, k, HeadCount(c, l));
    assert RecoverySteps(c, l)[..k] == InstallSteps(c, l, HeadCount(c, l))[..k];
    if k == 0 {
      NextInstall(c, l, 0);
    } else {
      InstallStepAt(c, l, HeadCount(c, l), k - 1);
    }
  }

  lemma CutCleared(c: Disk, l: Layout, w: seq<Disk>)
    requires WellFormed(c, l)
    ensures var k := HeadCount(c, l);
            CutRecovery(c, l, k + 1, w, w + InstallSteps(c, l, k) + [Recovered(c, l)], Recovered(c, l))
  {
    hide Installed, Recovered;
    var k := HeadCount(c, l);
    assert RecoverySteps(c, l)[..k + 1] == InstallSteps(c, l, k) + [Recovered(c, l)];
  }

  lemma RecoveryLength(c: Disk, l: Layout)
    requires WellFormed(c, l)
    ensures |RecoverySteps(c, l)| == HeadCount(c, l) + 1
  {
  }

  /** The writes of a commit up to its commit point, and then of a recovery. */
  lemma CutJoined(d: Disk, l: Layout, blocks: seq<word>, data: seq<Block>, m: nat,
                  w: seq<Disk>, mid: seq<Disk>, writes: seq<Disk>, disk: Disk)
    requires Transaction(d, l, blocks, data) && WellFormed(Committed(d, l, blocks, data), l)
    requires CutCommit(d, l, blocks, data, |data| + 1, w, mid, Committed(d, l, blocks, data))
    requires CutRecovery(Committed(d, l, blocks, data), l, m, mid, writes, disk)
    ensures CutCommit(d, l, blocks, data, |data| + 1 + m, w, writes, disk)
    ensures |CommitSteps(d, l, blocks, data)| == |data| + 1 + |RecoverySteps(Committed(d, l, blocks, data), l)|
  {
    hide RecoverySteps, Committed, FillSteps;
    var c := Committed(d, l, blocks, data);
    var steps := CommitSteps(d, l, blocks, data);
    assert steps[..|data| + 1] + RecoverySteps(c, l)[..m] == steps[..|data| + 1 + m];
  }

  lemma LoggedNow(disk: Disk, buf: seq<Buf>, view: Disk, logged: map<nat, Block>, b: nat)
    requires Coherent(disk, buf, view) && PinnedAsLogged(buf, logged)
    requires b < |buf| && buf[b].locked && buf[b].valid
    ensures PinnedAsLogged(buf[b := buf[b].(dirty := true)], logged[buf[b].blockno := buf[b].data])
    ensures buf[b].blockno < |disk|
  {
    forall i | 0 <= i < |buf| && i != b && buf[i].dirty
      ensures buf[i].blockno != buf[b].blockno
    {
      assert !buf[i].Holds(buf[b].dev, buf[b].blockno);
    }
  }

  lemma ReleasedAsLogged(disk: Disk, buf: seq<Buf>, view: Disk, logged: map<nat, Block>, b: nat)
    requires Coherent(disk, buf, view) && PinnedAsLogged(buf, logged) && logged.Keys == DirtyBlocks(buf)
    requires b < |buf| && buf[b].locked && buf[b].valid && buf[b].blockno < |disk|
    requires buf[b].data ==
             if buf[b].dirty && buf[b].blockno in logged then logged[buf[b].blockno] else disk[buf[b].blockno]
    ensures buf[b].refcnt > 0 && Settled(buf[b], disk) && PinnedAsLogged(buf[b := Released(buf[b])], logged)
  {
    assert BufferOk(buf[b], disk, view);
    assert buf[b].dirty ==> buf[b].blockno in DirtyBlocks(buf);
  }

  lemma InRange(disk: Disk, buf: seq<Buf>, view: Disk, b: nat)
    requires Coherent(disk, buf, view) && b < |buf| && buf[b].valid
    ensures buf[b].blockno < |disk|
  {
  }

  /** Overwriting an entry with itself, or adding one at the end. */
  lemma Absorbed(block: seq<word>, n: nat, i: nat, x: word)
    requires i <= n <= |block| && i < |block| && (i < n ==> block[i] == x)
    requires forall j :: 0 <= j < i ==> block[j] != x
    ensures BlockSet(block[i := x], 0, if i == n then n + 1 else n) == BlockSet(block, 0, n) + {x}
    ensures x in BlockSet(block, 0, n) <==> i < n
  {
    var n', block' := if i == n then n + 1 else n, block[i := x];
    forall y: nat | y in BlockSet(block, 0, n) + {x}
      ensures y in BlockSet(block', 0, n')
    {
      if y == x {
        assert block'[i] == y;
      } else {
        var j :| 0 <= j < n && block[j] == y;
        assert block'[j] == y;
      }
    }
  }

  ghost function BlockSet(block: seq<word>, from: nat, to: nat): set<nat>
    requires to <= |block|
  {
    set i | from <= i < to :: block[i]
  }

  ghost predicate PinnedAsLogged(buf: seq<Buf>, logged: map<nat, Block>) {
    forall i :: 0 <= i < |buf| && buf[i].dirty && !buf[i].locked
      ==> buf[i].blockno in logged && buf[i].data == logged[buf[i].blockno]
  }

  lemma HomeKept(d: Disk, v: Disk, e: Disk, l: Layout, blocks: seq<word>)
    requires SameExcept(v, d, blocks) && (forall i :: 0 <= i < |blocks| ==> blocks[i] < |v|)
    requires Transaction(d, l, blocks, Contents(v, blocks))
    requires AllAfter(e, d, l, blocks, Contents(v, blocks))
    ensures SameHome(e, v, l)
  {
    forall x | 0 <= x < |e| && !l.Within(x)
      ensures e[x] == v[x]
    {
      if x in blocks {
        var i :| 0 <= i < |blocks| && blocks[i] == x;
        assert e[blocks[i]] == Contents(v, blocks)[i];
      }
    }
  }

  ghost predicate SameExcept(v: Disk, d: Disk, blocks: seq<word>) {
    |v| == |d| && forall x :: 0 <= x < |d| && x !in blocks ==> v[x] == d[x]
  }

  lemma CommittedIs(d: Disk, l: Layout, blocks: seq<word>, data: seq<Block>)
    requires Transaction(d, l, blocks, data)
    ensures var e := Filled(d, l, data, |data|);
            Committed(d, l, blocks, data) == e[l.start := Headed(e[l.start], blocks, |blocks|)]
  {
    FilledAt(d, l, data, |data|);
  }

  lemma NextInstall(d: Disk, l: Layout, k: nat)
    requires WellFormed(d, l) && k <= HeadCount(d, l)
    ensures k == 0 ==> Installed(d, l, k) == d && InstallSteps(d, l, k) == []
    ensures k > 0 ==>
              && Installed(d, l, k) ==
                   Installed(d, l, k - 1)[HeadBlock(d, l, k - 1) := Installed(d, l, k - 1)[l.start + k]]
              && InstallSteps(d, l, k) == InstallSteps(d, l, k - 1) + [Installed(d, l, k)]
  {
    assert l.Within(l.start + k);
  }

  lemma NextFill(d: Disk, l: Layout, data: seq<Block>, k: nat)
    requires l.start + l.size <= |d| && k <= |data| < l.size
    ensures k == 0 ==> Filled(d, l, data, k) == d && FillSteps(d, l, data, k) == []
    ensures k > 0 ==>
              && Filled(d, l, data, k) == Filled(d, l, data, k - 1)[l.start + k := data[k - 1]]
              && FillSteps(d, l, data, k) == FillSteps(d, l, data, k - 1) + [Filled(d, l, data, k)]
  {
  }

  function Contents(view: Disk, blocks: seq<word>): seq<Block>
    requires forall i :: 0 <= i < |blocks| ==> blocks[i] < |view|
  {
    seq(|blocks|, i requires 0 <= i < |blocks| => view[blocks[i]])
  }

  lemma PendingNext(block: seq<word>, tail: nat, n: nat)
    requires tail < n <= |block|
    ensures (forall i, j :: 0 <= i < j < n ==> block[i] != block[j]) ==>
              BlockSet(block, tail, n) - {block[tail]} == BlockSet(block, tail + 1, n)
  {
  }
}
