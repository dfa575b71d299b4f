/** The redo log as a format on the disk: what recovery makes of a disk, the disks that
    commit and recovery pass through, and why a crash at any of them is harmless. */
module CrashRecovery {
  import opened Blocks

  const MAXOPBLOCKS: nat := 10
  const LOGSIZE: nat := 3 * MAXOPBLOCKS

  /** Where the log is: a header block, then `size - 1` data slots. */
  datatype Layout = Layout(start: nat, size: nat)
  {
    predicate Within(n: nat) {
      start <= n < start + size
    }
  }

  function HeadCount(d: Disk, l: Layout): nat
    requires l.start < |d|
  {
    Word(d[l.start], 0)
  }

  function HeadBlock(d: Disk, l: Layout, i: nat): nat
    requires l.start < |d| && i < LOGSIZE
  {
    Word(d[l.start], 1 + i)
  }

  /** The log fits on the disk and its header names home blocks only. */
  ghost predicate WellFormed(d: Disk, l: Layout) {
    && 0 < l.size && l.start + l.size <= |d|
    && HeadCount(d, l) <= LOGSIZE && HeadCount(d, l) < l.size
    && (forall i :: 0 <= i < HeadCount(d, l) ==> HeadBlock(d, l, i) < |d| && !l.Within(HeadBlock(d, l, i)))
  }

  /** Two disks with the same file system: they may differ in the log only. */
  ghost predicate SameHome(d: Disk, e: Disk, l: Layout) {
    |d| == |e| && forall x :: 0 <= x < |d| && !l.Within(x) ==> d[x] == e[x]
  }

  /** The disk once the first k logged blocks are copied to their homes. */
  ghost function Installed(d: Disk, l: Layout, k: nat): (e: Disk)
    requires WellFormed(d, l) && k <= HeadCount(d, l)
    ensures |e| == |d| && forall x :: 0 <= x < |d| && l.Within(x) ==> e[x] == d[x]
  {
    if k == 0 then d else Installed(d, l, k - 1)[HeadBlock(d, l, k - 1) := d[l.start + k]]
  }

  ghost function Cleared(d: Disk, l: Layout): Disk
    requires l.start < |d|
  {
    d[l.start := PutWord(d[l.start], 0, 0)]
  }

  /** The disk that an uninterrupted recovery leaves. */
  ghost function Recovered(d: Disk, l: Layout): (e: Disk)
    requires WellFormed(d, l)
    ensures |e| == |d|
  {
    Cleared(Installed(d, l, HeadCount(d, l)), l)
  }

  /** The disks after each block write of a recovery. */
  ghost function RecoverySteps(d: Disk, l: Layout): seq<Disk>
    requires WellFormed(d, l)
  {
    InstallSteps(d, l, HeadCount(d, l)) + [Recovered(d, l)]
  }

  ghost function InstallSteps(d: Disk, l: Layout, k: nat): (steps: seq<Disk>)
    requires WellFormed(d, l) && k <= HeadCount(d, l)
    ensures |steps| == k
  {
    if k == 0 then [] else InstallSteps(d, l, k - 1) + [Installed(d, l, k)]
  }

  lemma {:induction false} InstallStepAt(d: Disk, l: Layout, n: nat, k: nat)
    requires WellFormed(d, l) && k < n <= HeadCount(d, l)
    ensures InstallSteps(d, l, n)[k] == Installed(d, l, k + 1)
  {
    if k < n - 1 {
      InstallStepAt(d, l, n - 1, k);
    }
  }

  /** `e` is a disk on which a recovery started from `d` may be cut short. */
  ghost predicate Interrupted(d: Disk, e: Disk, l: Layout)
    requires WellFormed(d, l)
  {
    e == d || e in RecoverySteps(d, l)
  }

  /** A recovery cut short, then another, and so on. */
  ghost predicate Restarts(chain: seq<Disk>, l: Layout) {
    && |chain| > 0 && (forall i :: 0 <= i < |chain| ==> WellFormed(chain[i], l))
    && forall i :: 0 <= i < |chain| - 1 ==> Interrupted(chain[i], chain[i + 1], l)
  }

  lemma {:induction false} InstalledElsewhere(d: Disk, l: Layout, k: nat, x: nat)
    requires WellFormed(d, l) && k <= HeadCount(d, l) && x < |d|
    requires forall i :: 0 <= i < k ==> HeadBlock(d, l, i) != x
    ensures Installed(d, l, k)[x] == d[x]
  {
    if k > 0 {
      InstalledElsewhere(d, l, k - 1, x);
    }
  }

  /** Installing depends on the log alone wherever it writes. */
  lemma {:induction false} InstalledAgree(d: Disk, e: Disk, l: Layout, k: nat, x: nat)
    requires WellFormed(d, l) && WellFormed(e, l) && |d| == |e|
    requires forall y :: 0 <= y < |d| && l.Within(y) ==> d[y] == e[y]
    requires k <= HeadCount(d, l) && x < |d|
    requires d[x] == e[x] || exists i :: 0 <= i < k && HeadBlock(d, l, i) == x
    ensures Installed(d, l, k)[x] == Installed(e, l, k)[x]
  {
    if k > 0 && HeadBlock(d, l, k - 1) != x {
      InstalledAgree(d, e, l, k - 1, x);
    }
  }

  lemma InstallingKeepsFormat(d: Disk, l: Layout, k: nat)
    requires WellFormed(d, l) && k <= HeadCount(d, l)
    ensures WellFormed(Installed(d, l, k), l)
    ensures HeadCount(Installed(d, l, k), l) == HeadCount(d, l)
  {
    assert l.Within(l.start);
    var e := Installed(d, l, k);
    assert forall i :: 0 <= i < HeadCount(d, l) ==> HeadBlock(e, l, i) == HeadBlock(d, l, i);
  }

  /** Recovery starts over with the same outcome, wherever its installation was cut. */
  lemma ReinstalledSame(d: Disk, l: Layout, k: nat)
    requires WellFormed(d, l) && k <= HeadCount(d, l)
    ensures WellFormed(Installed(d, l, k), l)
    ensures SameHome(Recovered(Installed(d, l, k), l), Recovered(d, l), l)
  {
    InstallingKeepsFormat(d, l, k);
    var e, n := Installed(d, l, k), HeadCount(d, l);
    forall x | 0 <= x < |d| && !l.Within(x)
      ensures Installed(e, l, n)[x] == Installed(d, l, n)[x]
    {
      if forall i :: 0 <= i < k ==> HeadBlock(d, l, i) != x {
        InstalledElsewhere(d, l, k, x);
      }
      InstalledAgree(d, e, l, n, x);
    }
  }

  /** A recovered disk has an empty log, and recovering it again changes nothing at home. */
  lemma RecoveredIsStable(d: Disk, l: Layout)
    requires WellFormed(d, l)
    ensures WellFormed(Recovered(d, l), l)
    ensures HeadCount(Recovered(d, l), l) == 0
    ensures SameHome(Recovered(Recovered(d, l), l), Recovered(d, l), l)
  {
    assert l.Within(l.start);
  }

  lemma StepKeepsHome(d: Disk, l: Layout, k: nat)
    requires WellFormed(d, l) && k <= HeadCount(d, l)
    ensures var e := RecoverySteps(d, l)[k];
            WellFormed(e, l) && SameHome(Recovered(e, l), Recovered(d, l), l)
  {
    hide SameHome, Installed, InstallSteps, Recovered;
    if k < HeadCount(d, l) {
      InstallStepAt(d, l, HeadCount(d, l), k);
      assert RecoverySteps(d, l)[k] == Installed(d, l, k + 1);
      ReinstalledSame(d, l, k + 1);
    } else {
      RecoveredIsStable(d, l);
    }
  }

  lemma InterruptedKeepsHome(d: Disk, e: Disk, l: Layout)
    requires WellFormed(d, l) && Interrupted(d, e, l)
    ensures WellFormed(e, l) && SameHome(Recovered(e, l), Recovered(d, l), l)
  {
    if e != d {
      var k :| 0 <= k < |RecoverySteps(d, l)| && RecoverySteps(d, l)[k] == e;
      StepKeepsHome(d, l, k);
    }
  }

  /** Any number of recoveries cut short, then a complete one, end where one
      uninterrupted recovery would have ended. */
  lemma {:induction false} RestartsKeepHome(chain: seq<Disk>, l: Layout)
    requires Restarts(chain, l)
    ensures SameHome(Recovered(chain[|chain| - 1], l), Recovered(chain[0], l), l)
  {
    if |chain| > 1 {
      var shorter := chain[..|chain| - 1];
      forall i | 0 <= i < |shorter| - 1
        ensures Interrupted(shorter[i], shorter[i + 1], l)
      {
        assert Interrupted(chain[i], chain[i + 1], l);
      }
      RestartsKeepHome(shorter, l);
      assert Interrupted(chain[|chain| - 2], chain[|chain| - 2 + 1], l);
      InterruptedKeepsHome(chain[|chain| - 2], chain[|chain| - 1], l);
    }
  }

  /** A transaction: the home blocks it writes, each once, and their new contents. */
  ghost predicate Transaction(d: Disk, l: Layout, blocks: seq<word>, data: seq<Block>) {
    && 0 < l.size && l.start + l.size <= |d|
    && |blocks| == |data| <= LOGSIZE && |blocks| < l.size
    && (forall i :: 0 <= i < |blocks| ==> blocks[i] < |d| && !l.Within(blocks[i]))
    && (forall i, j :: 0 <= i < j < |blocks| ==> blocks[i] != blocks[j])
  }

  /** The disk with the first k blocks of the transaction in its log slots. */
  ghost function Filled(d: Disk, l: Layout, data: seq<Block>, k: nat): (e: Disk)
    requires l.start + l.size <= |d| && k <= |data| < l.size
    ensures |e| == |d|
  {
    if k == 0 then d else Filled(d, l, data, k - 1)[l.start + k := data[k - 1]]
  }

  lemma {:induction false} FilledAt(d: Disk, l: Layout, data: seq<Block>, k: nat)
    requires l.start + l.size <= |d| && k <= |data| < l.size
    ensures forall x :: 0 <= x < |d| && !(l.start < x <= l.start + k) ==> Filled(d, l, data, k)[x] == d[x]
    ensures forall i :: 0 <= i < k ==> Filled(d, l, data, k)[l.start + 1 + i] == data[i]
  {
    if k > 0 {
      FilledAt(d, l, data, k - 1);
    }
  }

  /** write_head: the count, then the first k block numbers, over the old header. */
  function Headed(b: Block, blocks: seq<word>, k: nat): (h: Block)
    requires k <= |blocks| <= LOGSIZE
    ensures Word(h, 0) == |blocks|
    ensures forall i :: 0 <= i < k ==> Word(h, 1 + i) == blocks[i]
  {
    if k == 0 then PutWord(b, 0, |blocks|) else PutWord(Headed(b, blocks, k - 1), k, blocks[k - 1])
  }

  /** The disk at the instant the transaction commits: log filled and header written. */
  ghost function Committed(d: Disk, l: Layout, blocks: seq<word>, data: seq<Block>): (e: Disk)
    requires Transaction(d, l, blocks, data)
    ensures |e| == |d|
  {
    Filled(d, l, data, |data|)[l.start := Headed(d[l.start], blocks, |blocks|)]
  }

  lemma CommittedWellFormed(d: Disk, l: Layout, blocks: seq<word>, data: seq<Block>)
    requires Transaction(d, l, blocks, data)
    ensures var e := Committed(d, l, blocks, data);
            && WellFormed(e, l) && HeadCount(e, l) == |blocks|
            && (forall i :: 0 <= i < |blocks| ==> HeadBlock(e, l, i) == blocks[i] && e[l.start + 1 + i] == data[i])
            && SameHome(e, d, l)
  {
    var e := Committed(d, l, blocks, data);
    FilledAt(d, l, data, |data|);
    assert forall i :: 0 <= i < |blocks| ==> HeadBlock(e, l, i) == blocks[i];
  }

  /** The disks after each block write of a commit. */
  ghost function CommitSteps(d: Disk, l: Layout, blocks: seq<word>, data: seq<Block>): seq<Disk>
    requires Transaction(d, l, blocks, data)
  {
    CommittedWellFormed(d, l, blocks, data);
    FillSteps(d, l, data, |data|) + [Committed(d, l, blocks, data)] + RecoverySteps(Committed(d, l, blocks, data), l)
  }

  ghost function FillSteps(d: Disk, l: Layout, data: seq<Block>, k: nat): (steps: seq<Disk>)
    requires l.start + l.size <= |d| && k <= |data| < l.size
    ensures |steps| == k
  {
    if k == 0 then [] else FillSteps(d, l, data, k - 1) + [Filled(d, l, data, k)]
  }

  lemma {:induction false} FillStepAt(d: Disk, l: Layout, data: seq<Block>, n: nat, k: nat)
    requires l.start + l.size <= |d| && k < n <= |data| < l.size
    ensures FillSteps(d, l, data, n)[k] == Filled(d, l, data, k + 1)
  {
    if k < n - 1 {
      FillStepAt(d, l, data, n - 1, k);
    }
  }

  /** All of the transaction is on the home blocks of `e`, and nothing else changed from `d`. */
  ghost predicate AllAfter(e: Disk, d: Disk, l: Layout, blocks: seq<word>, data: seq<Block>)
    requires Transaction(d, l, blocks, data)
  {
    && |e| == |d|
    && (forall i :: 0 <= i < |blocks| ==> e[blocks[i]] == data[i])
    && (forall x :: 0 <= x < |d| && !l.Within(x) && (forall i :: 0 <= i < |blocks| ==> blocks[i] != x) ==> e[x] == d[x])
  }

  lemma {:induction false} InstalledTarget(d: Disk, l: Layout, k: nat, i: nat)
    requires WellFormed(d, l) && i < k <= HeadCount(d, l)
    requires forall j :: i < j < k ==> HeadBlock(d, l, j) != HeadBlock(d, l, i)
    ensures Installed(d, l, k)[HeadBlock(d, l, i)] == d[l.start + 1 + i]
  {
    if i < k - 1 {
      InstalledTarget(d, l, k - 1, i);
    }
  }

  lemma CommittedRecoversAll(d: Disk, l: Layout, blocks: seq<word>, data: seq<Block>)
    requires Transaction(d, l, blocks, data)
    ensures WellFormed(Committed(d, l, blocks, data), l)
    ensures AllAfter(Recovered(Committed(d, l, blocks, data), l), d, l, blocks, data)
  {
    CommittedWellFormed(d, l, blocks, data);
    var e, n := Committed(d, l, blocks, data), |blocks|;
    var f := Installed(e, l, n);
    forall i | 0 <= i < n
      ensures f[blocks[i]] == data[i]
    {
      InstalledTarget(e, l, n, i);
    }
    forall x | 0 <= x < |d| && !l.Within(x) && (forall i :: 0 <= i < n ==> blocks[i] != x)
      ensures f[x] == d[x]
    {
      InstalledElsewhere(e, l, n, x);
    }
  }

  /** The disk on which a commit crashes after `j` of its block writes. */
  ghost function CrashDisk(d: Disk, l: Layout, blocks: seq<word>, data: seq<Block>, j: nat): Disk
    requires Transaction(d, l, blocks, data) && j <= |CommitSteps(d, l, blocks, data)|
  {
    if j == 0 then d else CommitSteps(d, l, blocks, data)[j - 1]
  }

  /** Before the header is written the log is still empty. */
  lemma CrashBeforeCommit(d: Disk, l: Layout, blocks: seq<word>, data: seq<Block>, j: nat)
    requires Transaction(d, l, blocks, data) && HeadCount(d, l) == 0 && j <= |blocks|
    ensures var e := CrashDisk(d, l, blocks, data, j);
            WellFormed(e, l) && SameHome(Recovered(e, l), d, l)
  {
    FilledAt(d, l, data, j);
    if j > 0 {
      FillStepAt(d, l, data, |blocks|, j - 1);
    }
    assert CrashDisk(d, l, blocks, data, j) == Filled(d, l, data, j);
  }

  lemma CrashAfterCommit(d: Disk, l: Layout, blocks: seq<word>, data: seq<Block>, j: nat)
    requires Transaction(d, l, blocks, data)
    requires |blocks| < j <= |CommitSteps(d, l, blocks, data)|
    ensures var e := CrashDisk(d, l, blocks, data, j);
            WellFormed(e, l) && AllAfter(Recovered(e, l), d, l, blocks, data)
  {
    hide AllAfter, WellFormed, SameHome, Committed, Recovered;
    CommittedRecoversAll(d, l, blocks, data);
    var c, n := Committed(d, l, blocks, data), |blocks|;
    if j > n + 1 {
      assert CrashDisk(d, l, blocks, data, j) == RecoverySteps(c, l)[j - n - 2];
      hide CommitSteps;
      StepKeepsHome(c, l, j - n - 2);
      AllAfterSame(Recovered(CrashDisk(d, l, blocks, data, j), l), Recovered(c, l), d, l, blocks, data);
    }
  }

  lemma AllAfterSame(e: Disk, f: Disk, d: Disk, l: Layout, blocks: seq<word>, data: seq<Block>)
    requires Transaction(d, l, blocks, data) && SameHome(e, f, l) && AllAfter(f, d, l, blocks, data)
    ensures AllAfter(e, d, l, blocks, data)
  {
  }

  /** Crash atomicity: whatever block write of a commit the crash follows, and however many
      recoveries are cut short after it, the next complete recovery leaves the home blocks
      all before the transaction or all after it. The header write is the commit point. */
  lemma CommitIsAtomic(d: Disk, l: Layout, blocks: seq<word>, data: seq<Block>, j: nat, chain: seq<Disk>)
    requires Transaction(d, l, blocks, data) && HeadCount(d, l) == 0
    requires j <= |CommitSteps(d, l, blocks, data)|
    requires Restarts(chain, l) && chain[0] == CrashDisk(d, l, blocks, data, j)
    ensures var e := Recovered(chain[|chain| - 1], l);
            if j <= |blocks| then SameHome(e, d, l) else AllAfter(e, d, l, blocks, data)
  {
    if j <= |blocks| {
      CrashBeforeCommit(d, l, blocks, data, j);
    } else {
      CrashAfterCommit(d, l, blocks, data, j);
    }
    RestartsKeepHome(chain, l);
  }
}
