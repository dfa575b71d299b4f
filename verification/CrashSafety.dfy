/** The file system over the log: file operations committed together are all on the disk after
    a crash and recovery, or none of them is. */
module CrashSafety {
  import opened Blocks
  import opened BlockOwners
  import opened InodeTable
  import opened FileContents
  import opened FileSystem
  import opened LoggedBlocks
  import opened CrashRecovery
  import opened LogBuffers
  import Log

  /** Disk e has the files of (blk, ino): it is sound with the inodes stored on it, and every
      file reads the same. */
  ghost predicate HasFiles(sb: Super, e: Disk, blk: seq<Block>, ino: seq<Inode>) {
    && Sound(sb, blk, ino) && Sound(sb, e, ino)
    && forall i :: 0 <= i < |ino| ==> SameContent(e, blk, ino[i])
  }

  ghost predicate SameContent(e: Disk, blk: seq<Block>, ip: Inode) {
    && |ip.addrs| == NDIRECT + 1 && ip.addrs[NDIRECT] < |e| && ip.addrs[NDIRECT] < |blk| && ip.size <= MAXBYTES
    && Content(e, ip) == Content(blk, ip)
  }

  /** The blocks logged by some of the operations. */
  ghost function AllBlocks(ops: seq<Op>): set<nat> {
    if ops == [] then {} else AllBlocks(ops[..|ops| - 1]) + ops[|ops| - 1].logged
  }

  lemma LoggedUnion(lo: nat, blk: seq<Block>, a: set<nat>, blk1: seq<Block>, b: set<nat>, blk2: seq<Block>)
    requires AllLogged(lo, blk, {}, blk1, a) && AllLogged(lo, blk1, {}, blk2, b)
    ensures AllLogged(lo, blk, {}, blk2, a + b)
  {
  }

  /** Operations that follow each other have logged all that has changed. */
  lemma {:induction false} GroupLogged(sb: Super, blk0: seq<Block>, ino0: seq<Inode>, ops: seq<Op>, blk: seq<Block>,
                                       ino: seq<Inode>)
    requires Operations(sb, blk0, ino0, ops, blk, ino) && Sound(sb, blk0, ino0)
    ensures AllLogged(sb.inodestart, blk0, {}, blk, AllBlocks(ops)) && Sound(sb, blk, ino)
    decreases |ops|
  {
    hide Sound, AllLogged;
    if ops == [] {
      NothingLogged(sb.inodestart, blk0, {});
    } else {
      var front, op := ops[..|ops| - 1], ops[|ops| - 1];
      GroupLogged(sb, blk0, ino0, front, op.blk0, op.ino0);
      LoggedUnion(sb.inodestart, blk0, AllBlocks(front), op.blk0, op.logged, blk);
    }
  }

  /** The log is not part of the file system. */
  lemma HomeIsAll(sb: Super, l: Layout, e: Disk, blk: seq<Block>, ino: seq<Inode>)
    requires Sound(sb, blk, ino) && SameHome(e, blk, l) && l.start + l.size <= sb.inodestart
    ensures HasFiles(sb, e, blk, ino)
  {
    hide Owned, UsedBits, RefTable, Ref, FileBlock, ByteAt;
    HomeIsConsistent(sb, l, e, blk, ino);
    forall j | 0 <= j < |ino|
      ensures NoHoles(e, ino[j]) && Content(e, ino[j]) == Content(blk, ino[j]) && StoredAs(sb, e, j, ino[j])
    {
      assert NoHoles(blk, ino[j]) && StoredAs(sb, blk, j, ino[j]);
      StoredKept(sb, blk, e, |ino|, j, ino[j]);
      BytesKeptRead(blk, ino, e, ino, j);
    }
  }

  lemma HomeIsConsistent(sb: Super, l: Layout, e: Disk, blk: seq<Block>, ino: seq<Inode>)
    requires Consistent(sb, blk, ino) && SameHome(e, blk, l) && l.start + l.size <= sb.inodestart
    ensures Consistent(sb, e, ino) && BytesKept(blk, ino, e, ino)
  {
    hide Owned, UsedBits, RefTable, InUse, Ref, FileBlock;
    DataUntouched(sb, blk, ino, e);
    SameBits(sb, blk, e);
    forall j, p | 0 <= j < |ino| && 0 <= p && Present(blk, ino[j], p)
      ensures Present(e, ino[j], p) && ByteAt(e, ino[j], p) == ByteAt(blk, ino[j], p)
    {
      SameRef(blk, ino, e, j, p / BSIZE);
      SameFileBlock(sb, blk, ino, e, j, p / BSIZE);
    }
  }

  /** A transaction of exactly the blocks logged, with the contents they have now. */
  ghost predicate TransactionOf(logged: set<nat>, blk: seq<Block>, blocks: seq<word>, data: seq<Block>) {
    && |blocks| == |data|
    && (forall b :: b in logged <==> b in blocks)
    && (forall k :: 0 <= k < |blocks| ==> blocks[k] < |blk| && data[k] == blk[blocks[k]])
  }

  lemma AfterIsNow(sb: Super, l: Layout, d: Disk, e: Disk, blk0: seq<Block>, blk: seq<Block>, logged: set<nat>,
                   blocks: seq<word>, data: seq<Block>)
    requires Transaction(d, l, blocks, data) && SameHome(d, blk0, l) && AllAfter(e, d, l, blocks, data)
    requires AllLogged(sb.inodestart, blk0, {}, blk, logged) && TransactionOf(logged, blk, blocks, data)
    ensures SameHome(e, blk, l)
  {
    forall x | 0 <= x < |e| && !l.Within(x)
      ensures e[x] == blk[x]
    {
      if x in logged {
        assert x in blocks;
        var k :| 0 <= k < |blocks| && blocks[k] == x;
      }
    }
  }

  /** File operations are atomic: after a crash at any block write of the commit of a group of
      them, any number of recoveries cut short, and a complete one, the disk has the files as
      they were before the group, or as they are after it. */
  lemma GroupIsAtomic(sb: Super, l: Layout, d: Disk, blk0: seq<Block>, ino0: seq<Inode>, ops: seq<Op>,
                      blk: seq<Block>, ino: seq<Inode>, blocks: seq<word>, data: seq<Block>, j: nat, chain: seq<Disk>)
    requires Transaction(d, l, blocks, data) && j <= |CommitSteps(d, l, blocks, data)|
    requires Restarts(chain, l) && chain[0] == CrashDisk(d, l, blocks, data, j)
    requires l.start + l.size <= sb.inodestart && SameHome(d, blk0, l) && HeadCount(d, l) == 0
    requires TransactionOf(AllBlocks(ops), blk, blocks, data)
    requires Operations(sb, blk0, ino0, ops, blk, ino) && Sound(sb, blk0, ino0)
    ensures var e := Recovered(chain[|chain| - 1], l);
            if j <= |blocks| then HasFiles(sb, e, blk0, ino0) else HasFiles(sb, e, blk, ino)
  {
    var e := Recovered(chain[|chain| - 1], l);
    hide *;
    CommitIsAtomic(d, l, blocks, data, j, chain);
    GroupLogged(sb, blk0, ino0, ops, blk, ino);
    if j <= |blocks| {
      HomeTrans(e, d, blk0, l);
      HomeIsAll(sb, l, e, blk0, ino0);
    } else {
      AfterIsNow(sb, l, d, e, blk0, blk, AllBlocks(ops), blocks, data);
      HomeIsAll(sb, l, e, blk, ino);
    }
  }

  lemma HomeTrans(d: Disk, e: Disk, f: Disk, l: Layout)
    requires SameHome(d, e, l) && SameHome(e, f, l)
    ensures SameHome(d, f, l)
  {
  }

  /** What the log commits is the blocks of the operations, with the contents they have now. */
  lemma LogHasGroup(log: Log.Log, ops: seq<Op>, blk: seq<Block>)
    requires log.Valid() && log.logged.Keys == AllBlocks(ops) && SameHome(log.bc.view, blk, log.layout)
    ensures TransactionOf(AllBlocks(ops), blk, log.block[..log.n], Log.Contents(log.bc.view, log.block[..log.n]))
  {
    var blocks := log.block[..log.n];
    forall b
      ensures b in AllBlocks(ops) <==> b in blocks
    {
      assert b in AllBlocks(ops) <==> b in log.Homes();
      if b in log.Homes() {
        var k :| 0 <= k < log.n && log.block[k] == b;
        assert blocks[k] == b;
      }
    }
  }

  /** Whatever recoveries follow a crash on disk e, a complete one leaves the files as they were
      before the group or as they are after it. */
  ghost predicate Survives(sb: Super, l: Layout, e: Disk, blk0: seq<Block>, ino0: seq<Inode>, blk: seq<Block>,
                           ino: seq<Inode>)
  {
    forall chain :: Restarts(chain, l) && chain[0] == e ==>
      BeforeOrAfter(sb, l, chain[|chain| - 1], blk0, ino0, blk, ino)
  }

  ghost predicate BeforeOrAfter(sb: Super, l: Layout, e: Disk, blk0: seq<Block>, ino0: seq<Inode>,
                                blk: seq<Block>, ino: seq<Inode>)
  {
    WellFormed(e, l) && (HasFiles(sb, Recovered(e, l), blk0, ino0) || HasFiles(sb, Recovered(e, l), blk, ino))
  }

  /** A group of operations and the log that commits it. */
  ghost predicate GroupOf(sb: Super, l: Layout, d: Disk, blk0: seq<Block>, ino0: seq<Inode>, ops: seq<Op>,
                          blk: seq<Block>, ino: seq<Inode>, blocks: seq<word>, data: seq<Block>)
  {
    && Operations(sb, blk0, ino0, ops, blk, ino) && Sound(sb, blk0, ino0)
    && l.start + l.size <= sb.inodestart && SameHome(d, blk0, l)
    && Transaction(d, l, blocks, data) && HeadCount(d, l) == 0 && TransactionOf(AllBlocks(ops), blk, blocks, data)
  }

  lemma GroupSurvives(sb: Super, l: Layout, d: Disk, blk0: seq<Block>, ino0: seq<Inode>, ops: seq<Op>,
                      blk: seq<Block>, ino: seq<Inode>, blocks: seq<word>, data: seq<Block>, j: nat)
    requires GroupOf(sb, l, d, blk0, ino0, ops, blk, ino, blocks, data) && j <= |CommitSteps(d, l, blocks, data)|
    ensures Survives(sb, l, CrashDisk(d, l, blocks, data, j), blk0, ino0, blk, ino)
  {
    hide Operations, Sound, CommitSteps, HasFiles, TransactionOf, CrashDisk, SameHome, AllBlocks;
    forall chain | Restarts(chain, l) && chain[0] == CrashDisk(d, l, blocks, data, j)
      ensures BeforeOrAfter(sb, l, chain[|chain| - 1], blk0, ino0, blk, ino)
    {
      GroupIsAtomic(sb, l, d, blk0, ino0, ops, blk, ino, blocks, data, j, chain);
    }
  }

  lemma WritesSurvive(sb: Super, l: Layout, d: Disk, blk0: seq<Block>, ino0: seq<Inode>, ops: seq<Op>,
                      blk: seq<Block>, ino: seq<Inode>, blocks: seq<word>, data: seq<Block>, k: nat,
                      w: seq<Disk>, writes: seq<Disk>, disk: Disk)
    requires GroupOf(sb, l, d, blk0, ino0, ops, blk, ino, blocks, data)
    requires Log.CutCommit(d, l, blocks, data, k, w, writes, disk)
    ensures w <= writes && Survives(sb, l, d, blk0, ino0, blk, ino)
    ensures forall e :: e in writes[|w|..] ==> Survives(sb, l, e, blk0, ino0, blk, ino)
  {
    hide Survives, CommitSteps, GroupOf;
    assert Transaction(d, l, blocks, data) by {
      GroupHas(sb, l, d, blk0, ino0, ops, blk, ino, blocks, data);
    }
    GroupSurvives(sb, l, d, blk0, ino0, ops, blk, ino, blocks, data, 0);
    var steps := CommitSteps(d, l, blocks, data);
    assert writes[|w|..] == steps[..k];
    forall e | e in writes[|w|..]
      ensures Survives(sb, l, e, blk0, ino0, blk, ino)
    {
      var m :| 0 <= m < k && steps[m] == e;
      GroupSurvives(sb, l, d, blk0, ino0, ops, blk, ino, blocks, data, m + 1);
    }
  }

  lemma GroupHas(sb: Super, l: Layout, d: Disk, blk0: seq<Block>, ino0: seq<Inode>, ops: seq<Op>,
                 blk: seq<Block>, ino: seq<Inode>, blocks: seq<word>, data: seq<Block>)
    requires GroupOf(sb, l, d, blk0, ino0, ops, blk, ino, blocks, data)
    ensures Transaction(d, l, blocks, data)
  {
  }

  /** end_op of the last operation of a group: on the disk it starts from and on each disk that it
      writes, a crash leaves the files as before the group or as after it; at the end the disk has
      the files as after it, and the log is ready for the next group. */
  method CommitGroup(log: Log.Log, sched: seq<seq<Log.ReaderStep>>, ghost sb: Super, ghost blk0: seq<Block>,
                     ghost ino0: seq<Inode>, ghost ops: seq<Op>, ghost blk: seq<Block>, ghost ino: seq<Inode>)
    returns (ok: bool)
    requires log.Valid() && log.outstanding == 1 && OnlyRead(log.bc.buf, log.bc.disk, log.layout)
    requires Operations(sb, blk0, ino0, ops, blk, ino) && Sound(sb, blk0, ino0)
    requires log.layout.start + log.layout.size <= sb.inodestart
    requires log.logged.Keys == AllBlocks(ops)
    requires SameHome(log.bc.disk, blk0, log.layout) && SameHome(log.bc.view, blk, log.layout)
    modifies log`n, log`outstanding, log`committing, log`logged, log.bc
    ensures old(log.bc.writes) <= log.bc.writes && Survives(sb, log.layout, old(log.bc.disk), blk0, ino0, blk, ino)
    ensures forall e :: e in log.bc.writes[|old(log.bc.writes)|..] ==> Survives(sb, log.layout, e, blk0, ino0, blk, ino)
    ensures ok ==> log.Valid() && log.outstanding == 0 && log.logged == map[]
    ensures ok ==> HasFiles(sb, log.bc.disk, blk, ino)
    ensures ok ==> SameHome(log.bc.disk, blk, log.layout) && SameHome(log.bc.view, blk, log.layout)
  {
    hide Operations, Sound, CommitSteps, HasFiles, TransactionOf, Survives, Log.CutCommit, OnlyRead, Log.Log.Synced,
      AllBlocks;
    LogEmpty(log);
    ghost var d, l, blocks := log.bc.disk, log.layout, log.block[..log.n];
    LogHasGroup(log, ops, blk);
    ghost var data, w, k := Log.Contents(log.bc.view, blocks), log.bc.writes, 0;
    ok, k := log.EndOp(sched);
    WritesSurvive(sb, l, d, blk0, ino0, ops, blk, ino, blocks, data, k, w, log.bc.writes, log.bc.disk);
    if ok {
      HomeTrans(log.bc.view, old(log.bc.view), blk, l);
      GroupLogged(sb, blk0, ino0, ops, blk, ino);
      HomeIsAll(sb, l, log.bc.disk, blk, ino);
    }
  }

  lemma LogEmpty(log: Log.Log)
    requires log.Valid()
    ensures log.n <= |log.block| && log.layout.start < |log.bc.disk| && HeadCount(log.bc.disk, log.layout) == 0
    ensures forall i :: 0 <= i < log.n ==> log.block[..log.n][i] < |log.bc.view|
  {
  }
}
