/** Giving back the blocks of one inode, one reference after another. */
module Truncation {
  import opened Blocks
  import opened BlockOwners
  import opened InodeTable
  import opened FileContents

  /** The first k references of inode i have been freed; nothing but bitmap blocks changed. */
  ghost predicate Freeing(sb: Super, blk0: seq<Block>, ino0: seq<Inode>, blk: seq<Block>, i: nat, k: nat) {
    && Consistent(sb, blk0, ino0) && i < |ino0| && k <= MAXFILE + 1 && |blk| == sb.size
    && (forall x :: 0 <= x < sb.size && !(sb.bmapstart <= x < sb.meta) ==> blk[x] == blk0[x])
    && BitsFreed(UsedBits(sb, blk0), RefTable(blk0, ino0)[i], UsedBits(sb, blk), k)
  }

  ghost predicate BitsFreed(used0: seq<bool>, row: seq<nat>, used: seq<bool>, k: nat)
    requires k <= |row|
  {
    (forall c :: 0 <= c < |row| ==> row[c] == 0 || row[c] < |used0|) && used == Freed(used0, row, k)
  }

  lemma FreeingBegins(sb: Super, blk: seq<Block>, ino: seq<Inode>, i: nat)
    requires Consistent(sb, blk, ino) && i < |ino|
    ensures Freeing(sb, blk, ino, blk, i, 0)
  {
    RowInRange(RefTable(blk, ino), UsedBits(sb, blk), sb.meta, i);
  }

  /** The next reference is empty, or its block is still marked in use. */
  lemma FreeNext(sb: Super, blk0: seq<Block>, ino0: seq<Inode>, blk: seq<Block>, i: nat, k: nat)
    requires Freeing(sb, blk0, ino0, blk, i, k) && k <= MAXFILE
    ensures var b := Ref(blk0, ino0[i], k);
            && (b == 0 ==> Freeing(sb, blk0, ino0, blk, i, k + 1))
            && (b != 0 ==> b < sb.size && InUse(sb, blk, b)
                           && Freeing(sb, blk0, ino0, SetInUse(sb, blk, b, false), i, k + 1))
  {
    var t, used0, used, b := RefTable(blk0, ino0), UsedBits(sb, blk0), UsedBits(sb, blk), Ref(blk0, ino0[i], k);
    RefAt(blk0, ino0, i, k);
    FreeingIsSafe(t, used0, sb.meta, i, k);
    if b != 0 {
      RefIsData(sb, blk0, ino0, i, k);
      assert used[b];
      BitmapInRange(sb, b);
      FlippedBit(sb, blk, b, false);
    }
  }

  /** An inode without an indirect block has nothing more to free. */
  lemma {:induction false} FreeRest(sb: Super, blk0: seq<Block>, ino0: seq<Inode>, blk: seq<Block>, i: nat, k: nat)
    requires Freeing(sb, blk0, ino0, blk, i, k) && NDIRECT <= k && ino0[i].addrs[NDIRECT] == 0
    ensures Freeing(sb, blk0, ino0, blk, i, MAXFILE + 1)
    decreases MAXFILE + 1 - k
  {
    if k <= MAXFILE {
      FreeNext(sb, blk0, ino0, blk, i, k);
      FreeRest(sb, blk0, ino0, blk, i, k + 1);
    }
  }

  /** The indirect block still holds the references that remain to be freed. */
  lemma EntriesKept(sb: Super, blk0: seq<Block>, ino0: seq<Inode>, blk: seq<Block>, i: nat, k: nat)
    requires Freeing(sb, blk0, ino0, blk, i, k) && ino0[i].addrs[NDIRECT] != 0
    ensures var x := ino0[i].addrs[NDIRECT];
            && x < |blk| && Ref(blk0, ino0[i], MAXFILE) == x
            && forall j :: 0 <= j < NINDIRECT ==> Word(blk[x], j) == Ref(blk0, ino0[i], NDIRECT + j)
  {
    hide Owned, UsedBits, RefTable;
    RefIsData(sb, blk0, ino0, i, MAXFILE);
  }

  /** The inode with no blocks. */
  function Truncated(ip: Inode): Inode {
    ip.(addrs := [0, 0, 0, 0, 0, 0, 0, 0, 0, 0], size := 0)
  }

  /** Inode i has lost its first k addresses and is otherwise as it was. */
  ghost predicate Cleared(ino0: seq<Inode>, ino: seq<Inode>, i: nat, k: nat) {
    && i < |ino0| == |ino| && |ino0[i].addrs| == |ino[i].addrs| == NDIRECT + 1
    && ino == ino0[i := ino0[i].(addrs := ino[i].addrs)]
    && (forall t :: 0 <= t < k && t <= NDIRECT ==> ino[i].addrs[t] == 0)
    && (forall t :: k <= t <= NDIRECT ==> ino[i].addrs[t] == ino0[i].addrs[t])
  }

  lemma ClearNext(ino0: seq<Inode>, ino: seq<Inode>, i: nat, k: nat)
    requires Cleared(ino0, ino, i, k) && k <= NDIRECT
    ensures Cleared(ino0, WithAddr(ino, i, k, 0), i, k + 1)
  {
  }

  lemma ClearedAll(ino0: seq<Inode>, ino: seq<Inode>, i: nat)
    requires Cleared(ino0, ino, i, NDIRECT + 1) && ino0[i].Fits()
    ensures Blockless(ino[i])
    ensures ino[i := ino[i].(size := 0)] == ino0[i := Truncated(ino0[i])]
  {
    assert ino[i].addrs == [0, 0, 0, 0, 0, 0, 0, 0, 0, 0];
  }

  lemma TruncatedTable(blk: seq<Block>, ino: seq<Inode>, i: nat, ip: Inode)
    requires Readable(blk, ino) && i < |ino| && 0 < |blk| && Blockless(ip)
    ensures var ino' := ino[i := ip];
            Readable(blk, ino') && RefTable(blk, ino') == Emptied(RefTable(blk, ino), i, MAXFILE + 1)
  {
    var t, ino' := RefTable(blk, ino), ino[i := ip];
    EmptiedAt(t, i, MAXFILE + 1);
    var t' := Emptied(t, i, MAXFILE + 1);
    hide Emptied;
    assert Refs(blk, ip) == t'[i];
    assert RefTable(blk, ino') == t';
  }

  ghost predicate Blockless(ip: Inode) {
    ip.Fits() && forall t :: 0 <= t <= NDIRECT ==> ip.addrs[t] == 0
  }

  /** Everything freed: the inode without its blocks is consistent with the new bitmap. */
  lemma FreedConsistent(sb: Super, blk0: seq<Block>, ino0: seq<Inode>, blk: seq<Block>, i: nat, ip: Inode)
    requires Freeing(sb, blk0, ino0, blk, i, MAXFILE + 1) && Blockless(ip)
    ensures Consistent(sb, blk, ino0[i := ip])
  {
    assert |RefTable(blk0, ino0)| == |ino0|;
    hide Owned, RefTable, UsedBits, Freed, Emptied;
    DataUntouched(sb, blk0, ino0, blk);
    TruncatedTable(blk, ino0, i, ip);
    FreeingIsSafe(RefTable(blk0, ino0), UsedBits(sb, blk0), sb.meta, i, MAXFILE + 1);
  }

  lemma FreedAll(sb: Super, blk0: seq<Block>, ino0: seq<Inode>, blk: seq<Block>, i: nat, ino: seq<Inode>)
    requires Freeing(sb, blk0, ino0, blk, i, MAXFILE + 1) && Cleared(ino0, ino, i, NDIRECT + 1)
    ensures OthersKept(sb, blk0, ino0, blk, ino, i)
  {
    hide Owned, RefTable, UsedBits, BitsFreed, Ref, FileBlock;
    ClearedAll(ino0, ino, i);
    FreedConsistent(sb, blk0, ino0, blk, i, ino[i]);
    assert Readable(blk0, ino0) && Readable(blk, ino) && |blk| == |blk0| == sb.size;
    assert forall x :: sb.meta <= x < sb.size ==> blk[x] == blk0[x];
    assert forall x :: sb.inodestart <= x < sb.bmapstart ==> blk[x] == blk0[x];
    assert |ino| == |ino0| && forall j :: 0 <= j < |ino0| && j != i ==> ino[j] == ino0[j];
    assert i < |ino0| && Consistent(sb, blk, ino);
    hide Freeing, Consistent, Cleared, OthersKept;
    AllUntouched(sb, blk0, ino0, blk, i, ino);
  }

  lemma AllUntouched(sb: Super, blk0: seq<Block>, ino0: seq<Inode>, blk: seq<Block>, i: nat, ino: seq<Inode>)
    requires Consistent(sb, blk0, ino0) && Consistent(sb, blk, ino) && i < |ino0| == |ino|
    requires forall j :: 0 <= j < |ino0| && j != i ==> ino[j] == ino0[j]
    requires forall x :: sb.meta <= x < sb.size ==> blk[x] == blk0[x]
    requires forall x :: sb.inodestart <= x < sb.bmapstart ==> blk[x] == blk0[x]
    ensures OthersKept(sb, blk0, ino0, blk, ino, i)
  {
    hide Owned, RefTable, UsedBits, Ref, FileBlock;
    assert Readable(blk0, ino0) && Readable(blk, ino) && |blk| == |blk0| == sb.size;
    forall j, k | 0 <= j < |ino0| && j != i && 0 <= k <= MAXFILE && Ref(blk0, ino0[j], k) != 0
      ensures Ref(blk, ino[j], k) == Ref(blk0, ino0[j], k)
    {
      OneUntouched(sb, blk0, ino0, blk, j, k);
    }
    forall j, k | 0 <= j < |ino0| && j != i && 0 <= k < MAXFILE && Ref(blk0, ino0[j], k) != 0
      ensures FileBlock(blk, ino[j], k) == FileBlock(blk0, ino0[j], k)
    {
      OneUntouched(sb, blk0, ino0, blk, j, k);
    }
  }

  lemma OneUntouched(sb: Super, blk0: seq<Block>, ino0: seq<Inode>, blk: seq<Block>, j: nat, k: nat)
    requires Consistent(sb, blk0, ino0) && |blk| == |blk0| && j < |ino0| && k <= MAXFILE && Ref(blk0, ino0[j], k) != 0
    requires forall x :: sb.meta <= x < sb.size ==> blk[x] == blk0[x]
    ensures Ref(blk, ino0[j], k) == Ref(blk0, ino0[j], k)
    ensures k < MAXFILE ==> FileBlock(blk, ino0[j], k) == FileBlock(blk0, ino0[j], k)
  {
    hide Owned, UsedBits, RefTable, Ref, FileBlock;
    DataUntouched(sb, blk0, ino0, blk);
    SameRef(blk0, ino0, blk, j, k);
    if k < MAXFILE {
      SameFileBlock(sb, blk0, ino0, blk, j, k);
    }
  }

  /** Exactly the blocks of inode i are free now that were not before. */
  lemma FreedOnly(sb: Super, blk0: seq<Block>, ino0: seq<Inode>, blk: seq<Block>, i: nat, blk': seq<Block>, b: nat)
    requires Freeing(sb, blk0, ino0, blk, i, MAXFILE + 1) && sb.meta <= b < sb.size
    requires |blk'| == |blk| && UsedBits(sb, blk') == UsedBits(sb, blk)
    ensures InUse(sb, blk', b) <==> InUse(sb, blk0, b) && b !in Refs(blk0, ino0[i])
  {
    var used0, row := UsedBits(sb, blk0), RefTable(blk0, ino0)[i];
    FreedExactly(used0, row, MAXFILE + 1, b);
    assert row == row[..MAXFILE + 1] == Refs(blk0, ino0[i]);
    assert UsedBits(sb, blk')[b] == InUse(sb, blk', b) && used0[b] == InUse(sb, blk0, b);
  }
}
