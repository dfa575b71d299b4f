/** The free-block bitmap, the block references of inodes, and what ties them together:
    every block in use has exactly one owner. */
module BlockOwners {
  import opened Blocks

  const NDIRECT: nat := 9
  const NINDIRECT: nat := WORDS
  const MAXFILE: nat := NDIRECT + NINDIRECT
  const BPB: nat := 8 * BSIZE
  const IPB: nat := 32

  /** The layout of a disk: inode blocks, then the bitmap, then data from `meta` on. */
  datatype Super = Super(size: nat, inodestart: nat, bmapstart: nat, meta: nat)
  {
    predicate Ok(ninodes: nat) {
      && 0 < meta <= size <= 0x1_0000_0000
      && 0 < inodestart && inodestart + ninodes / IPB < bmapstart
      && bmapstart + size / BPB < meta
    }

    /** BBLOCK: the bitmap block with the bit of block b. */
    function BitmapBlock(b: nat): nat {
      b / BPB + bmapstart
    }

    /** IBLOCK: the block with inode i. */
    function InodeBlock(i: nat): nat {
      i / IPB + inodestart
    }
  }

  /** The bit of block b: `data[bi / 8] & (1 << (bi % 8))` in its bitmap block. */
  predicate InUse(sb: Super, blk: seq<Block>, b: nat)
    requires sb.Ok(0) && |blk| == sb.size && b < sb.size
  {
    HasBit(blk[sb.BitmapBlock(b)][b % BPB / 8], b % 8)
  }

  function SetInUse(sb: Super, blk: seq<Block>, b: nat, on: bool): seq<Block>
    requires sb.Ok(0) && |blk| == sb.size && b < sb.size
  {
    var x, at := sb.BitmapBlock(b), b % BPB / 8;
    blk[x := blk[x][at := PutBit(blk[x][at], b % 8, on)]]
  }

  /** Setting or clearing one bit changes the state of that block only. */
  lemma SetInUseFrame(sb: Super, blk: seq<Block>, b: nat, on: bool, c: nat)
    requires sb.Ok(0) && |blk| == sb.size && b < sb.size && c < sb.size
    ensures InUse(sb, SetInUse(sb, blk, b, on), c) == if c == b then on else InUse(sb, blk, c)
  {
    hide HasBit, PutBit;
    var x, at := sb.BitmapBlock(b), b % BPB / 8;
    var y := PutBit(blk[x][at], b % 8, on);
    if c != b && sb.BitmapBlock(c) == x && c % BPB / 8 == at {
      SameByte(b, c);
      assert HasBit(y, c % 8) == HasBit(blk[x][at], c % 8);
    }
  }

  lemma Multiple(k: nat, r: nat)
    ensures (8 * k + r) % 8 == r % 8
  {
  }

  lemma SameByte(b: nat, c: nat)
    requires b != c && b / BPB == c / BPB && b % BPB / 8 == c % BPB / 8
    ensures b % 8 != c % 8
  {
    var q, r, s := b / BPB, b % BPB, c % BPB;
    assert b == BPB * q + r && c == BPB * q + s;
    Multiple(BSIZE * q, r);
    Multiple(BSIZE * q, s);
    assert r == 8 * (r / 8) + r % 8 && s == 8 * (s / 8) + s % 8;
  }

  /** The bitmap lies after the inodes and before the data. */
  lemma BitmapInRange(sb: Super, b: nat)
    requires sb.Ok(0) && b < sb.size
    ensures sb.bmapstart <= sb.BitmapBlock(b) < sb.meta <= sb.size
  {
  }

  /** Block numbers held by the inodes: row i, column k for file block k of inode i, and
      column MAXFILE for its indirect block. Zero is no block. */
  type Table = t: seq<seq<nat>> | forall i :: 0 <= i < |t| ==> |t[i]| == MAXFILE + 1 witness []

  ghost predicate Referenced(t: Table, b: nat) {
    exists i, k :: 0 <= i < |t| && 0 <= k <= MAXFILE && t[i][k] == b
  }

  /** A block is in use if and only if it is metadata or has exactly one reference. */
  ghost predicate Owned(t: Table, used: seq<bool>, meta: nat) {
    && 0 < meta <= |used|
    && (forall b :: 0 <= b < meta ==> used[b])
    && (forall i, k :: 0 <= i < |t| && 0 <= k <= MAXFILE && t[i][k] != 0 ==> meta <= t[i][k] < |used| && used[t[i][k]])
    && (forall i, k, j, m ::
          (0 <= i < |t| && 0 <= k <= MAXFILE && 0 <= j < |t| && 0 <= m <= MAXFILE && t[i][k] != 0 && t[i][k] == t[j][m])
          ==> i == j && k == m)
    && (forall b :: meta <= b < |used| && used[b] ==> Referenced(t, b))
  }

  ghost function Put(t: Table, i: nat, k: nat, b: nat): Table
    requires i < |t| && k <= MAXFILE
  {
    var row: seq<nat> := t[i][k := b];
    t[i := row]
  }

  lemma StillReferenced(t: Table, i: nat, k: nat, b: nat, c: nat)
    requires i < |t| && k <= MAXFILE && t[i][k] != c && Referenced(t, c)
    ensures Referenced(Put(t, i, k, b), c)
  {
    var j, m :| 0 <= j < |t| && 0 <= m <= MAXFILE && t[j][m] == c;
    assert Put(t, i, k, b)[j][m] == c;
  }

  /** Giving a free block to an empty slot. */
  lemma OwnedAdd(t: Table, used: seq<bool>, meta: nat, i: nat, k: nat, b: nat)
    requires Owned(t, used, meta) && i < |t| && k <= MAXFILE && t[i][k] == 0
    requires meta <= b < |used| && !used[b]
    ensures Owned(Put(t, i, k, b), used[b := true], meta)
  {
    var t' := Put(t, i, k, b);
    assert t'[i][k] == b && Referenced(t', b);
    forall c | meta <= c < |used| && used[c]
      ensures Referenced(t', c)
    {
      StillReferenced(t, i, k, b, c);
    }
  }

  /** Taking the block out of a slot and marking it free. */
  lemma OwnedRemove(t: Table, used: seq<bool>, meta: nat, i: nat, k: nat)
    requires Owned(t, used, meta) && i < |t| && k <= MAXFILE && t[i][k] != 0
    ensures Owned(Put(t, i, k, 0), used[t[i][k] := false], meta)
  {
    var t', b := Put(t, i, k, 0), t[i][k];
    assert forall j, m :: 0 <= j < |t| && 0 <= m <= MAXFILE && t'[j][m] != 0 ==>
        t'[j][m] == t[j][m] && (j != i || m != k);
    hide Put, Referenced;
    forall c | meta <= c < |used| && used[c] && c != b
      ensures Referenced(t', c)
    {
      StillReferenced(t, i, k, 0, c);
    }
  }

  /** Row i with its first k columns empty. */
  ghost function Emptied(t: Table, i: nat, k: nat): (r: Table)
    requires i < |t| && k <= MAXFILE + 1
    ensures |r| == |t|
  {
    if k == 0 then t else Put(Emptied(t, i, k - 1), i, k - 1, 0)
  }

  /** The bits after the blocks in the first k columns of a row are freed. */
  ghost function Freed(used: seq<bool>, row: seq<nat>, k: nat): (r: seq<bool>)
    requires k <= |row| && forall c :: 0 <= c < |row| ==> row[c] == 0 || row[c] < |used|
    ensures |r| == |used|
  {
    if k == 0 then used
    else if row[k - 1] == 0 then Freed(used, row, k - 1)
    else Freed(used, row, k - 1)[row[k - 1] := false]
  }

  lemma {:induction false} EmptiedAt(t: Table, i: nat, k: nat)
    requires i < |t| && k <= MAXFILE + 1
    ensures |Emptied(t, i, k)| == |t|
    ensures forall j :: 0 <= j < |t| && j != i ==> Emptied(t, i, k)[j] == t[j]
    ensures forall c :: 0 <= c <= MAXFILE ==> Emptied(t, i, k)[i][c] == if c < k then 0 else t[i][c]
  {
    if k > 0 {
      EmptiedAt(t, i, k - 1);
    }
  }

  lemma EmptiedNext(t: Table, i: nat, k: nat)
    requires i < |t| && k <= MAXFILE
    ensures Emptied(t, i, k)[i][k] == t[i][k]
  {
    EmptiedAt(t, i, k);
  }

  lemma RowInRange(t: Table, used: seq<bool>, meta: nat, i: nat)
    requires Owned(t, used, meta) && i < |t|
    ensures forall c :: 0 <= c < |t[i]| ==> t[i][c] == 0 || t[i][c] < |used|
  {
  }

  lemma OwnedIsUsed(t: Table, used: seq<bool>, meta: nat, i: nat, k: nat)
    requires Owned(t, used, meta) && i < |t| && k <= MAXFILE && t[i][k] != 0
    ensures t[i][k] < |used| && used[t[i][k]]
  {
  }

  lemma PutSame(t: Table, i: nat, k: nat)
    requires i < |t| && k <= MAXFILE
    ensures Put(t, i, k, t[i][k]) == t
  {
    assert t[i][k := t[i][k]] == t[i];
  }

  /** Freeing a row column by column keeps ownership, and never meets a block already free. */
  lemma {:induction false} FreeingIsSafe(t: Table, used: seq<bool>, meta: nat, i: nat, k: nat)
    requires Owned(t, used, meta) && i < |t| && k <= MAXFILE + 1
    ensures forall c :: 0 <= c < |t[i]| ==> t[i][c] == 0 || t[i][c] < |used|
    ensures Owned(Emptied(t, i, k), Freed(used, t[i], k), meta)
    ensures k <= MAXFILE && t[i][k] != 0 ==> Freed(used, t[i], k)[t[i][k]]
  {
    hide Owned, Put;
    RowInRange(t, used, meta, i);
    if k > 0 {
      FreeingIsSafe(t, used, meta, i, k - 1);
      EmptiedNext(t, i, k - 1);
      var t', used' := Emptied(t, i, k - 1), Freed(used, t[i], k - 1);
      if t[i][k - 1] != 0 {
        OwnedRemove(t', used', meta, i, k - 1);
      } else {
        PutSame(t', i, k - 1);
      }
    }
    if k <= MAXFILE && t[i][k] != 0 {
      EmptiedNext(t, i, k);
      OwnedIsUsed(Emptied(t, i, k), Freed(used, t[i], k), meta, i, k);
    }
  }

  /** What is free at the end is what was free and the blocks of the row, no more. */
  lemma {:induction false} FreedExactly(used: seq<bool>, row: seq<nat>, k: nat, b: nat)
    requires k <= |row| && b < |used| && forall c :: 0 <= c < |row| ==> row[c] == 0 || row[c] < |used|
    ensures Freed(used, row, k)[b] <==> used[b] && (b == 0 || b !in row[..k])
  {
    if k > 0 {
      FreedExactly(used, row, k - 1, b);
      assert row[..k] == row[..k - 1] + [row[k - 1]];
    }
  }
}
