/** Inodes, their encoding on disk, and the table of block references they amount to. */
module InodeTable {
  import opened Blocks
  import opened BlockOwners

  /** The fields of an inode; a short is given by its 16 bits. */
  datatype Inode = Inode(ty: nat, major: nat, minor: nat, nlink: nat, size: nat, addrs: seq<nat>,
                         uid: nat, gid: nat, mode: nat)
  {
    predicate Fits() {
      && ty < 0x1_0000 && major < 0x1_0000 && minor < 0x1_0000 && nlink < 0x1_0000
      && size < 0x1_0000_0000 && uid < 0x1_0000_0000 && gid < 0x1_0000_0000 && mode < 0x1_0000_0000
      && |addrs| == NDIRECT + 1 && forall k :: 0 <= k < |addrs| ==> addrs[k] < 0x1_0000_0000
    }
  }

  const DINODE_WORDS: nat := 16

  /** The sixteen words of an inode in its block. */
  function Encode(ip: Inode): (w: seq<word>)
    requires ip.Fits()
    ensures |w| == DINODE_WORDS
  {
    [ip.ty + 0x1_0000 * ip.major, ip.minor + 0x1_0000 * ip.nlink, ip.size] + ip.addrs + [ip.uid, ip.gid, ip.mode]
  }

  function Decode(w: seq<word>): Inode
    requires |w| == DINODE_WORDS
  {
    Inode(w[0] % 0x1_0000, w[0] / 0x1_0000, w[1] % 0x1_0000, w[1] / 0x1_0000, w[2], w[3..13], w[13], w[14], w[15])
  }

  lemma DecodeEncode(ip: Inode)
    requires ip.Fits()
    ensures Decode(Encode(ip)) == ip
  {
    assert Encode(ip)[3..13] == ip.addrs;
  }

  /** The disk copy of inode i is `ip`. */
  ghost predicate StoredAs(sb: Super, blk: seq<Block>, i: nat, ip: Inode) {
    && sb.InodeBlock(i) < |blk| && ip.Fits()
    && forall k :: 0 <= k < DINODE_WORDS ==> Word(blk[sb.InodeBlock(i)], i % IPB * DINODE_WORDS + k) == Encode(ip)[k]
  }

  /** Block reference k of an inode: file block k, or the indirect block for k == MAXFILE. */
  function Ref(blk: seq<Block>, ip: Inode, k: nat): nat
    requires |ip.addrs| == NDIRECT + 1 && ip.addrs[NDIRECT] < |blk| && k <= MAXFILE
  {
    if k < NDIRECT then ip.addrs[k]
    else if k == MAXFILE then ip.addrs[NDIRECT]
    else if ip.addrs[NDIRECT] == 0 then 0
    else Word(blk[ip.addrs[NDIRECT]], k - NDIRECT)
  }

  /** The contents of file block k. */
  ghost function FileBlock(blk: seq<Block>, ip: Inode, k: nat): Block
    requires |ip.addrs| == NDIRECT + 1 && ip.addrs[NDIRECT] < |blk| && k < MAXFILE
  {
    var b := Ref(blk, ip, k);
    if b < |blk| then blk[b] else Zeros()
  }

  ghost predicate Readable(blk: seq<Block>, ino: seq<Inode>) {
    forall i :: 0 <= i < |ino| ==> ino[i].Fits() && ino[i].addrs[NDIRECT] < |blk|
  }

  ghost function Refs(blk: seq<Block>, ip: Inode): (row: seq<nat>)
    requires |ip.addrs| == NDIRECT + 1 && ip.addrs[NDIRECT] < |blk|
    ensures |row| == MAXFILE + 1
  {
    seq(MAXFILE + 1, k requires 0 <= k <= MAXFILE => Ref(blk, ip, k))
  }

  ghost function RefTable(blk: seq<Block>, ino: seq<Inode>): Table
    requires Readable(blk, ino)
  {
    seq(|ino|, i requires 0 <= i < |ino| => Refs(blk, ino[i]))
  }

  ghost function UsedBits(sb: Super, blk: seq<Block>): seq<bool>
    requires sb.Ok(0) && |blk| == sb.size
  {
    seq(sb.size, b requires 0 <= b < sb.size => InUse(sb, blk, b))
  }

  /** The disk and the inodes are consistent: every block in use has its one owner. */
  ghost predicate Consistent(sb: Super, blk: seq<Block>, ino: seq<Inode>) {
    && sb.Ok(|ino|) && |blk| == sb.size
    && Readable(blk, ino)
    && Owned(RefTable(blk, ino), UsedBits(sb, blk), sb.meta)
  }

  /** Only blocks that are no inode's indirect block have changed. */
  ghost predicate IndirectKept(blk: seq<Block>, blk': seq<Block>, ino: seq<Inode>)
    requires Readable(blk, ino)
  {
    && |blk'| == |blk|
    && forall i :: 0 <= i < |ino| && ino[i].addrs[NDIRECT] != 0 ==>
          blk'[ino[i].addrs[NDIRECT]] == blk[ino[i].addrs[NDIRECT]]
  }

  lemma SameRefs(blk: seq<Block>, blk': seq<Block>, ino: seq<Inode>)
    requires Readable(blk, ino) && IndirectKept(blk, blk', ino)
    ensures Readable(blk', ino) && RefTable(blk', ino) == RefTable(blk, ino)
  {
    forall i | 0 <= i < |ino|
      ensures Refs(blk', ino[i]) == Refs(blk, ino[i])
    {
    }
  }

  lemma SameBits(sb: Super, blk: seq<Block>, blk': seq<Block>)
    requires sb.Ok(0) && |blk| == |blk'| == sb.size
    requires forall x :: sb.bmapstart <= x < sb.meta ==> blk'[x] == blk[x]
    ensures UsedBits(sb, blk') == UsedBits(sb, blk)
  {
    hide HasBit, Super.BitmapBlock;
    forall b | 0 <= b < sb.size
      ensures InUse(sb, blk', b) == InUse(sb, blk, b)
    {
      BitmapInRange(sb, b);
    }
  }

  lemma FlippedBit(sb: Super, blk: seq<Block>, b: nat, on: bool)
    requires sb.Ok(0) && |blk| == sb.size && b < sb.size
    ensures |SetInUse(sb, blk, b, on)| == |blk|
    ensures UsedBits(sb, SetInUse(sb, blk, b, on)) == UsedBits(sb, blk)[b := on]
  {
    assert |SetInUse(sb, blk, b, on)| == |blk|;
    hide HasBit, SetInUse, InUse;
    forall c | 0 <= c < sb.size
      ensures InUse(sb, SetInUse(sb, blk, b, on), c) == if c == b then on else InUse(sb, blk, c)
    {
      SetInUseFrame(sb, blk, b, on, c);
    }
  }

  lemma RefAt(blk: seq<Block>, ino: seq<Inode>, i: nat, k: nat)
    requires Readable(blk, ino) && i < |ino| && k <= MAXFILE
    ensures RefTable(blk, ino)[i][k] == Ref(blk, ino[i], k)
  {
  }

  /** A block with its bit clear is a data block and nobody's. */
  lemma FreeIsUnowned(sb: Super, blk: seq<Block>, ino: seq<Inode>, b: nat)
    requires Consistent(sb, blk, ino) && b < sb.size && !InUse(sb, blk, b)
    ensures sb.meta <= b
    ensures forall i, k :: 0 <= i < |ino| && 0 <= k <= MAXFILE ==> Ref(blk, ino[i], k) != b
  {
    var t, used := RefTable(blk, ino), UsedBits(sb, blk);
    assert !used[b];
    forall i, k | 0 <= i < |ino| && 0 <= k <= MAXFILE
      ensures Ref(blk, ino[i], k) != b
    {
      RefAt(blk, ino, i, k);
      assert t[i][k] != 0 ==> used[t[i][k]];
    }
  }

  /** The bytes of a block changed from position `at` on. */
  function Patch(b: Block, at: nat, data: seq<byte>): (r: Block)
    requires at + |data| <= BSIZE
  {
    b[..at] + data + b[at + |data|..]
  }

  /** The disk after balloc has taken block b. */
  ghost function Allocated(sb: Super, blk: seq<Block>, b: nat): seq<Block>
    requires sb.Ok(0) && |blk| == sb.size && b < sb.size
  {
    SetInUse(sb, blk, b, true)[b := Zeros()]
  }

  lemma RefIsData(sb: Super, blk: seq<Block>, ino: seq<Inode>, i: nat, k: nat)
    requires Consistent(sb, blk, ino) && i < |ino| && k <= MAXFILE && Ref(blk, ino[i], k) != 0
    ensures sb.meta <= Ref(blk, ino[i], k) < sb.size
  {
    RefAt(blk, ino, i, k);
    var t := RefTable(blk, ino);
    assert t[i][k] != 0;
  }

  lemma AllocatedFrame(sb: Super, blk: seq<Block>, ino: seq<Inode>, b: nat)
    requires Consistent(sb, blk, ino) && b < sb.size && !InUse(sb, blk, b)
    ensures var blk' := Allocated(sb, blk, b);
            && |blk'| == |blk| && blk'[b] == Zeros()
            && (forall x :: 0 <= x < |blk| && x != b && x != sb.BitmapBlock(b) ==> blk'[x] == blk[x])
            && Readable(blk', ino) && RefTable(blk', ino) == RefTable(blk, ino)
            && UsedBits(sb, blk') == UsedBits(sb, blk)[b := true]
  {
    hide Owned, UsedBits, RefTable, InUse, Super.BitmapBlock;
    var mid, blk' := SetInUse(sb, blk, b, true), Allocated(sb, blk, b);
    FreeIsUnowned(sb, blk, ino, b);
    BitmapInRange(sb, b);
    forall i | 0 <= i < |ino| && ino[i].addrs[NDIRECT] != 0
      ensures blk'[ino[i].addrs[NDIRECT]] == blk[ino[i].addrs[NDIRECT]]
    {
      RefIsData(sb, blk, ino, i, MAXFILE);
      assert Ref(blk, ino[i], MAXFILE) != b;
    }
    SameRefs(blk, blk', ino);
    FlippedBit(sb, blk, b, true);
    SameBits(sb, mid, blk');
  }

  function WithAddr(ino: seq<Inode>, i: nat, k: nat, b: nat): seq<Inode>
    requires i < |ino| && k < |ino[i].addrs|
  {
    ino[i := ino[i].(addrs := ino[i].addrs[k := b])]
  }

  lemma DirectPut(blk: seq<Block>, ino: seq<Inode>, i: nat, k: nat, b: nat)
    requires Readable(blk, ino) && i < |ino| && k < NDIRECT && b < 0x1_0000_0000
    ensures Readable(blk, WithAddr(ino, i, k, b))
    ensures RefTable(blk, WithAddr(ino, i, k, b)) == Put(RefTable(blk, ino), i, k, b)
  {
    var ino' := WithAddr(ino, i, k, b);
    assert Refs(blk, ino'[i]) == Refs(blk, ino[i])[k := b];
  }

  /** An indirect block that is all zero refers to nothing. */
  lemma IndirectPut(blk: seq<Block>, ino: seq<Inode>, i: nat, b: nat)
    requires Readable(blk, ino) && i < |ino| && b < |blk| && b < 0x1_0000_0000
    requires ino[i].addrs[NDIRECT] == 0 && blk[b] == Zeros()
    ensures Readable(blk, WithAddr(ino, i, NDIRECT, b))
    ensures RefTable(blk, WithAddr(ino, i, NDIRECT, b)) == Put(RefTable(blk, ino), i, MAXFILE, b)
  {
    var ino' := WithAddr(ino, i, NDIRECT, b);
    forall k | 0 <= k <= MAXFILE
      ensures Refs(blk, ino'[i])[k] == Refs(blk, ino[i])[MAXFILE := b][k]
    {
      if NDIRECT <= k < MAXFILE {
        ZerosAreZero(k - NDIRECT);
      }
    }
    assert Refs(blk, ino'[i]) == Refs(blk, ino[i])[MAXFILE := b];
  }

  lemma EntryPut(blk: seq<Block>, ino: seq<Inode>, i: nat, k: nat, b: nat)
    requires Readable(blk, ino) && i < |ino| && NDIRECT <= k < MAXFILE && b < 0x1_0000_0000
    requires ino[i].addrs[NDIRECT] != 0
    requires forall j :: 0 <= j < |ino| && j != i ==> ino[j].addrs[NDIRECT] != ino[i].addrs[NDIRECT]
    ensures var x := ino[i].addrs[NDIRECT];
            var blk' := blk[x := PutWord(blk[x], k - NDIRECT, b)];
            Readable(blk', ino) && RefTable(blk', ino) == Put(RefTable(blk, ino), i, k, b)
  {
    var x := ino[i].addrs[NDIRECT];
    var blk' := blk[x := PutWord(blk[x], k - NDIRECT, b)];
    assert Refs(blk', ino[i]) == Refs(blk, ino[i])[k := b];
    forall j | 0 <= j < |ino| && j != i
      ensures Refs(blk', ino[j]) == Refs(blk, ino[j])
    {
    }
  }

  /** Two slots never hold the same block. */
  lemma RefsDistinct(sb: Super, blk: seq<Block>, ino: seq<Inode>, i: nat, k: nat, j: nat, m: nat)
    requires Consistent(sb, blk, ino) && i < |ino| && k <= MAXFILE && j < |ino| && m <= MAXFILE
    requires Ref(blk, ino[i], k) != 0 && (i != j || k != m)
    ensures Ref(blk, ino[i], k) != Ref(blk, ino[j], m)
  {
    RefAt(blk, ino, i, k);
    RefAt(blk, ino, j, m);
    var t := RefTable(blk, ino);
    assert t[i][k] != 0;
  }

  /** Since (blk, ino), inode i may have gained blocks; no reference was lost, no file data
      changed, and neither did any other inode or the disk copies of inodes. */
  ghost predicate Grown(sb: Super, blk: seq<Block>, ino: seq<Inode>, blk': seq<Block>, ino': seq<Inode>, i: nat) {
    && i < |ino| == |ino'| && sb.Ok(|ino|) && |blk| == |blk'| == sb.size
    && (forall j :: 0 <= j < |ino| && j != i ==> ino'[j] == ino[j])
    && ino'[i] == ino[i].(addrs := ino'[i].addrs)
    && (forall x :: sb.inodestart <= x < sb.bmapstart ==> blk'[x] == blk[x])
    && Readable(blk, ino) && Readable(blk', ino') && RefsStay(blk, ino, blk', ino')
    && Consistent(sb, blk, ino) && Consistent(sb, blk', ino')
  }

  /** Every reference stays, and so does what it refers to. */
  ghost predicate RefsStay(blk: seq<Block>, ino: seq<Inode>, blk': seq<Block>, ino': seq<Inode>)
    requires Readable(blk, ino) && Readable(blk', ino') && |ino| == |ino'|
  {
    && (forall j, k :: 0 <= j < |ino| && 0 <= k <= MAXFILE && Ref(blk, ino[j], k) != 0 ==>
          Ref(blk', ino'[j], k) == Ref(blk, ino[j], k))
    && (forall j, k :: 0 <= j < |ino| && 0 <= k < MAXFILE && Ref(blk, ino[j], k) != 0 ==>
          FileBlock(blk', ino'[j], k) == FileBlock(blk, ino[j], k))
  }

  lemma GrownRefl(sb: Super, blk: seq<Block>, ino: seq<Inode>, i: nat)
    requires Consistent(sb, blk, ino) && i < |ino|
    ensures Grown(sb, blk, ino, blk, ino, i)
  {
  }

  lemma GrownTrans(sb: Super, blk: seq<Block>, ino: seq<Inode>, blk1: seq<Block>, ino1: seq<Inode>,
                   blk2: seq<Block>, ino2: seq<Inode>, i: nat)
    requires Grown(sb, blk, ino, blk1, ino1, i) && Grown(sb, blk1, ino1, blk2, ino2, i)
    ensures Grown(sb, blk, ino, blk2, ino2, i)
  {
    hide Consistent, Ref;
  }

  /** Slot k of inode i, which was empty, has the block b, which was free. */
  ghost predicate Gained(sb: Super, blk: seq<Block>, ip: Inode, blk': seq<Block>, ip': Inode, k: nat, b: nat) {
    && sb.Ok(0) && |blk| == |blk'| == sb.size && k <= MAXFILE && b < sb.size && b != 0
    && |ip.addrs| == |ip'.addrs| == NDIRECT + 1 && ip.addrs[NDIRECT] < |blk| && ip'.addrs[NDIRECT] < |blk|
    && !UsedBits(sb, blk)[b] && Refs(blk, ip)[k] == 0
    && UsedBits(sb, blk') == UsedBits(sb, blk)[b := true] && Refs(blk', ip') == Refs(blk, ip)[k := b]
  }

  /** The effect of taking a free block b for slot (i, k): blk1 is the disk with b allocated,
      (blk', ino') the state with the reference stored. */
  lemma SlotFilled(sb: Super, blk: seq<Block>, ino: seq<Inode>, blk': seq<Block>, ino': seq<Inode>, i: nat, k: nat,
                   b: nat)
    requires Consistent(sb, blk, ino) && b < sb.size && !InUse(sb, blk, b)
    requires i < |ino| == |ino'| && k <= MAXFILE && Ref(blk, ino[i], k) == 0
    requires Readable(blk', ino') && RefTable(blk', ino') == Put(RefTable(blk, ino), i, k, b)
    requires |blk'| == |blk|
    requires forall x :: sb.bmapstart <= x < sb.meta ==> blk'[x] == Allocated(sb, blk, b)[x]
    ensures Consistent(sb, blk', ino')
    ensures forall j, m :: 0 <= j < |ino| && 0 <= m <= MAXFILE ==>
              Ref(blk', ino'[j], m) == if j == i && m == k then b else Ref(blk, ino[j], m)
    ensures Gained(sb, blk, ino[i], blk', ino'[i], k, b)
  {
    AllocatedFrame(sb, blk, ino, b);
    FreeIsUnowned(sb, blk, ino, b);
    SameBits(sb, Allocated(sb, blk, b), blk');
    var t, used := RefTable(blk, ino), UsedBits(sb, blk);
    RefAt(blk, ino, i, k);
    assert !used[b];
    OwnedAdd(t, used, sb.meta, i, k, b);
    assert RefTable(blk', ino')[i] == t[i][k := b];
    forall j, m | 0 <= j < |ino| && 0 <= m <= MAXFILE
      ensures Ref(blk', ino'[j], m) == if j == i && m == k then b else Ref(blk, ino[j], m)
    {
      RefAt(blk, ino, j, m);
      RefAt(blk', ino', j, m);
    }
  }

  /** Filling one slot is growth, if no data block but the new one is touched. */
  lemma FilledIsGrown(sb: Super, blk: seq<Block>, ino: seq<Inode>, blk': seq<Block>, ino': seq<Inode>, i: nat, k: nat,
                      b: nat)
    requires Consistent(sb, blk, ino) && Consistent(sb, blk', ino')
    requires b < sb.size && !InUse(sb, blk, b)
    requires i < |ino| == |ino'| && k <= MAXFILE && |blk'| == |blk|
    requires forall j :: 0 <= j < |ino| && j != i ==> ino'[j] == ino[j]
    requires ino'[i] == ino[i].(addrs := ino'[i].addrs)
    requires Ref(blk, ino[i], k) == 0
    requires forall j, m :: 0 <= j < |ino| && 0 <= m <= MAXFILE ==>
               Ref(blk', ino'[j], m) == if j == i && m == k then b else Ref(blk, ino[j], m)
    requires forall x :: 0 <= x < |blk| && x != b && x != sb.BitmapBlock(b) && x != ino[i].addrs[NDIRECT] ==>
               blk'[x] == blk[x]
    ensures Grown(sb, blk, ino, blk', ino', i)
  {
    hide Owned, UsedBits, RefTable, InUse, Super.BitmapBlock, Ref;
    forall j, m | 0 <= j < |ino| && 0 <= m < MAXFILE && Ref(blk, ino[j], m) != 0
      ensures FileBlock(blk', ino'[j], m) == FileBlock(blk, ino[j], m)
    {
      OtherData(sb, blk, ino, i, b, j, m);
      assert Ref(blk', ino'[j], m) == Ref(blk, ino[j], m);
    }
    forall x | sb.inodestart <= x < sb.bmapstart
      ensures blk'[x] == blk[x]
    {
      InodesNotTouched(sb, blk, ino, i, b, x);
    }
  }

  /** File data is neither the block just taken, nor a bitmap block, nor an indirect block. */
  lemma OtherData(sb: Super, blk: seq<Block>, ino: seq<Inode>, i: nat, b: nat, j: nat, m: nat)
    requires Consistent(sb, blk, ino) && b < sb.size && !InUse(sb, blk, b)
    requires i < |ino| && j < |ino| && m < MAXFILE && Ref(blk, ino[j], m) != 0
    ensures var y := Ref(blk, ino[j], m);
            y < |blk| && y != b && y != sb.BitmapBlock(b) && y != ino[i].addrs[NDIRECT]
  {
    hide Owned, UsedBits, RefTable, InUse, Super.BitmapBlock;
    FreeIsUnowned(sb, blk, ino, b);
    RefIsData(sb, blk, ino, j, m);
    RefsDistinct(sb, blk, ino, j, m, i, MAXFILE);
    assert Ref(blk, ino[i], MAXFILE) == ino[i].addrs[NDIRECT];
    BitmapInRange(sb, b);
  }

  lemma InodesNotTouched(sb: Super, blk: seq<Block>, ino: seq<Inode>, i: nat, b: nat, x: nat)
    requires Consistent(sb, blk, ino) && b < sb.size && !InUse(sb, blk, b) && i < |ino|
    requires sb.inodestart <= x < sb.bmapstart
    ensures x < |blk| && x != b && x != sb.BitmapBlock(b) && x != ino[i].addrs[NDIRECT]
  {
    hide Owned, UsedBits, RefTable, InUse, Super.BitmapBlock;
    FreeIsUnowned(sb, blk, ino, b);
    assert Ref(blk, ino[i], MAXFILE) == ino[i].addrs[NDIRECT];
    if ino[i].addrs[NDIRECT] != 0 {
      RefIsData(sb, blk, ino, i, MAXFILE);
    }
    BitmapInRange(sb, b);
  }

  lemma FillDirect(sb: Super, blk: seq<Block>, ino: seq<Inode>, i: nat, k: nat, b: nat)
    requires Consistent(sb, blk, ino) && b < sb.size && !InUse(sb, blk, b)
    requires i < |ino| && k < NDIRECT && ino[i].addrs[k] == 0
    ensures var blk', ino' := Allocated(sb, blk, b), WithAddr(ino, i, k, b);
            && Grown(sb, blk, ino, blk', ino', i) && Ref(blk', ino'[i], k) == b && blk'[b] == Zeros()
            && Gained(sb, blk, ino[i], blk', ino'[i], k, b)
  {
    var blk', ino' := Allocated(sb, blk, b), WithAddr(ino, i, k, b);
    AllocatedFrame(sb, blk, ino, b);
    DirectPut(blk', ino, i, k, b);
    hide RefTable, Owned, UsedBits, InUse, Allocated, Gained;
    SlotFilled(sb, blk, ino, blk', ino', i, k, b);
    FilledIsGrown(sb, blk, ino, blk', ino', i, k, b);
  }

  lemma FillIndirect(sb: Super, blk: seq<Block>, ino: seq<Inode>, i: nat, b: nat)
    requires Consistent(sb, blk, ino) && b < sb.size && !InUse(sb, blk, b)
    requires i < |ino| && ino[i].addrs[NDIRECT] == 0
    ensures var blk', ino' := Allocated(sb, blk, b), WithAddr(ino, i, NDIRECT, b);
            && Grown(sb, blk, ino, blk', ino', i) && blk'[b] == Zeros()
            && Gained(sb, blk, ino[i], blk', ino'[i], MAXFILE, b)
  {
    var blk', ino' := Allocated(sb, blk, b), WithAddr(ino, i, NDIRECT, b);
    AllocatedFrame(sb, blk, ino, b);
    IndirectPut(blk', ino, i, b);
    hide RefTable, Owned, UsedBits, InUse, Allocated, Gained;
    SlotFilled(sb, blk, ino, blk', ino', i, MAXFILE, b);
    FilledIsGrown(sb, blk, ino, blk', ino', i, MAXFILE, b);
  }

  /** The disk after a block has been allocated and entered in the indirect block x. */
  ghost function Entered(sb: Super, blk: seq<Block>, x: nat, at: nat, b: nat): seq<Block>
    requires sb.Ok(0) && |blk| == sb.size && b < sb.size && x < sb.size && at < NINDIRECT
  {
    var mid := Allocated(sb, blk, b);
    mid[x := PutWord(mid[x], at, b)]
  }

  lemma FillEntry(sb: Super, blk: seq<Block>, ino: seq<Inode>, i: nat, k: nat, b: nat)
    requires Consistent(sb, blk, ino) && b < sb.size && !InUse(sb, blk, b)
    requires i < |ino| && NDIRECT <= k < MAXFILE && ino[i].addrs[NDIRECT] != 0 && Ref(blk, ino[i], k) == 0
    ensures var blk' := Entered(sb, blk, ino[i].addrs[NDIRECT], k - NDIRECT, b);
            && Grown(sb, blk, ino, blk', ino, i) && Ref(blk', ino[i], k) == b && blk'[b] == Zeros()
            && Gained(sb, blk, ino[i], blk', ino[i], k, b)
  {
    FreeIsUnowned(sb, blk, ino, b);
    assert Ref(blk, ino[i], MAXFILE) == ino[i].addrs[NDIRECT];
    var mid := Allocated(sb, blk, b);
    var x := ino[i].addrs[NDIRECT];
    var blk' := mid[x := PutWord(mid[x], k - NDIRECT, b)];
    AllocatedFrame(sb, blk, ino, b);
    RefIsData(sb, blk, ino, i, MAXFILE);
    forall j | 0 <= j < |ino| && j != i
      ensures ino[j].addrs[NDIRECT] != x
    {
      RefsDistinct(sb, blk, ino, i, MAXFILE, j, MAXFILE);
    }
    EntryPut(mid, ino, i, k, b);
    hide RefTable, Owned, UsedBits, InUse, Allocated, Gained;
    SlotFilled(sb, blk, ino, blk', ino, i, k, b);
    FilledIsGrown(sb, blk, ino, blk', ino, i, k, b);
  }

  /** Writing an inode's words over its block. */
  lemma InodeStored(sb: Super, blk: seq<Block>, blk': seq<Block>, i: nat, ip: Inode, j: nat, jp: Inode)
    requires sb.InodeBlock(i) < |blk| == |blk'| && ip.Fits()
    requires forall x :: 0 <= x < |blk| && x != sb.InodeBlock(i) ==> blk'[x] == blk[x]
    requires forall w :: 0 <= w < WORDS && i % IPB * DINODE_WORDS <= w < i % IPB * DINODE_WORDS + DINODE_WORDS ==>
               Word(blk'[sb.InodeBlock(i)], w) == Encode(ip)[w - i % IPB * DINODE_WORDS]
    requires forall w :: 0 <= w < WORDS && !(i % IPB * DINODE_WORDS <= w < i % IPB * DINODE_WORDS + DINODE_WORDS) ==>
               Word(blk'[sb.InodeBlock(i)], w) == Word(blk[sb.InodeBlock(i)], w)
    ensures StoredAs(sb, blk', i, ip)
    ensures j != i && StoredAs(sb, blk, j, jp) ==> StoredAs(sb, blk', j, jp)
  {
    hide Word, Encode;
    if j != i && sb.InodeBlock(j) == sb.InodeBlock(i) {
      assert i == i / IPB * IPB + i % IPB && j == j / IPB * IPB + j % IPB;
    }
  }

  /** References and file data are in data blocks only. */
  lemma DataUntouched(sb: Super, blk: seq<Block>, ino: seq<Inode>, blk': seq<Block>)
    requires Consistent(sb, blk, ino) && |blk'| == |blk|
    requires forall x :: sb.meta <= x < sb.size ==> blk'[x] == blk[x]
    ensures Readable(blk', ino) && RefTable(blk', ino) == RefTable(blk, ino)
  {
    hide Owned, UsedBits, RefTable;
    forall j | 0 <= j < |ino| && ino[j].addrs[NDIRECT] != 0
      ensures blk'[ino[j].addrs[NDIRECT]] == blk[ino[j].addrs[NDIRECT]]
    {
      RefIsData(sb, blk, ino, j, MAXFILE);
    }
    SameRefs(blk, blk', ino);
  }

  lemma SameRef(blk: seq<Block>, ino: seq<Inode>, blk': seq<Block>, j: nat, k: nat)
    requires Readable(blk, ino) && Readable(blk', ino) && RefTable(blk', ino) == RefTable(blk, ino)
    requires j < |ino| && k <= MAXFILE
    ensures Ref(blk', ino[j], k) == Ref(blk, ino[j], k)
  {
    RefAt(blk, ino, j, k);
    RefAt(blk', ino, j, k);
  }

  lemma SameFileBlock(sb: Super, blk: seq<Block>, ino: seq<Inode>, blk': seq<Block>, j: nat, k: nat)
    requires Consistent(sb, blk, ino) && |blk'| == |blk|
    requires forall x :: sb.meta <= x < sb.size ==> blk'[x] == blk[x]
    requires j < |ino| && k < MAXFILE && Ref(blk, ino[j], k) != 0
    ensures FileBlock(blk', ino[j], k) == FileBlock(blk, ino[j], k)
  {
    hide Owned, UsedBits, RefTable, Ref;
    DataUntouched(sb, blk, ino, blk');
    SameRef(blk, ino, blk', j, k);
    RefIsData(sb, blk, ino, j, k);
  }

  /** Changing fields other than the addresses changes no reference. */
  lemma ResizeKeeps(sb: Super, blk: seq<Block>, ino: seq<Inode>, i: nat, ip: Inode)
    requires Consistent(sb, blk, ino) && i < |ino| && ip.Fits() && ip.addrs == ino[i].addrs
    ensures Consistent(sb, blk, ino[i := ip])
    ensures forall k :: 0 <= k <= MAXFILE ==> Ref(blk, ip, k) == Ref(blk, ino[i], k)
  {
    var ino' := ino[i := ip];
    assert Refs(blk, ip) == Refs(blk, ino[i]);
    assert RefTable(blk, ino') == RefTable(blk, ino);
  }
}
