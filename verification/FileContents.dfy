/** Files as byte sequences: what the blocks of an inode amount to, and how overwriting a
    piece of one block shows in the file and in no other. */
module FileContents {
  import opened Blocks
  import opened BlockOwners
  import opened Counting
  import opened InodeTable

  const MAXBYTES: nat := MAXFILE * BSIZE

  ghost function ByteAt(blk: seq<Block>, ip: Inode, p: nat): byte
    requires |ip.addrs| == NDIRECT + 1 && ip.addrs[NDIRECT] < |blk| && p < MAXBYTES
  {
    FileBlock(blk, ip, p / BSIZE)[p % BSIZE]
  }

  ghost predicate Present(blk: seq<Block>, ip: Inode, p: nat)
    requires |ip.addrs| == NDIRECT + 1 && ip.addrs[NDIRECT] < |blk|
  {
    p < MAXBYTES && Ref(blk, ip, p / BSIZE) != 0
  }

  /** Every byte below the size has its block. */
  ghost predicate NoHoles(blk: seq<Block>, ip: Inode)
    requires |ip.addrs| == NDIRECT + 1 && ip.addrs[NDIRECT] < |blk|
  {
    ip.size <= MAXBYTES && forall p :: 0 <= p < ip.size ==> Present(blk, ip, p)
  }

  /** The file: as many bytes as its size. */
  ghost function Content(blk: seq<Block>, ip: Inode): (c: seq<byte>)
    requires |ip.addrs| == NDIRECT + 1 && ip.addrs[NDIRECT] < |blk| && ip.size <= MAXBYTES
    ensures |c| == ip.size
  {
    seq(ip.size, p requires 0 <= p < ip.size => ByteAt(blk, ip, p))
  }

  /** The bytes `data` put at `off`, replacing what was there and extending past the end. */
  function Overwrite(c: seq<byte>, off: nat, data: seq<byte>): seq<byte>
    requires off <= |c|
  {
    if off + |data| <= |c| then c[..off] + data + c[off + |data|..] else c[..off] + data
  }

  /** Only inode i and its data may have changed: the other inodes, the blocks they refer to,
      the contents of those, and the disk copies of inodes are the same. */
  ghost predicate OthersKept(sb: Super, blk: seq<Block>, ino: seq<Inode>, blk': seq<Block>, ino': seq<Inode>, i: nat) {
    && i < |ino| == |ino'| && sb.Ok(|ino|) && |blk| == |blk'| == sb.size
    && Readable(blk, ino) && Readable(blk', ino')
    && (forall j :: 0 <= j < |ino| && j != i ==> ino'[j] == ino[j])
    && (forall x :: sb.inodestart <= x < sb.bmapstart ==> blk'[x] == blk[x])
    && (forall j, k :: 0 <= j < |ino| && j != i && 0 <= k <= MAXFILE && Ref(blk, ino[j], k) != 0 ==>
          Ref(blk', ino'[j], k) == Ref(blk, ino[j], k))
    && (forall j, k :: 0 <= j < |ino| && j != i && 0 <= k < MAXFILE && Ref(blk, ino[j], k) != 0 ==>
          FileBlock(blk', ino'[j], k) == FileBlock(blk, ino[j], k))
    && Consistent(sb, blk, ino) && Consistent(sb, blk', ino')
  }

  lemma GrownKeepsOthers(sb: Super, blk: seq<Block>, ino: seq<Inode>, blk': seq<Block>, ino': seq<Inode>, i: nat)
    requires Grown(sb, blk, ino, blk', ino', i)
    ensures OthersKept(sb, blk, ino, blk', ino', i)
  {
  }

  lemma OthersKeptTrans(sb: Super, blk: seq<Block>, ino: seq<Inode>, blk1: seq<Block>, ino1: seq<Inode>,
                        blk2: seq<Block>, ino2: seq<Inode>, i: nat)
    requires OthersKept(sb, blk, ino, blk1, ino1, i) && OthersKept(sb, blk1, ino1, blk2, ino2, i)
    ensures OthersKept(sb, blk, ino, blk2, ino2, i)
  {
    hide Consistent, Ref, FileBlock;
  }

  /** The files of the other inodes read the same. */
  lemma OthersReadSame(sb: Super, blk: seq<Block>, ino: seq<Inode>, blk': seq<Block>, ino': seq<Inode>, i: nat, j: nat)
    requires OthersKept(sb, blk, ino, blk', ino', i) && j < |ino| && j != i
    requires NoHoles(blk, ino[j])
    ensures NoHoles(blk', ino'[j]) && Content(blk', ino'[j]) == Content(blk, ino[j])
  {
    hide Owned, UsedBits, RefTable, Ref;
    forall p | 0 <= p < ino[j].size
      ensures Present(blk', ino'[j], p) && ByteAt(blk', ino'[j], p) == ByteAt(blk, ino[j], p)
    {
      assert Present(blk, ino[j], p);
    }
  }

  /** Changing the contents of a file block changes no reference. */
  lemma RewriteKeepsRefs(sb: Super, blk: seq<Block>, ino: seq<Inode>, i: nat, bn: nat, data: Block)
    requires Consistent(sb, blk, ino) && i < |ino| && bn < MAXFILE && Ref(blk, ino[i], bn) != 0
    ensures sb.meta <= Ref(blk, ino[i], bn) < |blk|
    ensures var blk' := blk[Ref(blk, ino[i], bn) := data];
            && Consistent(sb, blk', ino)
            && (forall j, k :: 0 <= j < |ino| && 0 <= k <= MAXFILE ==> Ref(blk', ino[j], k) == Ref(blk, ino[j], k))
  {
    hide Owned, UsedBits, RefTable, Ref;
    var addr := Ref(blk, ino[i], bn);
    RefIsData(sb, blk, ino, i, bn);
    var blk' := blk[addr := data];
    forall j | 0 <= j < |ino| && ino[j].addrs[NDIRECT] != 0
      ensures blk'[ino[j].addrs[NDIRECT]] == blk[ino[j].addrs[NDIRECT]]
    {
      IndirectRef(blk, ino[j]);
      RefsDistinct(sb, blk, ino, i, bn, j, MAXFILE);
    }
    SameRefs(blk, blk', ino);
    SameBits(sb, blk, blk');
    forall j, k | 0 <= j < |ino| && 0 <= k <= MAXFILE
      ensures Ref(blk', ino[j], k) == Ref(blk, ino[j], k)
    {
      RefAt(blk, ino, j, k);
      RefAt(blk', ino, j, k);
    }
  }

  /** Changing the contents of one file block changes that block of that file only. */
  lemma BlockRewritten(sb: Super, blk: seq<Block>, ino: seq<Inode>, i: nat, bn: nat, data: Block)
    requires Consistent(sb, blk, ino) && i < |ino| && bn < MAXFILE && Ref(blk, ino[i], bn) != 0
    ensures Ref(blk, ino[i], bn) < |blk|
    ensures var blk' := blk[Ref(blk, ino[i], bn) := data];
            && OthersKept(sb, blk, ino, blk', ino, i)
            && (forall k :: 0 <= k <= MAXFILE ==> Ref(blk', ino[i], k) == Ref(blk, ino[i], k))
            && FileBlock(blk', ino[i], bn) == data
            && (forall k :: 0 <= k < MAXFILE && k != bn && Ref(blk, ino[i], k) != 0 ==>
                  FileBlock(blk', ino[i], k) == FileBlock(blk, ino[i], k))
  {
    hide Consistent, Ref, FileBlock, OthersKept;
    OthersRewritten(sb, blk, ino, i, bn, data);
    OwnRewritten(sb, blk, ino, i, bn, data);
  }

  lemma OthersRewritten(sb: Super, blk: seq<Block>, ino: seq<Inode>, i: nat, bn: nat, data: Block)
    requires Consistent(sb, blk, ino) && i < |ino| && bn < MAXFILE && Ref(blk, ino[i], bn) != 0
    ensures Ref(blk, ino[i], bn) < |blk|
    ensures OthersKept(sb, blk, ino, blk[Ref(blk, ino[i], bn) := data], ino, i)
  {
    hide Owned, UsedBits, RefTable, Ref, FileBlock;
    RewriteKeepsRefs(sb, blk, ino, i, bn, data);
    var blk' := blk[Ref(blk, ino[i], bn) := data];
    forall j, k | 0 <= j < |ino| && j != i && 0 <= k < MAXFILE
      ensures FileBlock(blk', ino[j], k) == FileBlock(blk, ino[j], k)
    {
      OtherBlockKept(sb, blk, ino, i, bn, data, j, k);
    }
  }

  lemma OwnRewritten(sb: Super, blk: seq<Block>, ino: seq<Inode>, i: nat, bn: nat, data: Block)
    requires Consistent(sb, blk, ino) && i < |ino| && bn < MAXFILE && Ref(blk, ino[i], bn) != 0
    ensures Readable(blk, ino) && Ref(blk, ino[i], bn) < |blk|
    ensures var blk' := blk[Ref(blk, ino[i], bn) := data];
            && Readable(blk', ino)
            && (forall k :: 0 <= k <= MAXFILE ==> Ref(blk', ino[i], k) == Ref(blk, ino[i], k))
            && FileBlock(blk', ino[i], bn) == data
            && (forall k :: 0 <= k < MAXFILE && k != bn ==> FileBlock(blk', ino[i], k) == FileBlock(blk, ino[i], k))
  {
    hide Owned, UsedBits, RefTable, Ref, FileBlock;
    RewriteKeepsRefs(sb, blk, ino, i, bn, data);
    var blk' := blk[Ref(blk, ino[i], bn) := data];
    forall k | 0 <= k < MAXFILE && k != bn
      ensures FileBlock(blk', ino[i], k) == FileBlock(blk, ino[i], k)
    {
      OtherBlockKept(sb, blk, ino, i, bn, data, i, k);
    }
    assert Ref(blk', ino[i], bn) == Ref(blk, ino[i], bn);
    FileBlockIs(blk', ino[i], bn);
  }

  lemma OtherBlockKept(sb: Super, blk: seq<Block>, ino: seq<Inode>, i: nat, bn: nat, data: Block, j: nat, k: nat)
    requires Consistent(sb, blk, ino) && i < |ino| && bn < MAXFILE && Ref(blk, ino[i], bn) != 0
    requires j < |ino| && k < MAXFILE && (j != i || k != bn) && Ref(blk, ino[i], bn) < |blk|
    ensures FileBlock(blk[Ref(blk, ino[i], bn) := data], ino[j], k) == FileBlock(blk, ino[j], k)
  {
    hide Owned, UsedBits, RefTable, Ref, FileBlock;
    RewriteKeepsRefs(sb, blk, ino, i, bn, data);
    RefsDistinct(sb, blk, ino, i, bn, j, k);
    SameContents(blk, blk[Ref(blk, ino[i], bn) := data], ino[j], k);
  }

  lemma SameContents(blk: seq<Block>, blk': seq<Block>, ip: Inode, k: nat)
    requires |ip.addrs| == NDIRECT + 1 && ip.addrs[NDIRECT] < |blk| == |blk'| && k < MAXFILE
    requires Ref(blk', ip, k) == Ref(blk, ip, k)
    requires Ref(blk, ip, k) < |blk| ==> blk'[Ref(blk, ip, k)] == blk[Ref(blk, ip, k)]
    ensures FileBlock(blk', ip, k) == FileBlock(blk, ip, k)
  {
    hide Ref;
  }

  lemma IndirectRef(blk: seq<Block>, ip: Inode)
    requires |ip.addrs| == NDIRECT + 1 && ip.addrs[NDIRECT] < |blk|
    ensures Ref(blk, ip, MAXFILE) == ip.addrs[NDIRECT]
  {
  }

  /** `ip` has the bytes of the old file with the first `tot` bytes of `src` put at `off`. */
  ghost predicate Written(blk0: seq<Block>, ip0: Inode, blk: seq<Block>, ip: Inode, off: nat, tot: nat, src: seq<byte>)
    requires |ip0.addrs| == NDIRECT + 1 && ip0.addrs[NDIRECT] < |blk0|
    requires |ip.addrs| == NDIRECT + 1 && ip.addrs[NDIRECT] < |blk|
  {
    && tot <= |src| && ip0.size <= MAXBYTES && off + tot <= MAXBYTES
    && forall p :: 0 <= p < Max(ip0.size, off + tot) ==>
         && Present(blk, ip, p)
         && ByteAt(blk, ip, p) == if off <= p < off + tot then src[p - off] else ByteAt(blk0, ip0, p)
  }

  /** The bytes of file block k start at k * BSIZE. */
  lemma Place(p: nat, bn: nat, at: nat)
    requires at < BSIZE
    ensures p / BSIZE == bn && p % BSIZE == at <==> p == bn * BSIZE + at
  {
  }

  /** A piece that stays within one block. */
  lemma SamePiece(o: nat, m: nat, p: nat)
    requires o % BSIZE + m <= BSIZE && o <= p < o + m
    ensures p / BSIZE == o / BSIZE && p % BSIZE == o % BSIZE + (p - o)
  {
    var at := o % BSIZE + (p - o);
    assert p == o / BSIZE * BSIZE + at;
    Place(p, o / BSIZE, at);
  }

  lemma PatchAt(b: Block, at: nat, data: seq<byte>, q: nat)
    requires at + |data| <= BSIZE && q < BSIZE
    ensures Patch(b, at, data)[q] == if at <= q < at + |data| then data[q - at] else b[q]
  {
  }

  /** One turn of writei: get the block, then copy a piece into it. */
  lemma WriteTurn(sb: Super, blk0: seq<Block>, ip0: Inode, blk: seq<Block>, ino: seq<Inode>,
                  blk1: seq<Block>, ino1: seq<Inode>, i: nat, off: nat, tot: nat, m: nat, src: seq<byte>)
    requires Grown(sb, blk, ino, blk1, ino1, i)
    requires |ip0.addrs| == NDIRECT + 1 && ip0.addrs[NDIRECT] < |blk0| && off <= ip0.size
    requires Written(blk0, ip0, blk, ino[i], off, tot, src)
    requires off + tot + m <= MAXBYTES && tot + m <= |src| && (off + tot) % BSIZE + m <= BSIZE && 0 < m
    requires Present(blk1, ino1[i], off + tot)
    ensures var o := off + tot;
            var addr := Ref(blk1, ino1[i], o / BSIZE);
            addr < |blk1| &&
            var blk2 := blk1[addr := Patch(blk1[addr], o % BSIZE, src[tot..tot + m])];
            && OthersKept(sb, blk1, ino1, blk2, ino1, i)
            && Written(blk0, ip0, blk2, ino1[i], off, tot + m, src)
  {
    hide Owned, UsedBits, RefTable, Ref, FileBlock;
    var o := off + tot;
    var bn, at, piece := o / BSIZE, o % BSIZE, src[tot..tot + m];
    var addr := Ref(blk1, ino1[i], bn);
    RefIsData(sb, blk1, ino1, i, bn);
    FileBlockIs(blk1, ino1[i], bn);
    var data := Patch(blk1[addr], at, piece);
    var blk2 := blk1[addr := data];
    BlockRewritten(sb, blk1, ino1, i, bn, data);
    forall p | 0 <= p < Max(ip0.size, off + tot + m)
      ensures Present(blk2, ino1[i], p)
      ensures ByteAt(blk2, ino1[i], p) == if off <= p < off + tot + m then src[p - off] else ByteAt(blk0, ip0, p)
    {
      if o <= p < o + m {
        SamePiece(o, m, p);
        PatchAt(blk1[addr], at, piece, p % BSIZE);
      } else {
        assert Present(blk, ino[i], p);
        assert ByteAt(blk1, ino1[i], p) == ByteAt(blk, ino[i], p);
        if p / BSIZE == bn {
          PatchAt(blk1[addr], at, piece, p % BSIZE);
        }
      }
    }
  }

  lemma FileBlockIs(blk: seq<Block>, ip: Inode, k: nat)
    requires |ip.addrs| == NDIRECT + 1 && ip.addrs[NDIRECT] < |blk| && k < MAXFILE && Ref(blk, ip, k) < |blk|
    ensures FileBlock(blk, ip, k) == blk[Ref(blk, ip, k)]
  {
  }

  /** Once all bytes are written, the file with its new size is the old one overwritten. */
  lemma WrittenIsOverwrite(blk0: seq<Block>, ip0: Inode, blk: seq<Block>, ip: Inode, off: nat, src: seq<byte>)
    requires |ip0.addrs| == NDIRECT + 1 && ip0.addrs[NDIRECT] < |blk0|
    requires |ip.addrs| == NDIRECT + 1 && ip.addrs[NDIRECT] < |blk|
    requires off <= ip0.size && ip.size == Max(ip0.size, off + |src|)
    requires Written(blk0, ip0, blk, ip, off, |src|, src)
    ensures NoHoles(blk, ip)
    ensures Content(blk, ip) == Overwrite(Content(blk0, ip0), off, src)
  {
    hide ByteAt, Ref;
    var c0, c := Content(blk0, ip0), Content(blk, ip);
    forall p | 0 <= p < |c|
      ensures c[p] == Overwrite(c0, off, src)[p]
    {
      assert Present(blk, ip, p);
      assert c[p] == ByteAt(blk, ip, p);
    }
  }

  /** The disk copy of an inode stays when the inode blocks do. */
  lemma StoredKept(sb: Super, blk: seq<Block>, blk': seq<Block>, n: nat, j: nat, jp: Inode)
    requires sb.Ok(n) && |blk| == |blk'| == sb.size && j < n
    requires forall x :: sb.inodestart <= x < sb.bmapstart ==> blk'[x] == blk[x]
    requires StoredAs(sb, blk, j, jp)
    ensures StoredAs(sb, blk', j, jp)
  {
    assert sb.inodestart <= sb.InodeBlock(j) < sb.bmapstart;
  }

  /** The bytes of every file are those they were. */
  ghost predicate BytesKept(blk: seq<Block>, ino: seq<Inode>, blk': seq<Block>, ino': seq<Inode>)
    requires Readable(blk, ino) && Readable(blk', ino')
  {
    && |ino'| == |ino|
    && forall j, p :: 0 <= j < |ino| && 0 <= p && Present(blk, ino[j], p) ==>
         Present(blk', ino'[j], p) && ByteAt(blk', ino'[j], p) == ByteAt(blk, ino[j], p)
  }

  lemma BytesKeptRead(blk: seq<Block>, ino: seq<Inode>, blk': seq<Block>, ino': seq<Inode>, j: nat)
    requires Readable(blk, ino) && Readable(blk', ino') && BytesKept(blk, ino, blk', ino')
    requires j < |ino| && ino'[j] == ino[j] && NoHoles(blk, ino[j])
    ensures NoHoles(blk', ino'[j]) && Content(blk', ino'[j]) == Content(blk, ino[j])
  {
    hide ByteAt, Ref;
    forall p | 0 <= p < ino[j].size
      ensures Present(blk', ino'[j], p) && ByteAt(blk', ino'[j], p) == ByteAt(blk, ino[j], p)
    {
      assert Present(blk, ino[j], p);
    }
  }

  lemma BytesKeptWritten(blk0: seq<Block>, ip0: Inode, blk: seq<Block>, ino: seq<Inode>, blk': seq<Block>,
                         ino': seq<Inode>, i: nat, off: nat, tot: nat, src: seq<byte>)
    requires Readable(blk, ino) && Readable(blk', ino') && BytesKept(blk, ino, blk', ino') && i < |ino|
    requires |ip0.addrs| == NDIRECT + 1 && ip0.addrs[NDIRECT] < |blk0|
    requires Written(blk0, ip0, blk, ino[i], off, tot, src)
    ensures Written(blk0, ip0, blk', ino'[i], off, tot, src)
  {
    hide ByteAt, Ref;
  }

  /** Storing an inode on disk, with another size in memory, keeps the bytes of every file. */
  lemma InodeWriteKeepsBytes(sb: Super, blk: seq<Block>, ino: seq<Inode>, i: nat, ip: Inode, x: nat, data: Block)
    requires Consistent(sb, blk, ino) && i < |ino| && ip.Fits() && ip.addrs == ino[i].addrs
    requires sb.inodestart <= x < sb.bmapstart
    ensures var blk', ino' := blk[x := data], ino[i := ip];
            && Consistent(sb, blk', ino') && BytesKept(blk, ino, blk', ino')
            && UsedBits(sb, blk') == UsedBits(sb, blk)
  {
    hide Owned, UsedBits, RefTable, Ref, FileBlock;
    var blk', ino' := blk[x := data], ino[i := ip];
    DataUntouched(sb, blk, ino, blk');
    SameBits(sb, blk, blk');
    ResizeKeeps(sb, blk', ino, i, ip);
    forall j, p | 0 <= j < |ino| && 0 <= p && Present(blk, ino[j], p)
      ensures Present(blk', ino'[j], p) && ByteAt(blk', ino'[j], p) == ByteAt(blk, ino[j], p)
    {
      SameRef(blk, ino, blk', j, p / BSIZE);
      SameFileBlock(sb, blk, ino, blk', j, p / BSIZE);
      SameAddrs(blk', ino[j], ino'[j], p / BSIZE);
    }
  }

  lemma SameAddrs(blk: seq<Block>, ip: Inode, ip': Inode, k: nat)
    requires |ip.addrs| == NDIRECT + 1 && ip.addrs[NDIRECT] < |blk| && k < MAXFILE && ip'.addrs == ip.addrs
    ensures Ref(blk, ip', k) == Ref(blk, ip, k) && FileBlock(blk, ip', k) == FileBlock(blk, ip, k)
  {
  }
}
