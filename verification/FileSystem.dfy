/** Block allocation and file contents. `blk` is the disk as bread shows it inside the current
    operation, `ino` the in-memory inodes, `logged` the blocks passed to log_write. */
module FileSystem {
  import opened Blocks
  import opened Options
  import opened BlockOwners
  import opened BlockCosts
  import opened Counting
  import opened InodeTable
  import opened LoggedBlocks
  import opened FileContents
  import opened Truncation
  import CrashRecovery

  class Fs {
    const sb: Super
    var blk: seq<Block>
    var ino: seq<Inode>
    var logged: set<nat>

    constructor (sb: Super, blk: seq<Block>, ino: seq<Inode>)
      ensures this.sb == sb && this.blk == blk && this.ino == ino && logged == {}
    {
      this.sb, this.blk, this.ino, logged := sb, blk, ino, {};
    }

    /** A new file system, as mkfs begins it: every block zero, and the metadata marked in use. */
    constructor Format(sb: Super, ninodes: nat)
      requires sb.Ok(ninodes)
      ensures Valid() && this.sb == sb && logged == {} && ino == seq(ninodes, i => EMPTY)
      ensures forall b :: 0 <= b < sb.size ==> (InUse(sb, blk, b) <==> b < sb.meta)
    {
      hide InUse, SetInUse;
      var d: seq<Block> := seq(sb.size, i => Zeros());
      var b := 0;
      NoBits(sb, d);
      while b < sb.meta
        invariant 0 <= b <= sb.meta && |d| == sb.size
        invariant forall c :: 0 <= c < sb.size ==> (InUse(sb, d, c) <==> c < b)
        invariant forall x :: 0 <= x < sb.size && !(sb.bmapstart <= x < sb.meta) ==> d[x] == Zeros()
      {
        MarkedInUse(sb, d, b);
        d := SetInUse(sb, d, b, true);
        b := b + 1;
      }
      Formatted(sb, d, ninodes);
      this.sb, blk, ino, logged := sb, d, seq(ninodes, i => EMPTY), {};
    }

    /** Zero a block. */
    method Bzero(b: nat)
      requires b < |blk|
      modifies this`blk, this`logged
      ensures blk == old(blk)[b := Zeros()] && logged == old(logged) + {b}
    {
      blk := blk[b := Zeros()];
      logged := logged + {b};
    }

    /** The first free block, marked in use and zeroed; None is the panic "out of blocks". */
    method Balloc() returns (r: Option<nat>)
      requires sb.Ok(0) && |blk| == sb.size
      modifies this`blk, this`logged
      ensures |blk| == sb.size
      ensures r.None? ==>
                && blk == old(blk) && logged == old(logged)
                && (forall c :: 0 <= c < sb.size ==> InUse(sb, old(blk), c))
      ensures r.Some? ==>
                && r.value < sb.size && !InUse(sb, old(blk), r.value)
                && (forall c :: 0 <= c < r.value ==> InUse(sb, old(blk), c))
                && blk == Allocated(sb, old(blk), r.value)
                && logged == old(logged) + {sb.BitmapBlock(r.value), r.value}
    {
      hide HasBit, PutBit, Super.BitmapBlock;
      var b := 0;
      while b < sb.size
        invariant b % BPB == 0 && blk == old(blk) && logged == old(logged)
        invariant forall c :: 0 <= c < b && c < sb.size ==> InUse(sb, blk, c)
      {
        var x, bi := sb.BitmapBlock(b), 0;
        BitmapInRange(sb, b);
        while bi < BPB && b + bi < sb.size
          invariant 0 <= bi <= BPB && blk == old(blk) && logged == old(logged)
          invariant forall c :: 0 <= c < b + bi && c < sb.size ==> InUse(sb, blk, c)
        {
          BitAddress(sb, b, bi);
          if !HasBit(blk[x][bi / 8], bi % 8) {
            blk := blk[x := blk[x][bi / 8 := PutBit(blk[x][bi / 8], bi % 8, true)]];
            logged := logged + {x};
            Bzero(b + bi);
            return Some(b + bi);
          }
          bi := bi + 1;
        }
        b := b + BPB;
      }
      return None;
    }

    /** Clear the bit of a block; false is the panic "freeing free block". */
    method Bfree(b: nat) returns (ok: bool)
      requires sb.Ok(0) && |blk| == sb.size && b < sb.size
      modifies this`blk, this`logged
      ensures ok <==> InUse(sb, old(blk), b)
      ensures !ok ==> blk == old(blk) && logged == old(logged)
      ensures ok ==> blk == SetInUse(sb, old(blk), b, false) && logged == old(logged) + {sb.BitmapBlock(b)}
    {
      hide HasBit, PutBit, Super.BitmapBlock;
      var x, bi := sb.BitmapBlock(b), b % BPB;
      BitmapInRange(sb, b);
      BitAddress(sb, b - bi, bi);
      if !HasBit(blk[x][bi / 8], bi % 8) {
        return false;
      }
      blk := blk[x := blk[x][bi / 8 := PutBit(blk[x][bi / 8], bi % 8, false)]];
      logged := logged + {x};
      return true;
    }

    /** What bmap promises of its result: growth at inode i, and no change for a block that
        is there already. */
    twostate predicate Mapped(i: nat, bn: nat, addr: nat)
      requires i < |old(ino)| && bn < MAXFILE
      reads this
    {
      && Grown(sb, old(blk), old(ino), blk, ino, i)
      && Ref(blk, ino[i], bn) == addr != 0
      && (Ref(old(blk), old(ino)[i], bn) != 0 ==> blk == old(blk) && ino == old(ino) && logged == old(logged))
      && (Ref(old(blk), old(ino)[i], bn) == 0 ==> addr < |blk| && blk[addr] == Zeros())
    }

    /** The block of file block bn, allocated if there is none. None is a panic: bn out of
        range, or no free block. `touched` are blocks it may log, the result among them. */
    method Bmap(i: nat, bn: nat) returns (r: Option<nat>, ghost touched: set<nat>)
      requires Consistent(sb, blk, ino) && i < |ino|
      modifies this`blk, this`ino, this`logged
      ensures |blk| == sb.size && AllLogged(sb.inodestart, old(blk), old(logged), blk, logged)
      ensures r.None? && bn < MAXFILE ==> forall c :: 0 <= c < sb.size ==> InUse(sb, blk, c)
      ensures bn < MAXFILE && Ref(old(blk), old(ino)[i], bn) != 0 ==> r.Some?
      ensures r.Some? <==> bn < MAXFILE && !TooFew(sb, old(blk), old(ino)[i], Slots(bn))
      ensures r.Some? ==> bn < MAXFILE && Mapped(i, bn, r.value)
      ensures r.Some? ==> r.value in touched && |touched| <= 4 && logged <= old(logged) + touched
      ensures r.Some? ==> Spent(sb, old(blk), old(ino)[i], blk, ino[i], Slots(bn))
    {
      touched := {};
      NothingLogged(sb.inodestart, blk, logged);
      if bn < NDIRECT {
        r, touched := BmapDirect(i, bn);
        return;
      }
      if bn < MAXFILE {
        r, touched := BmapIndirect(i, bn);
        return;
      }
      return None, touched;
    }

    method BmapDirect(i: nat, bn: nat) returns (r: Option<nat>, ghost touched: set<nat>)
      requires Consistent(sb, blk, ino) && i < |ino| && bn < NDIRECT
      modifies this`blk, this`ino, this`logged
      ensures |blk| == sb.size && AllLogged(sb.inodestart, old(blk), old(logged), blk, logged)
      ensures r.None? ==> forall c :: 0 <= c < sb.size ==> InUse(sb, blk, c)
      ensures Ref(old(blk), old(ino)[i], bn) != 0 ==> r.Some?
      ensures r.Some? <==> !TooFew(sb, old(blk), old(ino)[i], {bn})
      ensures r.Some? ==> Mapped(i, bn, r.value)
      ensures r.Some? ==> r.value in touched && |touched| <= 4 && logged <= old(logged) + touched
      ensures r.Some? ==> Spent(sb, old(blk), old(ino)[i], blk, ino[i], {bn})
    {
      assert Consistent(sb, blk, ino) && sb.Ok(|ino|) && |blk| == sb.size && Readable(blk, ino);
      hide InUse, Consistent, Grown, Allocated, AllLogged, Gained, TooFew, Spent, UsedBits, Refs;
      NothingLogged(sb.inodestart, blk, logged);
      GrownRefl(sb, blk, ino, i);
      var addr := ino[i].addrs[bn];
      if addr != 0 {
        SpentNone(sb, blk, ino[i], bn);
      }
      touched := {addr};
      if addr == 0 {
        var b := Balloc();
        if b.None? {
          AllUsed(sb, blk, ino, i, bn, {bn});
          return None, touched;
        }
        addr := b.value;
        FillDirect(sb, old(blk), ino, i, bn, addr);
        SpentOne(sb, old(blk), ino[i], blk, WithAddr(ino, i, bn, addr)[i], bn, addr);
        FreeIsUnowned(sb, old(blk), ino, addr);
        AllocLogged(sb, old(blk), old(logged), addr);
        touched := {sb.BitmapBlock(addr), addr};
        ino := WithAddr(ino, i, bn, addr);
      }
      return Some(addr), touched;
    }

    method BmapIndirect(i: nat, bn: nat) returns (r: Option<nat>, ghost touched: set<nat>)
      requires Consistent(sb, blk, ino) && i < |ino| && NDIRECT <= bn < MAXFILE
      modifies this`blk, this`ino, this`logged
      ensures |blk| == sb.size && AllLogged(sb.inodestart, old(blk), old(logged), blk, logged)
      ensures r.None? ==> forall c :: 0 <= c < sb.size ==> InUse(sb, blk, c)
      ensures Ref(old(blk), old(ino)[i], bn) != 0 ==> r.Some?
      ensures r.Some? <==> !TooFew(sb, old(blk), old(ino)[i], {MAXFILE, bn})
      ensures r.Some? ==> Mapped(i, bn, r.value)
      ensures r.Some? ==> r.value in touched && |touched| <= 4 && logged <= old(logged) + touched
      ensures r.Some? ==> Spent(sb, old(blk), old(ino)[i], blk, ino[i], {MAXFILE, bn})
    {
      hide Owned, RefTable, UsedBits, InUse, AllLogged, Gained, TooFew, Spent, Refs;
      NothingLogged(sb.inodestart, blk, logged);
      assert {MAXFILE} + {bn} == {MAXFILE, bn};
      touched := {};
      var addr := ino[i].addrs[NDIRECT];
      if addr != 0 {
        SpentNone(sb, blk, ino[i], MAXFILE);
        r := BmapEntry(i, bn);
        SpentTwo(sb, old(blk), old(ino)[i], old(blk), old(ino)[i], blk, ino[i], {MAXFILE}, {bn}, r.Some?);
        touched := if r.Some? then {r.value, sb.BitmapBlock(r.value), addr} else {};
        return;
      }
      var b := Balloc();
      if b.None? {
        AllUsed(sb, blk, ino, i, MAXFILE, {MAXFILE, bn});
        return None, touched;
      }
      addr := b.value;
      FillIndirect(sb, old(blk), ino, i, addr);
      SpentOne(sb, old(blk), ino[i], blk, WithAddr(ino, i, NDIRECT, addr)[i], MAXFILE, addr);
      FreeIsUnowned(sb, old(blk), ino, addr);
      AllocLogged(sb, old(blk), old(logged), addr);
      ino := WithAddr(ino, i, NDIRECT, addr);
      ghost var mid, midIno, midLog := blk, ino, logged;
      ZerosAreZero(bn - NDIRECT);
      r := BmapEntry(i, bn);
      LoggedBoth(sb.inodestart, old(blk), old(logged), mid, midLog, blk, logged);
      SpentTwo(sb, old(blk), old(ino)[i], mid, midIno[i], blk, ino[i], {MAXFILE}, {bn}, r.Some?);
      if r.Some? {
        GrownTrans(sb, old(blk), old(ino), mid, midIno, blk, ino, i);
        touched := {r.value, sb.BitmapBlock(r.value), addr, sb.BitmapBlock(addr)};
        FourAtMost(r.value, sb.BitmapBlock(r.value), addr, sb.BitmapBlock(addr));
      }
    }

    /** The entry of file block bn in the indirect block, filled if it is empty. */
    method BmapEntry(i: nat, bn: nat) returns (r: Option<nat>)
      requires Consistent(sb, blk, ino) && i < |ino| && NDIRECT <= bn < MAXFILE
      requires ino[i].addrs[NDIRECT] != 0
      modifies this`blk, this`logged
      ensures |blk| == sb.size && AllLogged(sb.inodestart, old(blk), old(logged), blk, logged)
      ensures r.None? ==> forall c :: 0 <= c < sb.size ==> InUse(sb, blk, c)
      ensures Ref(old(blk), old(ino)[i], bn) != 0 ==> r.Some?
      ensures r.Some? <==> !TooFew(sb, old(blk), old(ino)[i], {bn})
      ensures r.Some? ==> Mapped(i, bn, r.value)
      ensures r.Some? ==> logged <= old(logged) + {r.value, sb.BitmapBlock(r.value), ino[i].addrs[NDIRECT]}
      ensures r.Some? ==> Spent(sb, old(blk), old(ino)[i], blk, ino[i], {bn})
    {
      assert Consistent(sb, blk, ino) && sb.Ok(|ino|) && |blk| == sb.size && Readable(blk, ino);
      hide InUse, Consistent, Grown, SetInUse, Allocated, AllLogged, Gained, TooFew, Spent, UsedBits, Refs;
      NothingLogged(sb.inodestart, blk, logged);
      GrownRefl(sb, blk, ino, i);
      var x := ino[i].addrs[NDIRECT];
      var addr := Word(blk[x], bn - NDIRECT);
      if addr != 0 {
        SpentNone(sb, blk, ino[i], bn);
      }
      if addr == 0 {
        var b := Balloc();
        if b.None? {
          AllUsed(sb, blk, ino, i, bn, {bn});
          return None;
        }
        addr := b.value;
        FillEntry(sb, old(blk), ino, i, bn, addr);
        SpentOne(sb, old(blk), ino[i], Entered(sb, old(blk), x, bn - NDIRECT, addr), ino[i], bn, addr);
        FreeIsUnowned(sb, old(blk), ino, addr);
        EntryLogged(sb, old(blk), ino, old(logged), i, bn, addr);
        assert Ref(old(blk), ino[i], MAXFILE) == x;
        blk := blk[x := PutWord(blk[x], bn - NDIRECT, addr)];
        logged := logged + {x};
      }
      return Some(addr);
    }

    /** Copy an in-memory inode to its place on disk. */
    method Iupdate(i: nat)
      requires sb.Ok(|ino|) && |blk| == sb.size && i < |ino| && ino[i].Fits()
      modifies this`blk, this`logged
      ensures |blk| == |old(blk)| && blk == old(blk)[sb.InodeBlock(i) := blk[sb.InodeBlock(i)]]
      ensures StoredAs(sb, blk, i, ino[i])
      ensures forall j, jp :: j != i && StoredAs(sb, old(blk), j, jp) ==> StoredAs(sb, blk, j, jp)
      ensures logged == old(logged) + {sb.InodeBlock(i)}
    {
      var x, base, w := sb.InodeBlock(i), i % IPB * DINODE_WORDS, Encode(ino[i]);
      var b, k := blk[x], 0;
      while k < DINODE_WORDS
        invariant 0 <= k <= DINODE_WORDS
        invariant forall t :: 0 <= t < WORDS ==>
                    Word(b, t) == if base <= t < base + k then w[t - base] else Word(old(blk)[x], t)
      {
        b := PutWord(b, base + k, w[k]);
        k := k + 1;
      }
      blk := blk[x := b];
      logged := logged + {x};
      forall j, jp | j != i && StoredAs(sb, old(blk), j, jp)
        ensures StoredAs(sb, blk, j, jp)
      {
        InodeStored(sb, old(blk), blk, i, ino[i], j, jp);
      }
      InodeStored(sb, old(blk), blk, i, ino[i], i, ino[i]);
    }

    /** ilock: the inode as the disk has it. */
    method ReadInode(i: nat) returns (ip: Inode)
      requires sb.InodeBlock(i) < |blk|
      ensures forall jp :: StoredAs(sb, blk, i, jp) ==> ip == jp
    {
      hide Encode, Decode, Super.InodeBlock, Word;
      var x, base := sb.InodeBlock(i), i % IPB * DINODE_WORDS;
      var w: seq<word> := [];
      while |w| < DINODE_WORDS
        invariant |w| <= DINODE_WORDS
        invariant forall k :: 0 <= k < |w| ==> w[k] == Word(blk[x], base + k)
      {
        w := w + [Word(blk[x], base + |w|)];
      }
      ip := Decode(w);
      forall jp | StoredAs(sb, blk, i, jp)
        ensures ip == jp
      {
        assert w == Encode(jp);
        DecodeEncode(jp);
      }
    }

    ghost predicate Valid()
      reads this
    {
      Sound(sb, blk, ino)
    }

    /** The bytes of the file at [off, off + n), as far as it goes; nothing is allocated. */
    method Readi(i: nat, off: word, n: word) returns (r: Io, data: seq<byte>)
      requires Valid() && i < |ino|
      modifies this`blk, this`ino, this`logged
      ensures blk == old(blk) && ino == old(ino) && logged == old(logged)
      ensures r == Device <==> ino[i].ty == T_DEV
      ensures ino[i].ty != T_DEV ==> (r == Error <==> off > ino[i].size || off + n >= 0x1_0000_0000)
      ensures r == Device || r == Error || r == Done(|data|)
      ensures r.Done? ==> data == Content(blk, ino[i])[off..Min(off + n, ino[i].size)]
    {
      data := [];
      if ino[i].ty == T_DEV {
        return Device, data;
      }
      var end := (off + n) % 0x1_0000_0000;
      Wraps(off, n);
      if off > ino[i].size || end < off {
        return Error, data;
      }
      var n' := if end > ino[i].size then ino[i].size - off else n;
      data := ReadRange(i, off, n');
      return Done(n'), data;
    }

    /** The loop of readi, once the range is within the file. */
    method ReadRange(i: nat, off: nat, n: nat) returns (data: seq<byte>)
      requires Valid() && i < |ino| && off + n <= ino[i].size
      modifies this`blk, this`ino, this`logged
      ensures blk == old(blk) && ino == old(ino) && logged == old(logged)
      ensures data == Content(blk, ino[i])[off..off + n]
    {
      assert NoHoles(blk, ino[i]);
      ghost var c := Content(blk, ino[i]);
      hide Consistent, NoHoles, StoredAs, Content;
      data := [];
      var tot := 0;
      while tot < n
        invariant 0 <= tot == |data| <= n && blk == old(blk) && ino == old(ino) && logged == old(logged)
        invariant data == c[off..off + tot]
      {
        var m := Min(n - tot, BSIZE - (off + tot) % BSIZE);
        var piece := ReadPiece(i, off + tot, m);
        data := data + piece;
        tot := tot + m;
      }
    }

    /** One turn of readi: a piece of one block. */
    method ReadPiece(i: nat, o: nat, m: nat) returns (piece: seq<byte>)
      requires Valid() && i < |ino| && 0 < m && o + m <= ino[i].size && o % BSIZE + m <= BSIZE
      modifies this`blk, this`ino, this`logged
      ensures blk == old(blk) && ino == old(ino) && logged == old(logged)
      ensures |piece| == m && piece == Content(blk, ino[i])[o..o + m]
    {
      hide Owned, UsedBits, RefTable, Ref, FileBlock;
      assert Present(blk, ino[i], o);
      var b, _ := Bmap(i, o / BSIZE);
      RefIsData(sb, blk, ino, i, o / BSIZE);
      PieceOfContent(blk, ino[i], o, m);
      piece := blk[b.value][o % BSIZE..o % BSIZE + m];
    }

    /** writei is this far. */
    ghost predicate Writing(blk0: seq<Block>, ino0: seq<Inode>, i: nat, off: nat, tot: nat, src: seq<byte>)
      reads this
    {
      WrittenSoFar(sb, blk0, ino0, blk, ino, i, off, tot, src)
    }

    /** One turn of writei; false is a panic for want of blocks. */
    method WritePiece(ghost blk0: seq<Block>, ghost ino0: seq<Inode>, i: nat, off: nat, tot: nat, m: nat,
                      src: seq<byte>)
      returns (ok: bool)
      requires Consistent(sb, blk, ino) && Writing(blk0, ino0, i, off, tot, src)
      requires 0 < m && tot + m <= |src| && off + |src| <= MAXBYTES && (off + tot) % BSIZE + m <= BSIZE
      modifies this`blk, this`ino, this`logged
      ensures |blk| == sb.size && AllLogged(sb.inodestart, old(blk), old(logged), blk, logged)
      ensures !ok ==> forall c :: 0 <= c < sb.size ==> InUse(sb, blk, c)
      ensures ok ==> Consistent(sb, blk, ino) && Writing(blk0, ino0, i, off, tot + m, src)
      ensures ok ==> |logged| <= |old(logged)| + 4
      ensures i < |old(ino)| && (ok <==> !TooFew(sb, old(blk), old(ino)[i], Slots((off + tot) / BSIZE)))
      ensures ok ==> i < |ino| && Spent(sb, old(blk), old(ino)[i], blk, ino[i], Slots((off + tot) / BSIZE))
    {
      hide Consistent, Grown, Ref, InUse, AllLogged, WrittenSoFar, Spent, TooFew, Slots, Patch;
      var o := off + tot;
      WrittenFits(sb, blk0, ino0, blk, ino, i, off, tot, src);
      ghost var was, wasIno := blk, ino;
      var b, touched := Bmap(i, o / BSIZE);
      if b.None? {
        return false;
      }
      var addr := b.value;
      PieceWritten(sb, blk0, ino0, was, wasIno, old(logged), blk, ino, logged, touched, i, off, tot, m, src, addr);
      blk := blk[addr := Patch(blk[addr], o % BSIZE, src[tot..tot + m])];
      logged := logged + {addr};
      return true;
    }

    /** The loop of writei has come to `tot`: the bytes so far are written, with the blocks that
        they lacked, and everything changed is logged. */
    ghost predicate WritingRange(blk0: seq<Block>, ino0: seq<Inode>, log0: set<nat>, i: nat, off: nat, src: seq<byte>,
                                 tot: nat, turns: nat)
      reads this
    {
      && Consistent(sb, blk, ino) && Writing(blk0, ino0, i, off, tot, src) && i < |ino0| == |ino|
      && tot <= |src| && off + |src| <= MAXBYTES
      && AllLogged(sb.inodestart, blk0, log0, blk, logged)
      && Spent(sb, blk0, ino0[i], blk, ino[i], Wanted(off, tot))
      && AfterTurns(off, |src|, turns, tot) && |logged| <= |log0| + 4 * turns
    }

    /** One turn of the loop; false is a panic. */
    method WriteNext(ghost blk0: seq<Block>, ghost ino0: seq<Inode>, ghost log0: set<nat>, i: nat, off: nat,
                     src: seq<byte>, tot: nat, ghost turns: nat) returns (ok: bool, next: nat)
      requires WritingRange(blk0, ino0, log0, i, off, src, tot, turns) && tot < |src|
      modifies this`blk, this`ino, this`logged
      ensures |blk| == sb.size && AllLogged(sb.inodestart, blk0, log0, blk, logged)
      ensures !ok ==> forall c :: 0 <= c < sb.size ==> InUse(sb, blk, c)
      ensures !ok ==> TooFew(sb, blk0, ino0[i], Wanted(off, |src|))
      ensures ok ==> tot < next <= |src| && WritingRange(blk0, ino0, log0, i, off, src, next, turns + 1)
    {
      hide Consistent, InUse, WrittenSoFar, AfterTurns, Pieces, AllLogged, Spent, TooFew, Slots, Wanted;
      TurnsContinue(off, |src|, turns, tot);
      ghost var mid, midIno, midLog := blk, ino, logged;
      var m := Min(|src| - tot, BSIZE - (off + tot) % BSIZE);
      next := tot + m;
      ok := WritePiece(blk0, ino0, i, off, tot, m, src);
      LoggedBoth(sb.inodestart, blk0, log0, mid, midLog, blk, logged);
      WantedMore(off, tot, m, |src|);
      SpentOn(sb, blk0, ino0[i], mid, midIno[i], blk, if i < |ino| then ino[i] else midIno[i], Wanted(off, tot),
              Slots((off + tot) / BSIZE), Wanted(off, |src|), ok);
      if ok {
        WrittenFits(sb, blk0, ino0, blk, ino, i, off, next, src);
      }
    }

    /** The loop of writei, once the range is admitted; false is a panic. */
    method WriteRange(i: nat, off: nat, src: seq<byte>) returns (ok: bool)
      requires Consistent(sb, blk, ino) && i < |ino| && NoHoles(blk, ino[i])
      requires off <= ino[i].size && off + |src| <= MAXBYTES
      modifies this`blk, this`ino, this`logged
      ensures |blk| == sb.size && AllLogged(sb.inodestart, old(blk), old(logged), blk, logged)
      ensures !ok ==> forall c :: 0 <= c < sb.size ==> InUse(sb, blk, c)
      ensures ok ==> Consistent(sb, blk, ino) && Writing(old(blk), old(ino), i, off, |src|, src)
      ensures ok ==> |logged| <= |old(logged)| + 4 * Pieces(off, |src|)
      ensures ok <==> !TooFew(sb, old(blk), old(ino)[i], Wanted(off, |src|))
      ensures ok ==> i < |ino| && Spent(sb, old(blk), old(ino)[i], blk, ino[i], Wanted(off, |src|))
    {
      hide InUse, Written, OthersKept, AfterTurns, Pieces, AllLogged, Spent, TooFew, Wanted, WrittenSoFar, Owned,
        NoHoles;
      WritingNothing(i, off, src);
      ghost var blk0, ino0, log0, turns := blk, ino, logged, 0;
      NothingLogged(sb.inodestart, blk, logged);
      SpentNothing(sb, blk, ino[i], off);
      TurnsBegin(off, |src|);
      var tot := 0;
      while tot < |src|
        invariant 0 <= tot <= |src| && WritingRange(blk0, ino0, log0, i, off, src, tot, turns)
      {
        ok, tot := WriteNext(blk0, ino0, log0, i, off, src, tot, turns);
        if !ok {
          return;
        }
        turns := turns + 1;
      }
      TurnsEnd(off, |src|, turns);
      SpentEnough(sb, blk0, ino0[i], blk, ino[i], Wanted(off, |src|));
      return true;
    }

    lemma WritingNothing(i: nat, off: nat, src: seq<byte>)
      requires Consistent(sb, blk, ino) && i < |ino| && NoHoles(blk, ino[i])
      requires off <= ino[i].size && off + |src| <= MAXBYTES
      ensures Writing(blk, ino, i, off, 0, src)
    {
      GrownRefl(sb, blk, ino, i);
      GrownKeepsOthers(sb, blk, ino, blk, ino, i);
    }

    /** Give an inode another size and write it through. */
    method Resize(i: nat, size: nat)
      requires Consistent(sb, blk, ino) && i < |ino| && size <= MAXBYTES
      modifies this`blk, this`ino, this`logged
      ensures Consistent(sb, blk, ino) && ino == old(ino)[i := old(ino)[i].(size := size)]
      ensures BytesKept(old(blk), old(ino), blk, ino) && UsedBits(sb, blk) == UsedBits(sb, old(blk))
      ensures Refs(blk, ino[i]) == Refs(old(blk), old(ino)[i])
      ensures StoredAs(sb, blk, i, ino[i])
      ensures forall j, jp :: j != i && StoredAs(sb, old(blk), j, jp) ==> StoredAs(sb, blk, j, jp)
      ensures |logged| <= |old(logged)| + 1 && AllLogged(sb.inodestart, old(blk), old(logged), blk, logged)
      ensures logged == old(logged) + {sb.InodeBlock(i)}
    {
      ghost var x := sb.InodeBlock(i);
      assert sb.inodestart <= x < sb.bmapstart;
      ino := ino[i := ino[i].(size := size)];
      Iupdate(i);
      LoggedOne(sb.inodestart, old(blk), old(logged), x, blk[x]);
      RefsKept(sb, old(blk), old(ino), i, blk, ino[i]);
      InodeWriteKeepsBytes(sb, old(blk), old(ino), i, ino[i], x, blk[x]);
    }

    /** The end of writei: a larger size, written through. */
    method Conclude(ghost blk0: seq<Block>, ghost ino0: seq<Inode>, i: nat, off: nat, src: seq<byte>)
      requires Consistent(sb, blk, ino) && Writing(blk0, ino0, i, off, |src|, src)
      requires Consistent(sb, blk0, ino0)
      requires forall j :: 0 <= j < |ino0| ==> NoHoles(blk0, ino0[j])
      requires forall j :: 0 <= j < |ino0| ==> StoredAs(sb, blk0, j, ino0[j])
      modifies this`blk, this`ino, this`logged
      ensures Valid() && |ino| == |ino0| && |logged| <= |old(logged)| + 1
      ensures AllLogged(sb.inodestart, old(blk), old(logged), blk, logged)
      ensures i < |old(ino)| && ino[i].addrs == old(ino)[i].addrs && |blk| == |old(blk)|
      ensures UsedBits(sb, blk) == UsedBits(sb, old(blk)) && Refs(blk, ino[i]) == Refs(old(blk), old(ino)[i])
      ensures ino[i] == ino0[i].(addrs := ino[i].addrs, size := Max(ino0[i].size, off + |src|))
      ensures Content(blk, ino[i]) == Overwrite(Content(blk0, ino0[i]), off, src)
      ensures forall j :: 0 <= j < |ino| && j != i ==>
                ino[j] == ino0[j] && Content(blk, ino[j]) == Content(blk0, ino0[j])
    {
      hide Owned, UsedBits, RefTable, Ref, Refs, FileBlock, AllLogged;
      NothingLogged(sb.inodestart, blk, logged);
      forall j | 0 <= j < |ino| && j != i
        ensures NoHoles(blk, ino[j]) && Content(blk, ino[j]) == Content(blk0, ino0[j])
      {
        OthersReadSame(sb, blk0, ino0, blk, ino, i, j);
      }
      forall j | 0 <= j < |ino|
        ensures StoredAs(sb, blk, j, ino0[j])
      {
        StoredKept(sb, blk0, blk, |ino|, j, ino0[j]);
      }
      if |src| > 0 && off + |src| > ino[i].size {
        ghost var mid, midIno := blk, ino;
        Resize(i, off + |src|);
        BytesKeptWritten(blk0, ino0[i], mid, midIno, blk, ino, i, off, |src|, src);
        forall j | 0 <= j < |ino| && j != i
          ensures NoHoles(blk, ino[j]) && Content(blk, ino[j]) == Content(mid, ino[j])
        {
          BytesKeptRead(mid, midIno, blk, ino, j);
        }
      }
      WrittenIsOverwrite(blk0, ino0[i], blk, ino[i], off, src);
    }

    /** Replace or extend the bytes of a file from `off` on. */
    method Writei(i: nat, src: seq<byte>, off: word) returns (r: Io)
      requires Valid() && i < |ino| && |src| < 0x1_0000_0000
      modifies this`blk, this`ino, this`logged
      ensures AllLogged(sb.inodestart, old(blk), old(logged), blk, logged)
      ensures |blk| == sb.size && (r != Panic ==> |ino| == |old(ino)|)
      ensures r == Device <==> old(ino)[i].ty == T_DEV
      ensures r == Error <==> old(ino)[i].ty != T_DEV && !Writable(old(ino)[i], off, |src|)
      ensures r == Panic <==>
                && old(ino)[i].ty != T_DEV && Writable(old(ino)[i], off, |src|)
                && TooFew(sb, old(blk), old(ino)[i], Wanted(off, |src|))
      ensures r.Done? ==> Spent(sb, old(blk), old(ino)[i], blk, ino[i], Wanted(off, |src|))
      ensures r == Panic ==> forall c :: 0 <= c < sb.size ==> InUse(sb, blk, c)
      ensures r == Device || r == Error ==> blk == old(blk) && ino == old(ino) && logged == old(logged)
      ensures r == Device || r == Error || r == Panic || r == Done(|src|)
      ensures r.Done? ==>
                && Valid()
                && ino[i] == old(ino)[i].(addrs := ino[i].addrs, size := Max(old(ino)[i].size, off + |src|))
                && Content(blk, ino[i]) == Overwrite(Content(old(blk), old(ino)[i]), off, src)
      ensures r.Done? ==> forall j :: 0 <= j < |ino| && j != i ==>
                ino[j] == old(ino)[j] && Content(blk, ino[j]) == Content(old(blk), old(ino)[j])
      ensures r.Done? ==> |logged| <= |old(logged)| + 4 * Pieces(off, |src|) + 1
    {
      hide AllLogged, Spent, TooFew, Wanted, UsedBits, Refs;
      NothingLogged(sb.inodestart, blk, logged);
      if ino[i].ty == T_DEV {
        return Device;
      }
      var end := (off + |src|) % 0x1_0000_0000;
      if off > ino[i].size || end < off || end > MAXBYTES {
        return Error;
      }
      assert NoHoles(blk, ino[i]);
      var ok := WriteRange(i, off, src);
      if !ok {
        return Panic;
      }
      ghost var mid, midIno, midLog := blk, ino, logged;
      Conclude(old(blk), old(ino), i, off, src);
      SpentKept(sb, old(blk), old(ino)[i], mid, midIno[i], blk, ino[i], Wanted(off, |src|));
      LoggedBoth(sb.inodestart, old(blk), old(logged), mid, midLog, blk, logged);
      return Done(|src|);
    }

    /** One turn of itrunc: the block of reference k is freed if there is one. The panic
        "freeing free block" cannot be. */
    method FreeSlot(ghost blk0: seq<Block>, ghost ino0: seq<Inode>, ghost i: nat, ghost k: nat, b: nat)
      requires Freeing(sb, blk0, ino0, blk, i, k) && k <= MAXFILE && b == Ref(blk0, ino0[i], k)
      modifies this`blk, this`logged
      ensures Freeing(sb, blk0, ino0, blk, i, k + 1) && AllLogged(sb.inodestart, old(blk), old(logged), blk, logged)
      ensures logged <= old(logged) + Bitmap(sb)
    {
      FreeNext(sb, blk0, ino0, blk, i, k);
      if b != 0 {
        var ok := Bfree(b);
        assert ok;
        FreeLogged(sb, old(blk), old(logged), b);
        InBitmap(sb, b);
      }
    }

    method FreeDirect(i: nat)
      requires Consistent(sb, blk, ino) && i < |ino|
      modifies this`blk, this`ino, this`logged
      ensures Freeing(sb, old(blk), old(ino), blk, i, NDIRECT) && Cleared(old(ino), ino, i, NDIRECT)
      ensures AllLogged(sb.inodestart, old(blk), old(logged), blk, logged) && logged <= old(logged) + Bitmap(sb)
    {
      ghost var blk0, ino0 := blk, ino;
      FreeingBegins(sb, blk, ino, i);
      assert Cleared(ino0, ino, i, 0);
      hide Freeing, Consistent, WithAddr, AllLogged, Bitmap;
      NothingLogged(sb.inodestart, blk, logged);
      var k := 0;
      while k < NDIRECT
        invariant 0 <= k <= NDIRECT && Freeing(sb, blk0, ino0, blk, i, k) && Cleared(ino0, ino, i, k)
        invariant AllLogged(sb.inodestart, old(blk), old(logged), blk, logged) && logged <= old(logged) + Bitmap(sb)
      {
        ghost var mid, midLog := blk, logged;
        FreeSlot(blk0, ino0, i, k, ino[i].addrs[k]);
        LoggedBoth(sb.inodestart, old(blk), old(logged), mid, midLog, blk, logged);
        ClearNext(ino0, ino, i, k);
        ino := WithAddr(ino, i, k, 0);
        k := k + 1;
      }
    }

    method FreeIndirect(ghost blk0: seq<Block>, ghost ino0: seq<Inode>, i: nat, x: nat)
      requires Freeing(sb, blk0, ino0, blk, i, NDIRECT) && x == ino0[i].addrs[NDIRECT] != 0
      modifies this`blk, this`logged
      ensures Freeing(sb, blk0, ino0, blk, i, MAXFILE + 1)
      ensures AllLogged(sb.inodestart, old(blk), old(logged), blk, logged)
      ensures logged <= old(logged) + Bitmap(sb)
    {
      EntriesKept(sb, blk0, ino0, blk, i, NDIRECT);
      hide Freeing, Ref, Word, AllLogged, Bitmap;
      NothingLogged(sb.inodestart, blk, logged);
      var a := blk[x];
      var j := 0;
      while j < NINDIRECT
        invariant 0 <= j <= NINDIRECT && Freeing(sb, blk0, ino0, blk, i, NDIRECT + j)
        invariant AllLogged(sb.inodestart, old(blk), old(logged), blk, logged) && logged <= old(logged) + Bitmap(sb)
      {
        ghost var mid, midLog := blk, logged;
        FreeSlot(blk0, ino0, i, NDIRECT + j, Word(a, j));
        LoggedBoth(sb.inodestart, old(blk), old(logged), mid, midLog, blk, logged);
        j := j + 1;
      }
      ghost var mid, midLog := blk, logged;
      FreeSlot(blk0, ino0, i, MAXFILE, x);
      LoggedBoth(sb.inodestart, old(blk), old(logged), mid, midLog, blk, logged);
    }

    /** Discard the contents of an inode: its blocks and no others become free. */
    method Itrunc(i: nat)
      requires Valid() && i < |ino|
      modifies this`blk, this`ino, this`logged
      ensures Valid() && ino == old(ino)[i := Truncated(old(ino)[i])]
      ensures AllLogged(sb.inodestart, old(blk), old(logged), blk, logged)
      ensures logged <= old(logged) + Bitmap(sb) + {sb.InodeBlock(i)}
      ensures |logged| <= |old(logged)| + sb.size / BPB + 2
      ensures forall b :: sb.meta <= b < sb.size ==>
                (InUse(sb, blk, b) <==> InUse(sb, old(blk), b) && b !in Refs(old(blk), old(ino)[i]))
      ensures forall j :: 0 <= j < |ino| && j != i ==> Content(blk, ino[j]) == Content(old(blk), old(ino)[j])
    {
      hide AllLogged, Bitmap;
      ghost var blk0, ino0 := blk, ino;
      FreeDirect(i);
      ghost var mid, midLog := blk, logged;
      var x := ino[i].addrs[NDIRECT];
      if x != 0 {
        FreeIndirect(blk0, ino0, i, x);
        LoggedBoth(sb.inodestart, old(blk), old(logged), mid, midLog, blk, logged);
        ClearNext(ino0, ino, i, NDIRECT);
        ino := WithAddr(ino, i, NDIRECT, 0);
      } else {
        FreeRest(sb, blk0, ino0, blk, i, NDIRECT);
      }
      mid, midLog := blk, logged;
      FinishTruncation(blk0, ino0, i);
      LoggedBoth(sb.inodestart, old(blk), old(logged), mid, midLog, blk, logged);
      BitmapLogged(sb, old(logged), logged, sb.InodeBlock(i));
    }

    /** Truncation as an operation of its own. It is within its budget if the bitmap is short. */
    method TruncateOp(i: nat) returns (ghost op: Op)
      requires Valid() && i < |ino| && sb.size / BPB + 2 < CrashRecovery.MAXOPBLOCKS
      modifies this`blk, this`ino, this`logged
      ensures OneOp(sb, op) && op == Op(old(blk), old(ino), blk, ino, logged)
      ensures ino == old(ino)[i := Truncated(old(ino)[i])]
    {
      hide Sound, AllLogged, Bitmap;
      logged := {};
      Itrunc(i);
      op := Op(old(blk), old(ino), blk, ino, logged);
    }

    /** The end of itrunc: no bytes, and the inode written through. */
    method FinishTruncation(ghost blk0: seq<Block>, ghost ino0: seq<Inode>, i: nat)
      requires Freeing(sb, blk0, ino0, blk, i, MAXFILE + 1)
      requires Cleared(ino0, ino, i, NDIRECT + 1)
      requires forall j :: 0 <= j < |ino0| ==> NoHoles(blk0, ino0[j])
      requires forall j :: 0 <= j < |ino0| ==> StoredAs(sb, blk0, j, ino0[j])
      modifies this`blk, this`ino, this`logged
      ensures Valid() && ino == ino0[i := Truncated(ino0[i])]
      ensures AllLogged(sb.inodestart, old(blk), old(logged), blk, logged)
      ensures logged == old(logged) + {sb.InodeBlock(i)}
      ensures forall b :: sb.meta <= b < sb.size ==>
                (InUse(sb, blk, b) <==> InUse(sb, blk0, b) && b !in Refs(blk0, ino0[i]))
      ensures forall j :: 0 <= j < |ino| && j != i ==> Content(blk, ino[j]) == Content(blk0, ino0[j])
    {
      ClearedAll(ino0, ino, i);
      hide Owned, RefTable, UsedBits, Ref, BitsFreed, InUse, FileBlock, AllLogged;
      FreedAll(sb, blk0, ino0, blk, i, ino);
      ghost var mid, midIno := blk, ino;
      Resize(i, 0);
      forall b | sb.meta <= b < sb.size
        ensures InUse(sb, blk, b) <==> InUse(sb, blk0, b) && b !in Refs(blk0, ino0[i])
      {
        FreedOnly(sb, blk0, ino0, mid, i, blk, b);
      }
      forall j | 0 <= j < |ino| && j != i
        ensures NoHoles(blk, ino[j]) && Content(blk, ino[j]) == Content(blk0, ino0[j]) && StoredAs(sb, blk, j, ino[j])
      {
        OthersReadSame(sb, blk0, ino0, mid, midIno, i, j);
        BytesKeptRead(mid, midIno, blk, ino, j);
        StoredKept(sb, blk0, mid, |ino|, j, ino0[j]);
      }
    }

    /** One turn of filewrite, an operation of its own. */
    method WriteChunk(ghost blk0: seq<Block>, ghost ino0: seq<Inode>, i: nat, off: word, src: seq<byte>, at: nat,
                      n1: nat)
      returns (r: Io)
      requires 0 < n1 <= CHUNK && at + n1 <= |src| && (at > 0 ==> off + at <= MAXBYTES)
      requires Progress(sb, blk0, ino0, blk, ino, i, off, src[..at]) && ino0[i].ty != T_DEV
      requires Spent(sb, blk0, ino0[i], blk, ino[i], Wanted(off, at))
      modifies this`blk, this`ino, this`logged
      ensures r == Panic || r == Done(n1) || r == Error
      ensures r == Panic ==> |blk| == sb.size && forall c :: 0 <= c < sb.size ==> InUse(sb, blk, c)
      ensures r == Error <==> !Fileable(ino0[i], off, at + n1)
      ensures r == Panic ==> TooFew(sb, blk0, ino0[i], Wanted(off, at + n1))
      ensures r == Error ==> blk == old(blk) && ino == old(ino)
      ensures r.Done? ==> Progress(sb, blk0, ino0, blk, ino, i, off, src[..at + n1])
      ensures r.Done? ==> Spent(sb, blk0, ino0[i], blk, ino[i], Wanted(off, at + n1))
      ensures r.Done? ==> |logged| < CrashRecovery.MAXOPBLOCKS && AllLogged(sb.inodestart, old(blk), {}, blk, logged)
    {
      hide Sound, Content, Overwrite, InUse, Pieces, AllLogged, Spent, TooFew, Wanted;
      logged := {};
      ghost var mid, midIno := blk, ino;
      r := Writei(i, src[at..at + n1], off + at);
      WantedJoin(off, at, n1);
      if r == Panic {
        SpentTwo(sb, blk0, ino0[i], mid, midIno[i], mid, midIno[i], Wanted(off, at), Wanted(off + at, n1), false);
      }
      if r.Done? {
        SpentTwo(sb, blk0, ino0[i], mid, midIno[i], blk, ino[i], Wanted(off, at), Wanted(off + at, n1), true);
        PiecesOfChunk(off + at, n1);
        ProgressContinues(sb, blk0, ino0, mid, midIno, blk, ino, i, off, src, at, at + n1);
      }
    }

    /** Write n bytes to an open file, a bounded chunk at a time, each chunk an operation of its
        own; `end` is the new offset and `ops` are the operations. The panic "short filewrite" cannot
        be, and "out of blocks" comes exactly if the blocks that are lacking are more than are free. */
    method Filewrite(i: nat, src: seq<byte>, n: int, off: word) returns (r: Io, end: nat, ghost ops: seq<Op>)
      requires Valid() && i < |ino| && ino[i].ty != T_DEV && n <= |src| && n < 0x8000_0000
      modifies this`blk, this`ino, this`logged
      ensures r == Panic ==> |blk| == sb.size && forall c :: 0 <= c < sb.size ==> InUse(sb, blk, c)
      ensures r == Panic <==>
                0 < n && off <= old(ino)[i].size && TooFew(sb, old(blk), old(ino)[i], Wanted(off, Reach(off, n)))
      ensures r != Panic ==> r == if 0 <= n && Fileable(old(ino)[i], off, n) then Done(n) else Error
      ensures r != Panic ==> end == off + (if 0 < n && off <= old(ino)[i].size then Reach(off, n) else 0)
      ensures r != Panic ==> end - off <= |src| && Progress(sb, old(blk), old(ino), blk, ino, i, off, src[..end - off])
      ensures r != Panic ==> Operations(sb, old(blk), old(ino), ops, blk, ino)
    {
      hide Progress, Sound, InUse, OneOp, Spent, TooFew, Wanted, Chunked, Reach;
      ghost var blk0, ino0 := blk, ino;
      NextChunk(0, 0, n);
      ops := [];
      var at := 0;
      ProgressBegins(sb, blk, ino, i, off);
      SpentStarts(sb, blk, ino, i, off);
      r := Error;
      while at < n
        invariant 0 <= at && (at == 0 || at <= n) && Chunked(at, n)
        invariant Progress(sb, blk0, ino0, blk, ino, i, off, src[..at]) && i < |ino| == |ino0|
        invariant Spent(sb, blk0, ino0[i], blk, ino[i], Wanted(off, at))
        invariant at > 0 ==> off <= ino0[i].size && off + at <= MAXBYTES
        invariant Operations(sb, blk0, ino0, ops, blk, ino)
      {
        var n1 := Min(n - at, CHUNK);
        ghost var mid, midIno := blk, ino;
        r := WriteChunk(blk0, ino0, i, off, src, at, n1);
        if r == Panic {
          ReachPast(off, at, n1, n);
          FewerThan(sb, blk0, ino0[i], off, at + n1, Reach(off, n));
          return Panic, off, ops;
        }
        if r == Error {
          if off <= ino0[i].size {
            ReachHere(off, at, n1, n);
          }
          break;
        }
        NextChunk(at, n1, n);
        ProgressHas(sb, blk0, ino0, blk, ino, i, off, src[..at + n1]);
        NextOp(sb, blk0, ino0, ops, Op(mid, midIno, blk, ino, logged), i, off, src[..at], src[..at + n1]);
        ops := ops + [Op(mid, midIno, blk, ino, logged)];
        at := at + n1;
      }
      SpentEnough(sb, blk0, ino0[i], blk, ino[i], Wanted(off, at));
      ReachAll(off, n);
      return if at == n then Done(n) else Error, off + at, ops;
    }
  }

  /** How many bytes filewrite gets to: all, or whole chunks up to the longest file. */
  function Reach(off: nat, n: nat): nat {
    if off + n <= MAXBYTES then n else if off <= MAXBYTES then (MAXBYTES - off) / CHUNK * CHUNK else 0
  }

  /** The loop of filewrite stops at n or after whole chunks. */
  predicate Chunked(at: nat, n: int) {
    at == n || at % CHUNK == 0
  }

  lemma NextChunk(at: nat, n1: nat, n: int)
    requires n1 == 0 == at || (at < n && Chunked(at, n) && n1 == Min(n - at, CHUNK))
    ensures Chunked(at + n1, n)
  {
  }

  lemma ReachAll(off: nat, n: int)
    ensures n >= 0 && off + n <= MAXBYTES ==> Reach(off, n) == n
    ensures n >= 0 ==> Reach(off, n) <= n
  {
    if n >= 0 && off <= MAXBYTES < off + n {
      assert (MAXBYTES - off) / CHUNK * CHUNK <= MAXBYTES - off;
    }
  }

  lemma ReachHere(off: nat, at: nat, n1: nat, n: nat)
    requires Chunked(at, n) && at < n && n1 == Min(n - at, CHUNK) && off + at + n1 > MAXBYTES
    ensures off + at <= MAXBYTES ==> Reach(off, n) == at
  {
    if off + at <= MAXBYTES {
      var d := MAXBYTES - off;
      assert at <= d < at + CHUNK && at == at / CHUNK * CHUNK;
      assert d / CHUNK == at / CHUNK;
    }
  }

  lemma ReachPast(off: nat, at: nat, n1: nat, n: nat)
    requires Chunked(at, n) && at < n && at + n1 <= n && n1 == Min(n - at, CHUNK) && off + at + n1 <= MAXBYTES
    ensures at + n1 <= Reach(off, n)
  {
    if off + n > MAXBYTES {
      assert n1 == CHUNK && (at + n1) % CHUNK == 0;
      assert at + n1 == (at + n1) / CHUNK * CHUNK;
    }
  }

  lemma FewerThan(sb: Super, blk: seq<Block>, ip: Inode, off: nat, a: nat, b: nat)
    requires TooFew(sb, blk, ip, Wanted(off, a)) && a <= b
    ensures TooFew(sb, blk, ip, Wanted(off, b))
  {
    WantedIs(off, a);
    WantedIs(off, b);
    WantedGrows(off, a, b);
    ShortMore(UsedBits(sb, blk), Refs(blk, ip), Wanted(off, a), Wanted(off, b));
  }

  lemma WantedGrows(off: nat, a: nat, b: nat)
    requires a <= b
    ensures Wanted(off, a) <= Wanted(off, b)
  {
    if a > 0 {
      assert (off + a - 1) / BSIZE <= (off + b - 1) / BSIZE;
    }
  }

  lemma WantedJoin(off: nat, a: nat, b: nat)
    ensures Wanted(off, a) + Wanted(off + a, b) == Wanted(off, a + b)
  {
    WantedIs(off, a);
    WantedIs(off + a, b);
    WantedIs(off, a + b);
    if a > 0 && b > 0 {
      assert (off + a - 1) / BSIZE <= (off + a + b - 1) / BSIZE;
    }
  }

  lemma SpentStarts(sb: Super, blk: seq<Block>, ino: seq<Inode>, i: nat, off: nat)
    requires Sound(sb, blk, ino) && i < |ino|
    ensures Spent(sb, blk, ino[i], blk, ino[i], Wanted(off, 0))
  {
    SpentNothing(sb, blk, ino[i], off);
  }

  lemma ProgressHas(sb: Super, blk0: seq<Block>, ino0: seq<Inode>, blk: seq<Block>, ino: seq<Inode>,
                    i: nat, off: nat, data: seq<byte>)
    requires Progress(sb, blk0, ino0, blk, ino, i, off, data)
    ensures i < |ino| == |ino0|
  {
  }

  /** Inode i of (blk0, ino0) has had the first `tot` bytes of `src` written at `off`; its size
      is still the old one, and its addresses are too unless the end has moved on. */
  ghost predicate WrittenSoFar(sb: Super, blk0: seq<Block>, ino0: seq<Inode>, blk: seq<Block>, ino: seq<Inode>,
                               i: nat, off: nat, tot: nat, src: seq<byte>)
  {
    && OthersKept(sb, blk0, ino0, blk, ino, i)
    && ino[i] == ino0[i].(addrs := ino[i].addrs)
    && off <= ino0[i].size && Written(blk0, ino0[i], blk, ino[i], off, tot, src)
    && (ino[i] == ino0[i] || off + tot > ino0[i].size)
  }

  lemma WrittenFits(sb: Super, blk0: seq<Block>, ino0: seq<Inode>, blk: seq<Block>, ino: seq<Inode>,
                    i: nat, off: nat, tot: nat, src: seq<byte>)
    requires WrittenSoFar(sb, blk0, ino0, blk, ino, i, off, tot, src)
    ensures i < |ino| == |ino0|
  {
  }

  /** The turn from (blk, ino), where bmap has led to (blk1, ino1). */
  lemma WrittenMore(sb: Super, blk0: seq<Block>, ino0: seq<Inode>, blk: seq<Block>, ino: seq<Inode>,
                    blk1: seq<Block>, ino1: seq<Inode>, i: nat, off: nat, tot: nat, m: nat, src: seq<byte>, addr: nat)
    requires WrittenSoFar(sb, blk0, ino0, blk, ino, i, off, tot, src) && Grown(sb, blk, ino, blk1, ino1, i)
    requires 0 < m && tot + m <= |src| && off + |src| <= MAXBYTES && (off + tot) % BSIZE + m <= BSIZE
    requires (off + tot) / BSIZE < MAXFILE && Ref(blk1, ino1[i], (off + tot) / BSIZE) == addr != 0 && addr < |blk1|
    requires Ref(blk, ino[i], (off + tot) / BSIZE) != 0 ==> ino1 == ino
    ensures var blk2 := blk1[addr := Patch(blk1[addr], (off + tot) % BSIZE, src[tot..tot + m])];
            Consistent(sb, blk2, ino1) && WrittenSoFar(sb, blk0, ino0, blk2, ino1, i, off, tot + m, src)
  {
    hide Owned, UsedBits, RefTable, Ref, FileBlock;
    var o := off + tot;
    assert Present(blk1, ino1[i], o);
    assert Present(blk, ino[i], o) || o >= ino0[i].size;
    WriteTurn(sb, blk0, ino0[i], blk, ino, blk1, ino1, i, off, tot, m, src);
    var blk2 := blk1[addr := Patch(blk1[addr], o % BSIZE, src[tot..tot + m])];
    GrownKeepsOthers(sb, blk, ino, blk1, ino1, i);
    OthersKeptTrans(sb, blk0, ino0, blk, ino, blk1, ino1, i);
    OthersKeptTrans(sb, blk0, ino0, blk1, ino1, blk2, ino1, i);
  }

  /** The references that file block bn needs. */
  function Slots(bn: nat): set<nat> {
    if bn < NDIRECT then {bn} else {MAXFILE, bn}
  }

  /** The references that the bytes [off, off + n) need. */
  ghost function Wanted(off: nat, n: nat): set<nat> {
    (set p: nat | off <= p < off + n :: p / BSIZE)
    + (if n > 0 && (off + n - 1) / BSIZE >= NDIRECT then {MAXFILE} else {})
  }

  ghost predicate Countable(sb: Super, blk: seq<Block>, ip: Inode) {
    sb.Ok(0) && |blk| == sb.size && |ip.addrs| == NDIRECT + 1 && ip.addrs[NDIRECT] < |blk|
  }

  /** From (blk, ip) to (blk', ip'), the references `wanted` have been filled, each that was
      empty with a free block. */
  ghost predicate Spent(sb: Super, blk: seq<Block>, ip: Inode, blk': seq<Block>, ip': Inode, wanted: set<nat>) {
    && Countable(sb, blk, ip) && Countable(sb, blk', ip')
    && Took(UsedBits(sb, blk), Refs(blk, ip), UsedBits(sb, blk'), Refs(blk', ip'), wanted)
  }

  /** There are fewer free blocks than the references `wanted` of the inode lack. */
  ghost predicate TooFew(sb: Super, blk: seq<Block>, ip: Inode, wanted: set<nat>) {
    Countable(sb, blk, ip) && Short(UsedBits(sb, blk), Refs(blk, ip), wanted)
  }

  lemma SpentEnough(sb: Super, blk: seq<Block>, ip: Inode, blk': seq<Block>, ip': Inode, wanted: set<nat>)
    requires Spent(sb, blk, ip, blk', ip', wanted)
    ensures !TooFew(sb, blk, ip, wanted)
  {
  }

  lemma SpentNothing(sb: Super, blk: seq<Block>, ip: Inode, off: nat)
    requires Countable(sb, blk, ip)
    ensures Spent(sb, blk, ip, blk, ip, Wanted(off, 0))
  {
    TookNone(UsedBits(sb, blk), Refs(blk, ip), Wanted(off, 0));
  }

  lemma SpentNone(sb: Super, blk: seq<Block>, ip: Inode, k: nat)
    requires Countable(sb, blk, ip) && k <= MAXFILE && Ref(blk, ip, k) != 0
    ensures Spent(sb, blk, ip, blk, ip, {k}) && !TooFew(sb, blk, ip, {k})
  {
    TookNone(UsedBits(sb, blk), Refs(blk, ip), {k});
    SpentEnough(sb, blk, ip, blk, ip, {k});
  }

  lemma SpentOne(sb: Super, blk: seq<Block>, ip: Inode, blk': seq<Block>, ip': Inode, k: nat, b: nat)
    requires Gained(sb, blk, ip, blk', ip', k, b)
    ensures Spent(sb, blk, ip, blk', ip', {k}) && !TooFew(sb, blk, ip, {k})
  {
    TookOne(UsedBits(sb, blk), Refs(blk, ip), b, k);
    SpentEnough(sb, blk, ip, blk', ip', {k});
  }

  lemma AllUsed(sb: Super, blk: seq<Block>, ino: seq<Inode>, i: nat, k: nat, wanted: set<nat>)
    requires Consistent(sb, blk, ino) && i < |ino| && k <= MAXFILE && k in wanted && Ref(blk, ino[i], k) == 0
    requires forall c :: 0 <= c < sb.size ==> InUse(sb, blk, c)
    ensures TooFew(sb, blk, ino[i], wanted)
  {
    hide InUse;
    NoneFree(UsedBits(sb, blk), Refs(blk, ino[i]), wanted, k);
  }

  /** A part spent, and then another, or blocks lacking for it. */
  lemma SpentTwo(sb: Super, blk: seq<Block>, ip: Inode, blk1: seq<Block>, ip1: Inode, blk2: seq<Block>, ip2: Inode,
                 a: set<nat>, b: set<nat>, ok: bool)
    requires Spent(sb, blk, ip, blk1, ip1, a)
    requires if ok then Spent(sb, blk1, ip1, blk2, ip2, b) else TooFew(sb, blk1, ip1, b)
    ensures if ok then Spent(sb, blk, ip, blk2, ip2, a + b) && !TooFew(sb, blk, ip, a + b)
            else TooFew(sb, blk, ip, a + b)
  {
    if ok {
      TookBoth(UsedBits(sb, blk), Refs(blk, ip), UsedBits(sb, blk1), Refs(blk1, ip1),
               UsedBits(sb, blk2), Refs(blk2, ip2), a, b);
      SpentEnough(sb, blk, ip, blk2, ip2, a + b);
    } else {
      ShortAfter(UsedBits(sb, blk), Refs(blk, ip), UsedBits(sb, blk1), Refs(blk1, ip1), a, b);
    }
  }

  /** The same towards a whole. */
  lemma SpentOn(sb: Super, blk: seq<Block>, ip: Inode, blk1: seq<Block>, ip1: Inode, blk2: seq<Block>, ip2: Inode,
                a: set<nat>, b: set<nat>, all: set<nat>, ok: bool)
    requires Spent(sb, blk, ip, blk1, ip1, a) && a + b <= all
    requires if ok then Spent(sb, blk1, ip1, blk2, ip2, b) else TooFew(sb, blk1, ip1, b)
    ensures if ok then Spent(sb, blk, ip, blk2, ip2, a + b) else TooFew(sb, blk, ip, all)
  {
    SpentTwo(sb, blk, ip, blk1, ip1, blk2, ip2, a, b, ok);
    if !ok {
      ShortMore(UsedBits(sb, blk), Refs(blk, ip), a + b, all);
    }
  }

  lemma SpentKept(sb: Super, blk: seq<Block>, ip: Inode, blk1: seq<Block>, ip1: Inode, blk2: seq<Block>, ip2: Inode,
                  wanted: set<nat>)
    requires Spent(sb, blk, ip, blk1, ip1, wanted) && Countable(sb, blk2, ip2)
    requires UsedBits(sb, blk2) == UsedBits(sb, blk1) && Refs(blk2, ip2) == Refs(blk1, ip1)
    ensures Spent(sb, blk, ip, blk2, ip2, wanted)
  {
  }

  /** Changing the bytes of a file block spends nothing. */
  lemma SpentRewritten(sb: Super, blk: seq<Block>, ip: Inode, blk1: seq<Block>, ino1: seq<Inode>, i: nat, bn: nat,
                       data: Block, wanted: set<nat>)
    requires Consistent(sb, blk1, ino1) && i < |ino1| && bn < MAXFILE && Ref(blk1, ino1[i], bn) != 0
    requires Spent(sb, blk, ip, blk1, ino1[i], wanted)
    ensures Ref(blk1, ino1[i], bn) < |blk1|
    ensures Spent(sb, blk, ip, blk1[Ref(blk1, ino1[i], bn) := data], ino1[i], wanted)
  {
    hide Took, InUse, Owned;
    RewriteKeepsRefs(sb, blk1, ino1, i, bn, data);
    var blk2 := blk1[Ref(blk1, ino1[i], bn) := data];
    SameBits(sb, blk1, blk2);
    assert Refs(blk2, ino1[i]) == Refs(blk1, ino1[i]);
  }

  /** The references of the next piece, which is in one block. */
  lemma WantedMore(off: nat, tot: nat, m: nat, n: nat)
    requires 0 < m && tot + m <= n && (off + tot) % BSIZE + m <= BSIZE
    ensures Wanted(off, tot + m) == Wanted(off, tot) + Slots((off + tot) / BSIZE)
    ensures Wanted(off, tot + m) <= Wanted(off, n)
  {
    var o := off + tot;
    var k := o / BSIZE;
    assert forall p :: o <= p < o + m ==> p / BSIZE == k by {
      forall p | o <= p < o + m
        ensures p / BSIZE == k
      {
        assert p == k * BSIZE + (o % BSIZE + (p - o));
      }
    }
    WantedIs(off, tot + m);
    WantedIs(off, tot);
    WantedIs(off, n);
    assert o / BSIZE in Wanted(off, tot + m);
  }

  lemma WantedIs(off: nat, n: nat)
    ensures forall k :: k in Wanted(off, n) <==>
              || (exists p: nat :: off <= p < off + n && p / BSIZE == k)
              || (k == MAXFILE && n > 0 && (off + n - 1) / BSIZE >= NDIRECT)
  {
  }

  /** The references of an inode are in it and in its indirect block. */
  lemma RefsKept(sb: Super, blk: seq<Block>, ino: seq<Inode>, i: nat, blk': seq<Block>, ip': Inode)
    requires Consistent(sb, blk, ino) && i < |ino| && |blk'| == |blk| && ip'.addrs == ino[i].addrs
    requires forall x :: sb.meta <= x < sb.size ==> blk'[x] == blk[x]
    ensures |ip'.addrs| == NDIRECT + 1 && ip'.addrs[NDIRECT] < |blk'| && Refs(blk', ip') == Refs(blk, ino[i])
  {
    if ino[i].addrs[NDIRECT] != 0 {
      RefIsData(sb, blk, ino, i, MAXFILE);
    }
  }

  /** bmap has led from (blk, ino) to (blk1, ino1), and then the piece is put into its block. */
  lemma PieceWritten(sb: Super, blk0: seq<Block>, ino0: seq<Inode>, blk: seq<Block>, ino: seq<Inode>, log: set<nat>,
                     blk1: seq<Block>, ino1: seq<Inode>, log1: set<nat>, touched: set<nat>,
                     i: nat, off: nat, tot: nat, m: nat, src: seq<byte>, addr: nat)
    requires WrittenSoFar(sb, blk0, ino0, blk, ino, i, off, tot, src) && Grown(sb, blk, ino, blk1, ino1, i)
    requires 0 < m && tot + m <= |src| && off + |src| <= MAXBYTES && (off + tot) % BSIZE + m <= BSIZE
    requires (off + tot) / BSIZE < MAXFILE && Ref(blk1, ino1[i], (off + tot) / BSIZE) == addr != 0
    requires Ref(blk, ino[i], (off + tot) / BSIZE) != 0 ==> ino1 == ino
    requires AllLogged(sb.inodestart, blk, log, blk1, log1) && log1 <= log + touched && addr in touched
    requires |touched| <= 4
    requires Spent(sb, blk, ino[i], blk1, ino1[i], Slots((off + tot) / BSIZE))
    ensures addr < |blk1| == sb.size && i < |ino1|
    ensures var blk2 := blk1[addr := Patch(blk1[addr], (off + tot) % BSIZE, src[tot..tot + m])];
            && Consistent(sb, blk2, ino1) && WrittenSoFar(sb, blk0, ino0, blk2, ino1, i, off, tot + m, src)
            && AllLogged(sb.inodestart, blk, log, blk2, log1 + {addr}) && |log1 + {addr}| <= |log| + 4
            && Spent(sb, blk, ino[i], blk2, ino1[i], Slots((off + tot) / BSIZE))
  {
    hide Owned, UsedBits, RefTable, Ref, Refs, FileBlock, AllLogged, WrittenSoFar, Spent, Slots;
    var bn := (off + tot) / BSIZE;
    RefIsData(sb, blk1, ino1, i, bn);
    var data := Patch(blk1[addr], (off + tot) % BSIZE, src[tot..tot + m]);
    LoggedMore(sb.inodestart, blk, log, blk1, log1, addr, data);
    SpentRewritten(sb, blk, ino[i], blk1, ino1, i, bn, data, Slots(bn));
    WrittenMore(sb, blk0, ino0, blk, ino, blk1, ino1, i, off, tot, m, src, addr);
    AtMostFour(log, touched, log1 + {addr});
  }

  /** The blocks of the bitmap. */
  ghost function Bitmap(sb: Super): set<nat> {
    Stretch(sb.bmapstart, sb.size / BPB + 1)
  }

  lemma InBitmap(sb: Super, b: nat)
    requires b < sb.size
    ensures sb.BitmapBlock(b) in Bitmap(sb)
  {
    assert b / BPB <= sb.size / BPB;
  }

  lemma BitmapLogged(sb: Super, log: set<nat>, log': set<nat>, x: nat)
    requires log' <= log + Bitmap(sb) + {x}
    ensures |log'| <= |log| + sb.size / BPB + 2
  {
    FewerInSubset(log', log + Bitmap(sb) + {x});
    UnionSize(log, Bitmap(sb));
    UnionSize(log + Bitmap(sb), {x});
  }

  lemma UnionSize(a: set<nat>, b: set<nat>)
    ensures |a + b| <= |a| + |b|
  {
    assert a + b == a + (b - a);
    FewerInSubset(b - a, b);
  }

  /** An inode that is not in use. */
  const EMPTY: Inode := Inode(0, 0, 0, 0, 0, seq(NDIRECT + 1, k => 0), 0, 0, 0)

  lemma NoBits(sb: Super, d: seq<Block>)
    requires sb.Ok(0) && |d| == sb.size && forall x :: 0 <= x < sb.size ==> d[x] == Zeros()
    ensures forall c :: 0 <= c < sb.size ==> !InUse(sb, d, c)
  {
    forall c | 0 <= c < sb.size
      ensures !InUse(sb, d, c)
    {
      BitmapInRange(sb, c);
      NoBit(c % 8);
    }
  }

  lemma NoBit(k: nat)
    requires k < 8
    ensures !HasBit(0, k)
  {
    ZeroBits(8);
  }

  lemma {:induction false} ZeroBits(n: nat)
    ensures forall k :: 0 <= k < n ==> !Bits(0, n)[k]
  {
    if n > 0 {
      ZeroBits(n - 1);
    }
  }

  lemma MarkedInUse(sb: Super, d: seq<Block>, b: nat)
    requires sb.Ok(0) && |d| == sb.size && b < sb.size
    ensures |SetInUse(sb, d, b, true)| == |d|
    ensures forall c :: 0 <= c < sb.size ==> InUse(sb, SetInUse(sb, d, b, true), c) == (c == b || InUse(sb, d, c))
    ensures forall x :: 0 <= x < sb.size && !(sb.bmapstart <= x < sb.meta) ==> SetInUse(sb, d, b, true)[x] == d[x]
  {
    BitmapInRange(sb, b);
    forall c | 0 <= c < sb.size
      ensures InUse(sb, SetInUse(sb, d, b, true), c) == (c == b || InUse(sb, d, c))
    {
      SetInUseFrame(sb, d, b, true, c);
    }
  }

  /** The new file system is sound: no inode refers to anything. */
  lemma Formatted(sb: Super, d: seq<Block>, ninodes: nat)
    requires sb.Ok(ninodes) && |d| == sb.size
    requires forall c :: 0 <= c < sb.size ==> (InUse(sb, d, c) <==> c < sb.meta)
    requires forall x :: 0 <= x < sb.size && !(sb.bmapstart <= x < sb.meta) ==> d[x] == Zeros()
    ensures Sound(sb, d, seq(ninodes, i => EMPTY))
  {
    hide InUse;
    var ino: seq<Inode> := seq(ninodes, i => EMPTY);
    assert Readable(d, ino);
    forall i, k | 0 <= i < |ino| && 0 <= k <= MAXFILE
      ensures RefTable(d, ino)[i][k] == 0
    {
      RefAt(d, ino, i, k);
    }
    forall j | 0 <= j < ninodes
      ensures StoredAs(sb, d, j, EMPTY)
    {
      EmptyStored(sb, d, ninodes, j);
    }
  }

  lemma EmptyStored(sb: Super, d: seq<Block>, ninodes: nat, j: nat)
    requires sb.Ok(ninodes) && |d| == sb.size && j < ninodes
    requires forall x :: 0 <= x < sb.size && !(sb.bmapstart <= x < sb.meta) ==> d[x] == Zeros()
    ensures StoredAs(sb, d, j, EMPTY)
  {
    assert sb.inodestart <= sb.InodeBlock(j) < sb.bmapstart;
    forall k | 0 <= k < DINODE_WORDS
      ensures Word(d[sb.InodeBlock(j)], j % IPB * DINODE_WORDS + k) == Encode(EMPTY)[k]
    {
      ZerosAreZero(j % IPB * DINODE_WORDS + k);
    }
  }

  lemma AllocLogged(sb: Super, blk: seq<Block>, logged: set<nat>, b: nat)
    requires sb.Ok(0) && |blk| == sb.size && sb.meta <= b < sb.size
    ensures AllLogged(sb.inodestart, blk, logged, Allocated(sb, blk, b), logged + {sb.BitmapBlock(b), b})
  {
    BitmapInRange(sb, b);
  }

  lemma EntryLogged(sb: Super, blk: seq<Block>, ino: seq<Inode>, logged: set<nat>, i: nat, bn: nat, b: nat)
    requires Consistent(sb, blk, ino) && i < |ino| && NDIRECT <= bn < MAXFILE && ino[i].addrs[NDIRECT] != 0
    requires b < sb.size && !InUse(sb, blk, b)
    ensures var x, a := ino[i].addrs[NDIRECT], Allocated(sb, blk, b);
            && x < |a| == |blk|
            && AllLogged(sb.inodestart, blk, logged, a[x := PutWord(a[x], bn - NDIRECT, b)],
                         logged + {sb.BitmapBlock(b), b} + {x})
  {
    hide InUse, SetInUse, Owned, UsedBits, RefTable, AllLogged;
    FreeIsUnowned(sb, blk, ino, b);
    RefIsData(sb, blk, ino, i, MAXFILE);
    AllocLogged(sb, blk, logged, b);
    AllocatedSize(sb, blk, b);
    var x, a := ino[i].addrs[NDIRECT], Allocated(sb, blk, b);
    LoggedMore(sb.inodestart, blk, logged, a, logged + {sb.BitmapBlock(b), b}, x, PutWord(a[x], bn - NDIRECT, b));
  }

  lemma AllocatedSize(sb: Super, blk: seq<Block>, b: nat)
    requires sb.Ok(0) && |blk| == sb.size && b < sb.size
    ensures |Allocated(sb, blk, b)| == |blk|
  {
  }

  lemma FreeLogged(sb: Super, blk: seq<Block>, logged: set<nat>, b: nat)
    requires sb.Ok(0) && |blk| == sb.size && b < sb.size
    ensures AllLogged(sb.inodestart, blk, logged, SetInUse(sb, blk, b, false), logged + {sb.BitmapBlock(b)})
  {
    BitmapInRange(sb, b);
  }

  /** An operation between begin_op and end_op: the file system before and after it, and the
      blocks it has logged. */
  datatype Op = Op(blk0: seq<Block>, ino0: seq<Inode>, blk: seq<Block>, ino: seq<Inode>, logged: set<nat>)

  /** An operation leads from one sound file system to another, logs whatever it changes, and
      is within its budget. */
  ghost predicate OneOp(sb: Super, op: Op) {
    && Sound(sb, op.blk0, op.ino0) && Sound(sb, op.blk, op.ino)
    && AllLogged(sb.inodestart, op.blk0, {}, op.blk, op.logged) && |op.logged| < CrashRecovery.MAXOPBLOCKS
  }

  /** Operations, one after the other, from (blk0, ino0) to (blk, ino). */
  ghost predicate Operations(sb: Super, blk0: seq<Block>, ino0: seq<Inode>, ops: seq<Op>, blk: seq<Block>,
                             ino: seq<Inode>)
  {
    if ops == [] then blk == blk0 && ino == ino0
    else
      var op := ops[|ops| - 1];
      OneOp(sb, op) && op.blk == blk && op.ino == ino && Operations(sb, blk0, ino0, ops[..|ops| - 1], op.blk0, op.ino0)
  }

  lemma NextOp(sb: Super, blk0: seq<Block>, ino0: seq<Inode>, ops: seq<Op>, op: Op, i: nat, off: nat, a: seq<byte>,
               b: seq<byte>)
    requires Operations(sb, blk0, ino0, ops, op.blk0, op.ino0)
    requires Progress(sb, blk0, ino0, op.blk0, op.ino0, i, off, a)
    requires Progress(sb, blk0, ino0, op.blk, op.ino, i, off, b)
    requires AllLogged(sb.inodestart, op.blk0, {}, op.blk, op.logged) && |op.logged| < CrashRecovery.MAXOPBLOCKS
    ensures Operations(sb, blk0, ino0, ops + [op], op.blk, op.ino)
  {
    hide Sound, AllLogged;
    assert (ops + [op])[..|ops|] == ops;
  }

  /** What holds between operations: every block has its one owner, files have no holes, and
      the disk copies of the inodes are up to date. */
  ghost predicate Sound(sb: Super, blk: seq<Block>, ino: seq<Inode>) {
    && Consistent(sb, blk, ino)
    && (forall j :: 0 <= j < |ino| ==> NoHoles(blk, ino[j]))
    && (forall j :: 0 <= j < |ino| ==> StoredAs(sb, blk, j, ino[j]))
  }

  /** From (blk0, ino0) to (blk, ino), `data` has been written to file i at `off`, and nothing
      else. */
  ghost predicate Progress(sb: Super, blk0: seq<Block>, ino0: seq<Inode>, blk: seq<Block>, ino: seq<Inode>,
                           i: nat, off: nat, data: seq<byte>)
  {
    && Sound(sb, blk0, ino0) && Sound(sb, blk, ino) && i < |ino| == |ino0|
    && (off > ino0[i].size ==> data == [])
    && ino[i].size == (if data == [] then ino0[i].size else Max(ino0[i].size, off + |data|))
    && ino[i] == ino0[i].(addrs := ino[i].addrs, size := ino[i].size)
    && (off <= ino0[i].size ==> Content(blk, ino[i]) == Overwrite(Content(blk0, ino0[i]), off, data))
    && (off > ino0[i].size ==> Content(blk, ino[i]) == Content(blk0, ino0[i]))
    && (forall j :: 0 <= j < |ino| && j != i ==>
          ino[j] == ino0[j] && Content(blk, ino[j]) == Content(blk0, ino0[j]))
  }

  lemma ProgressBegins(sb: Super, blk: seq<Block>, ino: seq<Inode>, i: nat, off: nat)
    requires Sound(sb, blk, ino) && i < |ino|
    ensures Progress(sb, blk, ino, blk, ino, i, off, []) && ino[i].size <= MAXBYTES
  {
    assert NoHoles(blk, ino[i]);
    hide Consistent, StoredAs;
  }

  lemma ProgressContinues(sb: Super, blk0: seq<Block>, ino0: seq<Inode>, blk1: seq<Block>, ino1: seq<Inode>,
                          blk2: seq<Block>, ino2: seq<Inode>, i: nat, off: nat, src: seq<byte>, a: nat, b: nat)
    requires a < b <= |src| && Progress(sb, blk0, ino0, blk1, ino1, i, off, src[..a]) && off + a <= ino1[i].size
    requires Progress(sb, blk1, ino1, blk2, ino2, i, off + a, src[a..b])
    ensures Progress(sb, blk0, ino0, blk2, ino2, i, off, src[..b])
  {
    assert off <= ino0[i].size;
    hide Consistent, StoredAs;
    OverwriteTwice(Content(blk0, ino0[i]), off, src, a, b);
  }

  /** A sum that is smaller than its first term has wrapped. */
  lemma Wraps(a: word, b: word)
    ensures (a + b) % 0x1_0000_0000 == if a + b < 0x1_0000_0000 then a + b else a + b - 0x1_0000_0000
  {
  }

  /** The ranges that writei admits: no gap after the end, no overflow, no file too long. */
  predicate Writable(ip: Inode, off: nat, n: nat) {
    off <= ip.size && off + n < 0x1_0000_0000 && off + n <= MAXBYTES
  }

  /** The most bytes filewrite puts into one operation. */
  const CHUNK: nat := (CrashRecovery.MAXOPBLOCKS - 1 - 1 - 2) / 2 * 512

  predicate Fileable(ip: Inode, off: nat, n: nat) {
    n == 0 || (off <= ip.size && off + n <= MAXBYTES)
  }

  /** A chunk meets two blocks at the most. */
  lemma PiecesOfChunk(off: nat, n: nat)
    requires n <= CHUNK
    ensures 4 * Pieces(off, n) + 1 < CrashRecovery.MAXOPBLOCKS
  {
  }

  lemma OverwriteAt(c: seq<byte>, off: nat, data: seq<byte>)
    requires off <= |c|
    ensures |Overwrite(c, off, data)| == Max(|c|, off + |data|)
    ensures forall p :: 0 <= p < |Overwrite(c, off, data)| ==>
              Overwrite(c, off, data)[p] == if off <= p < off + |data| then data[p - off] else c[p]
  {
  }

  lemma OverwriteTwice(c: seq<byte>, off: nat, src: seq<byte>, a: nat, b: nat)
    requires off <= |c| && a <= b <= |src|
    ensures off + a <= |Overwrite(c, off, src[..a])|
    ensures Overwrite(Overwrite(c, off, src[..a]), off + a, src[a..b]) == Overwrite(c, off, src[..b])
  {
    hide Overwrite;
    OverwriteAt(c, off, src[..a]);
    OverwriteAt(Overwrite(c, off, src[..a]), off + a, src[a..b]);
    OverwriteAt(c, off, src[..b]);
  }

  /** How many blocks a range of bytes meets. */
  function Pieces(off: nat, n: nat): nat {
    if n == 0 then 0 else (off % BSIZE + n - 1) / BSIZE + 1
  }

  /** Where the copying loop is after some turns, each of which ends at a block boundary or at
      the end of the range. */
  ghost predicate AfterTurns(off: nat, n: nat, turns: nat, tot: nat) {
    var base := off - off % BSIZE;
    && tot <= n && (turns == 0 <==> tot == 0)
    && (turns > 0 ==> base + (turns - 1) * BSIZE < off + tot)
    && (0 < turns && tot < n ==> off + tot == base + turns * BSIZE)
  }

  lemma TurnsBegin(off: nat, n: nat)
    ensures AfterTurns(off, n, 0, 0)
  {
  }

  lemma TurnsContinue(off: nat, n: nat, turns: nat, tot: nat)
    requires AfterTurns(off, n, turns, tot) && tot < n
    ensures var m := Min(n - tot, BSIZE - (off + tot) % BSIZE);
            0 < m && (off + tot) % BSIZE + m <= BSIZE && AfterTurns(off, n, turns + 1, tot + m)
  {
    if turns > 0 {
      assert off + tot == (off / BSIZE + turns) * BSIZE;
      Place(off + tot, off / BSIZE + turns, 0);
    }
  }

  lemma TurnsEnd(off: nat, n: nat, turns: nat)
    requires AfterTurns(off, n, turns, n)
    ensures turns <= Pieces(off, n)
  {
    if turns > 0 {
      var k := off % BSIZE + n - 1;
      assert (turns - 1) * BSIZE <= k;
      assert turns - 1 <= k / BSIZE;
    }
  }

  lemma AtMostFour(before: set<nat>, touched: set<nat>, after: set<nat>)
    requires after <= before + touched && |touched| <= 4
    ensures |after| <= |before| + 4
  {
    FewerInSubset(after, before + touched);
    assert before + touched == before + (touched - before);
    FewerInSubset(touched - before, touched);
  }

  /** A piece of one block is a piece of the file. */
  lemma PieceOfContent(blk: seq<Block>, ip: Inode, o: nat, m: nat)
    requires |ip.addrs| == NDIRECT + 1 && ip.addrs[NDIRECT] < |blk| && ip.size <= MAXBYTES
    requires o + m <= ip.size && o % BSIZE + m <= BSIZE && 0 < m && Ref(blk, ip, o / BSIZE) < |blk|
    ensures blk[Ref(blk, ip, o / BSIZE)][o % BSIZE..o % BSIZE + m] == Content(blk, ip)[o..o + m]
  {
    hide Ref, FileBlock;
    FileBlockIs(blk, ip, o / BSIZE);
    var b, at, c := FileBlock(blk, ip, o / BSIZE), o % BSIZE, Content(blk, ip);
    forall p | o <= p < o + m
      ensures c[p] == b[at + (p - o)]
    {
      SamePiece(o, m, p);
    }
    assert b[at..at + m] == c[o..o + m];
  }

  const T_DEV: nat := 3

  /** The outcome of a transfer: the device's business, -1, a panic, or a count of bytes. */
  datatype Io = Device | Error | Panic | Done(n: nat)

  lemma FourAtMost(a: nat, b: nat, c: nat, d: nat)
    ensures |{a, b, c, d}| <= 4
  {
    assert {a, b, c, d} == {a} + {b} + {c} + {d};
  }

  lemma BitAddress(sb: Super, b: nat, bi: nat)
    requires b % BPB == 0 && bi < BPB
    ensures sb.BitmapBlock(b + bi) == sb.BitmapBlock(b) && (b + bi) % BPB == bi && (b + bi) % 8 == bi % 8
  {
    assert b == BPB * (b / BPB);
    assert (b + bi) / BPB == b / BPB && (b + bi) % BPB == bi;
    Multiple(BSIZE * (b / BPB), bi);
  }
}
