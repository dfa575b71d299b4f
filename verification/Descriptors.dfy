/** The open-file table, the descriptor tables of the processes, and the pipes behind them. */
module Descriptors {
  import opened Options

  datatype Kind = FdNone | FdPipe(pipe: nat, writable: bool) | FdInode(ip: nat)

  datatype File = File(ref: nat, kind: Kind)

  /** A pipe: which ends are open, and how often its page has been freed. */
  datatype PipeEnds = PipeEnds(readopen: bool, writeopen: bool, freed: nat)

  type Table = seq<seq<Option<nat>>>

  function Hit(x: Option<nat>, f: nat): nat {
    if x == Some(f) then 1 else 0
  }

  function InRow(row: seq<Option<nat>>, f: nat): nat {
    if row == [] then 0 else InRow(row[..|row| - 1], f) + Hit(row[|row| - 1], f)
  }

  /** How many (process, fd) slots hold file f. */
  function Slots(t: Table, f: nat): nat {
    if t == [] then 0 else Slots(t[..|t| - 1], f) + InRow(t[|t| - 1], f)
  }

  lemma {:induction false} InRowPut(row: seq<Option<nat>>, i: nat, x: Option<nat>, f: nat)
    requires i < |row|
    ensures InRow(row[i := x], f) == InRow(row, f) - Hit(row[i], f) + Hit(x, f)
  {
    var n := |row| - 1;
    if i == n {
      assert row[i := x][..n] == row[..n];
    } else {
      assert row[i := x][..n] == row[..n][i := x];
      InRowPut(row[..n], i, x, f);
    }
  }

  lemma {:induction false} SlotsPut(t: Table, p: nat, row: seq<Option<nat>>, f: nat)
    requires p < |t|
    ensures Slots(t[p := row], f) == Slots(t, f) - InRow(t[p], f) + InRow(row, f)
  {
    var n := |t| - 1;
    if p == n {
      assert t[p := row][..n] == t[..n];
    } else {
      assert t[p := row][..n] == t[..n][p := row];
      SlotsPut(t[..n], p, row, f);
    }
  }

  function Put(t: Table, p: nat, fd: nat, x: Option<nat>): Table
    requires p < |t| && fd < |t[p]|
  {
    t[p := t[p][fd := x]]
  }

  lemma PutCount(t: Table, p: nat, fd: nat, x: Option<nat>, f: nat)
    requires p < |t| && fd < |t[p]|
    ensures Slots(Put(t, p, fd, x), f) == Slots(t, f) - Hit(t[p][fd], f) + Hit(x, f)
  {
    InRowPut(t[p], fd, x, f);
    SlotsPut(t, p, t[p][fd := x], f);
  }

  lemma {:induction false} RowHas(row: seq<Option<nat>>, i: nat, f: nat)
    requires i < |row| && row[i] == Some(f)
    ensures InRow(row, f) > 0
  {
    if i < |row| - 1 {
      RowHas(row[..|row| - 1], i, f);
    }
  }

  lemma {:induction false} TableHas(t: Table, p: nat, i: nat, f: nat)
    requires p < |t| && i < |t[p]| && t[p][i] == Some(f)
    ensures Slots(t, f) > 0
  {
    if p < |t| - 1 {
      TableHas(t[..|t| - 1], p, i, f);
    } else {
      RowHas(t[p], i, f);
    }
  }

  /** Every slot names a file. */
  ghost predicate InRange(t: Table, nofile: nat, nfile: nat) {
    forall p :: 0 <= p < |t| ==>
      |t[p]| == nofile && forall i :: 0 <= i < nofile && t[p][i].Some? ==> t[p][i].value < nfile
  }

  /** The reference counts are the slots, and `extra` that a call in progress holds. */
  ghost predicate Counted(file: seq<File>, t: Table, extra: seq<int>) {
    |extra| == |file| && forall f :: 0 <= f < |file| ==> file[f].ref == Slots(t, f) + extra[f]
  }

  predicate EndOpen(e: PipeEnds, writable: bool) {
    if writable then e.writeopen else e.readopen
  }

  /** An end of a pipe is open if and only if one file stands for it, and a pipe's page has been
      freed, once, if and only if both ends are closed. */
  ghost predicate Piped(file: seq<File>, pipes: seq<PipeEnds>) {
    && (forall f :: 0 <= f < |file| && file[f].kind.FdPipe? ==>
          file[f].ref > 0 && file[f].kind.pipe < |pipes| && EndOpen(pipes[file[f].kind.pipe], file[f].kind.writable))
    && (forall f, g :: 0 <= f < |file| && 0 <= g < |file| && file[f].kind.FdPipe? && file[f].kind == file[g].kind ==>
          f == g)
    && (forall p: nat, w: bool :: p < |pipes| && EndOpen(pipes[p], w) ==> HasEnd(file, p, w))
    && (forall p :: 0 <= p < |pipes| ==> pipes[p].freed == if pipes[p].readopen || pipes[p].writeopen then 0 else 1)
  }

  ghost predicate HasEnd(file: seq<File>, p: nat, w: bool) {
    exists f :: 0 <= f < |file| && file[f].kind == FdPipe(p, w)
  }

  function Bump(extra: seq<int>, f: nat, d: int): seq<int>
    requires f < |extra|
  {
    extra[f := extra[f] + d]
  }

  /** A file enters an empty slot, or leaves its slot. */
  lemma CountedSlot(file: seq<File>, t: Table, extra: seq<int>, p: nat, fd: nat, f: nat, enter: bool)
    requires Counted(file, t, extra) && p < |t| && fd < |t[p]| && f < |file|
    requires t[p][fd] == if enter then None else Some(f)
    ensures Counted(file, Put(t, p, fd, if enter then Some(f) else None), Bump(extra, f, if enter then -1 else 1))
  {
    forall g | 0 <= g < |file|
      ensures Slots(Put(t, p, fd, if enter then Some(f) else None), g) ==
                Slots(t, g) + (if g != f then 0 else if enter then 1 else -1)
    {
      PutCount(t, p, fd, if enter then Some(f) else None, g);
    }
  }

  lemma CountedRef(file: seq<File>, t: Table, extra: seq<int>, f: nat, x: File)
    requires Counted(file, t, extra) && f < |file|
    ensures Counted(file[f := x], t, Bump(extra, f, x.ref - file[f].ref))
  {
  }

  /** Closing the last reference to one end. */
  function Closed(e: PipeEnds, writable: bool): PipeEnds {
    var e' := if writable then e.(writeopen := false) else e.(readopen := false);
    if !e'.readopen && !e'.writeopen then e'.(freed := e'.freed + 1) else e'
  }

  lemma PipedClose(file: seq<File>, pipes: seq<PipeEnds>, f: nat)
    requires Piped(file, pipes) && f < |file| && file[f].kind.FdPipe?
    ensures file[f].kind.pipe < |pipes|
    ensures var p := file[f].kind.pipe;
            Piped(file[f := File(0, FdNone)], pipes[p := Closed(pipes[p], file[f].kind.writable)])
  {
    var p, w := file[f].kind.pipe, file[f].kind.writable;
    var file', pipes' := file[f := File(0, FdNone)], pipes[p := Closed(pipes[p], w)];
    forall q: nat, v: bool | q < |pipes'| && EndOpen(pipes'[q], v)
      ensures HasEnd(file', q, v)
    {
      assert EndOpen(pipes[q], v) && HasEnd(file, q, v);
      var g :| 0 <= g < |file| && file[g].kind == FdPipe(q, v);
      assert file'[g].kind == FdPipe(q, v);
    }
  }

  /** A change to a file that is no pipe, before or after, and to counts that stay positive. */
  lemma PipedSame(file: seq<File>, pipes: seq<PipeEnds>, f: nat, x: File)
    requires Piped(file, pipes) && f < |file|
    requires (x.kind == file[f].kind && x.ref > 0) || (!file[f].kind.FdPipe? && !x.kind.FdPipe?)
    ensures Piped(file[f := x], pipes)
  {
    var file' := file[f := x];
    forall q: nat, v: bool | q < |pipes| && EndOpen(pipes[q], v)
      ensures HasEnd(file', q, v)
    {
      assert HasEnd(file, q, v);
      var g :| 0 <= g < |file| && file[g].kind == FdPipe(q, v);
      assert file'[g].kind == FdPipe(q, v);
    }
  }

  /** A new pipe and the two files for its ends. */
  lemma PipedNew(file: seq<File>, pipes: seq<PipeEnds>, r: nat, w: nat)
    requires Piped(file, pipes) && r < |file| && w < |file| && r != w
    requires file[r].ref > 0 && file[w].ref > 0 && !file[r].kind.FdPipe? && !file[w].kind.FdPipe?
    ensures Piped(file[r := file[r].(kind := FdPipe(|pipes|, false))][w := file[w].(kind := FdPipe(|pipes|, true))],
                  pipes + [PipeEnds(true, true, 0)])
  {
    var file' := file[r := file[r].(kind := FdPipe(|pipes|, false))][w := file[w].(kind := FdPipe(|pipes|, true))];
    var pipes' := pipes + [PipeEnds(true, true, 0)];
    assert file'[r].kind == FdPipe(|pipes|, false) && file'[w].kind == FdPipe(|pipes|, true);
    forall q: nat, v: bool | q < |pipes'| && EndOpen(pipes'[q], v)
      ensures HasEnd(file', q, v)
    {
      if q < |pipes| {
        assert EndOpen(pipes[q], v) && HasEnd(file, q, v);
        var g :| 0 <= g < |file| && file[g].kind == FdPipe(q, v);
        assert file'[g].kind == FdPipe(q, v);
      }
    }
  }

  /** What holds inside calls as well. */
  ghost predicate Sound(file: seq<File>, t: Table, pipes: seq<PipeEnds>, extra: seq<int>, nofile: nat) {
    && InRange(t, nofile, |file|) && Counted(file, t, extra) && Piped(file, pipes)
    && forall f :: 0 <= f < |file| && file[f].ref == 0 ==> file[f].kind == FdNone
  }

  /** Between calls every reference is in a slot. */
  ghost predicate Settled(file: seq<File>, extra: seq<int>) {
    |extra| == |file| && forall f :: 0 <= f < |file| ==> extra[f] == 0 && (file[f].ref > 0 ==> file[f].kind != FdNone)
  }

  class Files {
    const nofile: nat
    var file: seq<File>
    var ofile: Table
    var pipes: seq<PipeEnds>
    ghost var extra: seq<int>

    ghost predicate Inv()
      reads this
    {
      Sound(file, ofile, pipes, extra, nofile)
    }

    ghost predicate Valid()
      reads this
    {
      Inv() && Settled(file, extra)
    }

    /** Allocate a file structure; None if all are in use. */
    method FileAlloc() returns (r: Option<nat>)
      requires Inv()
      modifies this`file, this`extra
      ensures Inv() && |file| == |old(file)|
      ensures r.None? <==> AllInUse(old(file))
      ensures r.None? ==> file == old(file) && extra == old(extra)
      ensures r.Some? ==>
                && r.value < |file| && old(file)[r.value].ref == 0
                && file == old(file)[r.value := File(1, FdNone)] && extra == Bump(old(extra), r.value, 1)
    {
      var f := 0;
      while f < |file|
        invariant 0 <= f <= |file| && file == old(file) && extra == old(extra)
        invariant forall g :: 0 <= g < f ==> file[g].ref > 0
      {
        if file[f].ref == 0 {
          CountedRef(file, ofile, extra, f, File(1, FdNone));
          PipedSame(file, pipes, f, File(1, FdNone));
          file := file[f := file[f].(ref := 1)];
          extra := Bump(extra, f, 1);
          return Some(f);
        }
        f := f + 1;
      }
      return None;
    }

    /** One more reference; false is the panic "filedup". */
    method FileDup(f: nat) returns (ok: bool)
      requires Inv() && f < |file|
      modifies this`file, this`extra
      ensures ok <==> old(file)[f].ref >= 1
      ensures !ok ==> file == old(file) && extra == old(extra)
      ensures ok ==>
                && Inv() && file == old(file)[f := old(file)[f].(ref := old(file)[f].ref + 1)]
                && extra == Bump(old(extra), f, 1)
    {
      if file[f].ref < 1 {
        return false;
      }
      var x := file[f].(ref := file[f].ref + 1);
      CountedRef(file, ofile, extra, f, x);
      PipedSame(file, pipes, f, x);
      file := file[f := x];
      extra := Bump(extra, f, 1);
      return true;
    }

    /** One reference less, and the file closed with the last; false is the panic "fileclose". */
    method FileClose(f: nat) returns (ok: bool)
      requires Inv() && f < |file|
      modifies this`file, this`extra, this`pipes
      ensures ok <==> old(file)[f].ref >= 1
      ensures !ok ==> file == old(file) && extra == old(extra) && pipes == old(pipes)
      ensures ok ==> Inv() && extra == Bump(old(extra), f, -1)
      ensures ok ==>
                var x := old(file)[f];
                file == old(file)[f := if x.ref > 1 then x.(ref := x.ref - 1) else File(0, FdNone)]
      ensures ok && !(old(file)[f].ref == 1 && old(file)[f].kind.FdPipe?) ==> pipes == old(pipes)
      ensures ok && old(file)[f].ref == 1 && old(file)[f].kind.FdPipe? ==>
                var p := old(file)[f].kind.pipe;
                p < |old(pipes)| && pipes == old(pipes)[p := Closed(old(pipes)[p], old(file)[f].kind.writable)]
    {
      if file[f].ref < 1 {
        return false;
      }
      var ff := file[f];
      var x := if ff.ref > 1 then ff.(ref := ff.ref - 1) else File(0, FdNone);
      CountedRef(file, ofile, extra, f, x);
      if ff.ref == 1 && ff.kind.FdPipe? {
        PipedClose(file, pipes, f);
        pipes := pipes[ff.kind.pipe := Closed(pipes[ff.kind.pipe], ff.kind.writable)];
      } else {
        PipedSame(file, pipes, f, x);
      }
      file := file[f := x];
      extra := Bump(extra, f, -1);
      return true;
    }

    /** The lowest free descriptor gets the file. */
    method FdAlloc(p: nat, f: nat) returns (r: Option<nat>)
      requires Inv() && p < |ofile| && f < |file|
      modifies this`ofile, this`extra
      ensures Inv()
      ensures r.None? <==> AllTaken(old(ofile)[p])
      ensures r.None? ==> ofile == old(ofile) && extra == old(extra)
      ensures r.Some? ==>
                && r.value < |old(ofile)[p]| == nofile && LowestFree(old(ofile)[p], r.value)
                && ofile == Put(old(ofile), p, r.value, Some(f)) && extra == Bump(old(extra), f, -1)
    {
      assert |ofile[p]| == nofile;
      var fd := 0;
      while fd < nofile
        invariant 0 <= fd <= nofile && ofile == old(ofile) && extra == old(extra)
        invariant forall i :: 0 <= i < fd ==> ofile[p][i].Some?
      {
        if ofile[p][fd] == None {
          CountedSlot(file, ofile, extra, p, fd, f, true);
          ofile := Put(ofile, p, fd, Some(f));
          extra := Bump(extra, f, -1);
          return Some(fd);
        }
        fd := fd + 1;
      }
      return None;
    }

    /** A descriptor is given up; its reference stays with the caller. */
    method DropSlot(p: nat, fd: nat)
      requires Inv() && p < |ofile| && fd < nofile && |ofile[p]| == nofile && ofile[p][fd].Some?
      modifies this`ofile, this`extra
      ensures Inv() && ofile == Put(old(ofile), p, fd, None) && old(ofile)[p][fd].value < |old(extra)|
      ensures extra == Bump(old(extra), old(ofile)[p][fd].value, 1)
    {
      var f := ofile[p][fd].value;
      CountedSlot(file, ofile, extra, p, fd, f, false);
      ofile := Put(ofile, p, fd, None);
      extra := Bump(extra, f, 1);
    }

    constructor (nfile: nat, nproc: nat, nofile: nat)
      ensures Valid() && this.nofile == nofile && |file| == nfile && |ofile| == nproc && pipes == []
      ensures forall p, i :: 0 <= p < nproc && 0 <= i < nofile ==> ofile[p][i] == None
    {
      this.nofile := nofile;
      var t: Table := [];
      var row: seq<Option<nat>> := seq(nofile, _ => None);
      while |t| < nproc
        invariant |t| <= nproc && forall p :: 0 <= p < |t| ==> t[p] == row
      {
        t := t + [row];
      }
      file, ofile, pipes, extra := seq(nfile, _ => File(0, FdNone)), t, [], seq(nfile, _ => 0);
      EmptySlots(t, row);
    }

    method SysDup(p: nat, fd: int) returns (r: Option<nat>)
      requires Valid() && p < |ofile| && |ofile[p]| == nofile
      modifies this`file, this`ofile, this`extra
      ensures Valid()
      ensures r.None? <==>
                || !(0 <= fd < nofile && old(ofile)[p][fd].Some?)
                || (forall i :: 0 <= i < nofile ==> old(ofile)[p][i].Some?)
      ensures r.None? ==> file == old(file) && ofile == old(ofile)
      ensures r.Some? ==> LowestFree(old(ofile)[p], r.value) && ofile == Put(old(ofile), p, r.value, old(ofile)[p][fd])
    {
      if !(0 <= fd < nofile) || ofile[p][fd] == None {
        return None;
      }
      var f := ofile[p][fd].value;
      TableHas(ofile, p, fd, f);
      r := FdAlloc(p, f);
      if r.Some? {
        var ok := FileDup(f);
        assert ok;
      }
    }

    method SysClose(p: nat, fd: int) returns (ok: bool)
      requires Valid() && p < |ofile| && |ofile[p]| == nofile
      modifies this`file, this`ofile, this`extra, this`pipes
      ensures Valid() && (ok <==> 0 <= fd < nofile && old(ofile)[p][fd].Some?)
      ensures ofile == if ok then Put(old(ofile), p, fd, None) else old(ofile)
    {
      if !(0 <= fd < nofile) || ofile[p][fd] == None {
        return false;
      }
      var f := ofile[p][fd].value;
      TableHas(ofile, p, fd, f);
      DropSlot(p, fd);
      ok := FileClose(f);
    }

    /** fileclose of a file that filealloc has just given. */
    method Unalloc(f: nat)
      requires Inv() && f < |file| == |extra| && file[f] == File(1, FdNone)
      modifies this`file, this`extra, this`pipes
      ensures Inv() && file == old(file)[f := File(0, FdNone)] && extra == Bump(old(extra), f, -1)
      ensures pipes == old(pipes)
    {
      hide Sound;
      var ok := FileClose(f);
    }

    /** The end of sys_open, once the inode is there. */
    method SysOpen(p: nat, ip: nat) returns (r: Option<nat>, ghost f: nat)
      requires Valid() && p < |ofile| && |ofile[p]| == nofile
      modifies this`file, this`ofile, this`extra, this`pipes
      ensures Valid()
      ensures r.None? <==> AllInUse(old(file)) || AllTaken(old(ofile)[p])
      ensures r.None? ==> file == old(file) && ofile == old(ofile) && pipes == old(pipes)
      ensures r.Some? ==>
                && LowestFree(old(ofile)[p], r.value) && ofile == Put(old(ofile), p, r.value, Some(f))
                && pipes == old(pipes)
                && f < |old(file)| && old(file)[f].ref == 0 && file == old(file)[f := File(1, FdInode(ip))]
    {
      Ranges(file, ofile, pipes, extra, nofile);
      hide Sound, Settled;
      f := 0;
      var a := FileAlloc();
      if a.None? {
        return None, f;
      }
      f := a.value;
      hide Put;
      r := FdAlloc(p, a.value);
      if r.None? {
        Unalloc(a.value);
        AllocUndone(old(file), old(extra), a.value);
        return;
      }
      SettledOpen(old(file), old(extra), a.value, ip);
      SetInode(file, ofile, pipes, extra, nofile, a.value, ip);
      file := file[a.value := file[a.value].(kind := FdInode(ip))];
    }

    /** Two files and a page for a new pipe, or nothing. */
    method PipeAlloc(page: bool) returns (r: Option<(nat, nat)>)
      requires Valid()
      modifies this`file, this`extra, this`pipes
      ensures |file| == |old(file)| == |old(extra)|
      ensures r.Some? <==> page && TwoUnused(old(file))
      ensures r.None? ==> Valid() && file == old(file) && pipes == old(pipes)
      ensures r.Some? ==> Inv() && NewPipe(old(file), file, old(pipes), pipes, old(extra), extra, r.value.0, r.value.1)
    {
      hide Sound, TwoUnused, AllInUse;
      Ranges(file, ofile, pipes, extra, nofile);
      NoneUnused(file);
      var a := FileAlloc();
      if a.None? {
        return None;
      }
      SecondFile(old(file), a.value);
      var b := FileAlloc();
      if b.None? {
        Unalloc(a.value);
        AllocUndone(old(file), old(extra), a.value);
        return None;
      }
      if !page {
        Unalloc(a.value);
        Unalloc(b.value);
        TwoUndone(old(file), old(extra), a.value, b.value);
        return None;
      }
      SetPipe(file, ofile, pipes, extra, nofile, a.value, b.value);
      file := file[a.value := file[a.value].(kind := FdPipe(|pipes|, false))]
                  [b.value := file[b.value].(kind := FdPipe(|pipes|, true))];
      pipes := pipes + [PipeEnds(true, true, 0)];
      return Some((a.value, b.value));
    }

    /** A pipe and two descriptors for it, or, for want of any of them, nothing. */
    method SysPipe(p: nat, page: bool) returns (r: Option<(nat, nat)>, ghost f0: nat, ghost f1: nat)
      requires Valid() && p < |ofile| && |ofile[p]| == nofile
      modifies this`file, this`ofile, this`extra, this`pipes
      ensures Valid() && |file| == |old(file)|
      ensures r.Some? <==> page && TwoUnused(old(file)) && TwoSlots(old(ofile)[p])
      ensures r.None? ==> file == old(file) && ofile == old(ofile)
      ensures r.Some? ==>
                && LowestFree(old(ofile)[p], r.value.0) && r.value.1 < nofile
                && LowestFree(old(ofile)[p][r.value.0 := Some(f0)], r.value.1)
                && ofile == Put(Put(old(ofile), p, r.value.0, Some(f0)), p, r.value.1, Some(f1))
                && pipes == old(pipes) + [PipeEnds(true, true, 0)]
                && f0 < |file| && f1 < |file|
                && file[f0].kind == FdPipe(|old(pipes)|, false) && file[f1].kind == FdPipe(|old(pipes)|, true)
    {
      hide Sound, Settled, TwoUnused, TwoSlots, AllTaken, LowestFree, Put, NewPipe;
      Ranges(file, ofile, pipes, extra, nofile);
      f0, f1 := 0, 0;
      var a := PipeAlloc(page);
      if a.None? {
        return None, f0, f1;
      }
      var (rf, wf) := a.value;
      f0, f1 := rf, wf;
      NewPipeIs(old(file), file, old(pipes), pipes, old(extra), extra, rf, wf);
      SettledPipe(old(file), old(pipes), old(extra), file, pipes, extra, rf, wf);
      ghost var more := extra;
      var fd0 := FdAlloc(p, rf);
      if fd0.None? {
        NoSlots(ofile[p]);
        ClosePipe(rf, wf, old(file), old(pipes), old(extra));
        return None, f0, f1;
      }
      SecondSlot(old(ofile)[p], fd0.value, rf);
      PutRow(old(ofile), p, fd0.value, Some(rf));
      var fd1 := FdAlloc(p, wf);
      if fd1.None? {
        DropSlot(p, fd0.value);
        PutBack(old(ofile), p, fd0.value, rf);
        BumpBack(more, rf);
        ClosePipe(rf, wf, old(file), old(pipes), old(extra));
        return None, f0, f1;
      }
      return Some((fd0.value, fd1.value)), f0, f1;
    }

    /** The error path of sys_pipe: both ends are closed, and the page is freed. */
    method ClosePipe(rf: nat, wf: nat, ghost file0: seq<File>, ghost pipes0: seq<PipeEnds>, ghost extra0: seq<int>)
      requires Inv() && |file| == |file0| == |extra0| && Settled(file0, extra0)
      requires NewPipe(file0, file, pipes0, pipes, extra0, extra, rf, wf)
      modifies this`file, this`extra, this`pipes
      ensures Valid() && file == file0
    {
      hide Sound;
      var _ := FileClose(rf);
      var _ := FileClose(wf);
    }

    /** fork's copy of the descriptors, into a process that has none. */
    method ForkFiles(cur: nat, np: nat)
      requires Valid() && cur < |ofile| && np < |ofile| && cur != np && |ofile[cur]| == |ofile[np]| == nofile
      requires forall i :: 0 <= i < nofile ==> ofile[np][i] == None
      modifies this`file, this`ofile, this`extra
      ensures Valid() && ofile == old(ofile)[np := old(ofile)[cur]]
    {
      Ranges(file, ofile, pipes, extra, nofile);
      hide Sound;
      var i := 0;
      while i < nofile
        invariant 0 <= i <= nofile && Valid() && |ofile| == |old(ofile)| && |ofile[np]| == nofile
        invariant forall q :: 0 <= q < |ofile| && q != np ==> ofile[q] == old(ofile)[q]
        invariant forall k :: 0 <= k < nofile ==> ofile[np][k] == if k < i then old(ofile)[cur][k] else None
      {
        if ofile[cur][i].Some? {
          CopySlot(cur, np, i);
        }
        i := i + 1;
      }
      assert ofile[np] == old(ofile)[cur];
    }

    method CopySlot(cur: nat, np: nat, i: nat)
      requires Valid() && cur < |ofile| && np < |ofile| && |ofile[cur]| == |ofile[np]| == nofile && i < nofile
      requires ofile[cur][i].Some? && ofile[np][i] == None
      modifies this`file, this`ofile, this`extra
      ensures Valid() && ofile == Put(old(ofile), np, i, old(ofile)[cur][i])
    {
      var f := ofile[cur][i].value;
      TableHas(ofile, cur, i, f);
      var ok := FileDup(f);
      assert ok;
      CountedSlot(file, ofile, extra, np, i, f, true);
      ofile := Put(ofile, np, i, Some(f));
      extra := Bump(extra, f, -1);
    }

    /** exit's closing of all descriptors. */
    method ExitFiles(cur: nat)
      requires Valid() && cur < |ofile| && |ofile[cur]| == nofile
      modifies this`file, this`ofile, this`extra, this`pipes
      ensures Valid() && |ofile| == |old(ofile)| && |ofile[cur]| == nofile
      ensures forall i :: 0 <= i < nofile ==> ofile[cur][i] == None
      ensures forall q :: 0 <= q < |ofile| && q != cur ==> ofile[q] == old(ofile)[q]
    {
      hide Sound, Settled;
      var fd := 0;
      while fd < nofile
        invariant 0 <= fd <= nofile && Valid() && |ofile| == |old(ofile)| && |ofile[cur]| == nofile
        invariant forall q :: 0 <= q < |ofile| && q != cur ==> ofile[q] == old(ofile)[q]
        invariant forall k :: 0 <= k < fd ==> ofile[cur][k] == None
      {
        var _ := SysClose(cur, fd);
        fd := fd + 1;
      }
    }
  }

  ghost predicate AllInUse(file: seq<File>) {
    forall f :: 0 <= f < |file| ==> file[f].ref > 0
  }

  ghost predicate TwoUnused(file: seq<File>) {
    exists f, g :: 0 <= f < g < |file| && file[f].ref == 0 && file[g].ref == 0
  }

  ghost predicate TwoSlots(row: seq<Option<nat>>) {
    exists i, j :: 0 <= i < j < |row| && row[i] == None && row[j] == None
  }

  lemma NoneUnused(file: seq<File>)
    ensures AllInUse(file) ==> !TwoUnused(file)
  {
  }

  lemma SecondFile(file: seq<File>, f: nat)
    requires f < |file| && file[f].ref == 0
    ensures TwoUnused(file) <==> !AllInUse(file[f := File(1, FdNone)])
  {
    var rest := file[f := File(1, FdNone)];
    if !AllInUse(rest) {
      var g :| 0 <= g < |rest| && !(rest[g].ref > 0);
      assert file[g].ref == 0 && (f < g || g < f);
    }
    if TwoUnused(file) {
      var a, b :| 0 <= a < b < |file| && file[a].ref == 0 && file[b].ref == 0;
      assert rest[a].ref == 0 || rest[b].ref == 0;
    }
  }

  lemma SecondSlot(row: seq<Option<nat>>, fd: nat, f: nat)
    requires LowestFree(row, fd)
    ensures TwoSlots(row) <==> !AllTaken(row[fd := Some(f)])
  {
    var rest := row[fd := Some(f)];
    if !AllTaken(rest) {
      var j :| 0 <= j < |rest| && !rest[j].Some?;
      assert fd < j && row[j] == None;
    }
    if TwoSlots(row) {
      var i, j :| 0 <= i < j < |row| && row[i] == None && row[j] == None;
      assert rest[j] == None;
    }
  }

  lemma PutRow(t: Table, p: nat, fd: nat, x: Option<nat>)
    requires p < |t| && fd < |t[p]|
    ensures |Put(t, p, fd, x)| == |t| && Put(t, p, fd, x)[p] == t[p][fd := x]
  {
  }

  predicate LowestFree(row: seq<Option<nat>>, fd: nat) {
    fd < |row| && row[fd] == None && forall i :: 0 <= i < fd ==> row[i].Some?
  }

  ghost predicate AllTaken(row: seq<Option<nat>>) {
    forall i :: 0 <= i < |row| ==> row[i].Some?
  }

  /** Two files that were free stand for the ends of a new pipe, and are in nobody's slots yet. */
  ghost predicate NewPipe(file: seq<File>, file': seq<File>, pipes: seq<PipeEnds>, pipes': seq<PipeEnds>,
                          extra: seq<int>, extra': seq<int>, r: nat, w: nat)
  {
    && r < |file| && w < |file| && r != w && |extra| == |file|
    && file[r] == File(0, FdNone) && file[w] == File(0, FdNone)
    && file' == file[r := File(1, FdPipe(|pipes|, false))][w := File(1, FdPipe(|pipes|, true))]
    && pipes' == pipes + [PipeEnds(true, true, 0)]
    && extra' == Bump(Bump(extra, r, 1), w, 1)
  }

  lemma AllocUndone(file: seq<File>, extra: seq<int>, f: nat)
    requires f < |file| == |extra| && file[f] == File(0, FdNone)
    ensures file[f := File(1, FdNone)][f := File(0, FdNone)] == file && Bump(Bump(extra, f, 1), f, -1) == extra
  {
  }

  lemma TwoUndone(file: seq<File>, extra: seq<int>, f: nat, g: nat)
    requires f < |file| == |extra| && g < |file| && f != g && file[f] == File(0, FdNone) && file[g] == File(0, FdNone)
    ensures file[f := File(1, FdNone)][g := File(1, FdNone)][f := File(0, FdNone)][g := File(0, FdNone)] == file
    ensures Bump(Bump(Bump(Bump(extra, f, 1), g, 1), f, -1), g, -1) == extra
  {
  }

  lemma SettledOpen(file: seq<File>, extra: seq<int>, f: nat, ip: nat)
    requires Settled(file, extra) && f < |file|
    ensures Settled(file[f := File(1, FdNone)][f := File(1, FdInode(ip))], Bump(Bump(extra, f, 1), f, -1))
    ensures file[f := File(1, FdNone)][f := File(1, FdInode(ip))] == file[f := File(1, FdInode(ip))]
  {
  }

  lemma SettledPipe(file: seq<File>, pipes: seq<PipeEnds>, extra: seq<int>, file': seq<File>, pipes': seq<PipeEnds>,
                    extra': seq<int>, r: nat, w: nat)
    requires Settled(file, extra) && NewPipe(file, file', pipes, pipes', extra, extra', r, w)
    ensures Settled(file', Bump(Bump(extra', r, -1), w, -1))
  {
  }

  lemma Ranges(file: seq<File>, t: Table, pipes: seq<PipeEnds>, extra: seq<int>, nofile: nat)
    requires Sound(file, t, pipes, extra, nofile)
    ensures |extra| == |file| && InRange(t, nofile, |file|)
    ensures forall f :: 0 <= f < |file| && file[f].ref == 0 ==> file[f] == File(0, FdNone)
  {
  }

  lemma SetInode(file: seq<File>, t: Table, pipes: seq<PipeEnds>, extra: seq<int>, nofile: nat, f: nat, ip: nat)
    requires Sound(file, t, pipes, extra, nofile) && f < |file| && file[f] == File(1, FdNone)
    ensures Sound(file[f := file[f].(kind := FdInode(ip))], t, pipes, extra, nofile)
  {
    PipedSame(file, pipes, f, File(1, FdInode(ip)));
  }

  lemma SetPipe(file: seq<File>, t: Table, pipes: seq<PipeEnds>, extra: seq<int>, nofile: nat, r: nat, w: nat)
    requires Sound(file, t, pipes, extra, nofile) && r < |file| && w < |file| && r != w
    requires file[r] == File(1, FdNone) && file[w] == File(1, FdNone)
    ensures Sound(file[r := file[r].(kind := FdPipe(|pipes|, false))][w := file[w].(kind := FdPipe(|pipes|, true))], t,
                  pipes + [PipeEnds(true, true, 0)], extra, nofile)
  {
    PipedNew(file, pipes, r, w);
  }

  lemma BumpBack(extra: seq<int>, f: nat)
    requires f < |extra|
    ensures Bump(Bump(extra, f, -1), f, 1) == extra
  {
  }

  lemma NoSlots(row: seq<Option<nat>>)
    requires AllTaken(row)
    ensures !TwoSlots(row)
  {
  }

  lemma NewPipeIs(file: seq<File>, file': seq<File>, pipes: seq<PipeEnds>, pipes': seq<PipeEnds>,
                  extra: seq<int>, extra': seq<int>, r: nat, w: nat)
    requires NewPipe(file, file', pipes, pipes', extra, extra', r, w)
    ensures r < |file'| == |extra'| && w < |file'| && pipes' == pipes + [PipeEnds(true, true, 0)]
    ensures file'[r].kind == FdPipe(|pipes|, false) && file'[w].kind == FdPipe(|pipes|, true)
  {
  }

  lemma PutBack(t: Table, p: nat, fd: nat, f: nat)
    requires p < |t| && fd < |t[p]| && t[p][fd] == None
    ensures Put(Put(t, p, fd, Some(f)), p, fd, None) == t
  {
    assert t[p][fd := Some(f)][fd := None] == t[p];
  }

  lemma {:induction false} RowSlot(row: seq<Option<nat>>, f: nat) returns (i: nat)
    requires InRow(row, f) > 0
    ensures i < |row| && row[i] == Some(f)
  {
    if Hit(row[|row| - 1], f) > 0 {
      i := |row| - 1;
    } else {
      i := RowSlot(row[..|row| - 1], f);
    }
  }

  lemma {:induction false} TableSlot(t: Table, f: nat) returns (p: nat, i: nat)
    requires Slots(t, f) > 0
    ensures p < |t| && i < |t[p]| && t[p][i] == Some(f)
  {
    if InRow(t[|t| - 1], f) > 0 {
      p := |t| - 1;
      i := RowSlot(t[p], f);
    } else {
      p, i := TableSlot(t[..|t| - 1], f);
    }
  }

  /** Some descriptor leads to pipe p. */
  ghost predicate Reaches(file: seq<File>, t: Table, p: nat) {
    exists q, i, f ::
      && 0 <= q < |t| && 0 <= i < |t[q]| && 0 <= f < |file| && t[q][i] == Some(f)
      && file[f].kind.FdPipe? && file[f].kind.pipe == p
  }

  /** Between calls a pipe's page has been freed, and once only, exactly if no descriptor of any
      process leads to either of its ends. */
  lemma PageFreedOnce(file: seq<File>, t: Table, pipes: seq<PipeEnds>, extra: seq<int>, nofile: nat, p: nat)
    requires Sound(file, t, pipes, extra, nofile) && Settled(file, extra) && p < |pipes|
    ensures pipes[p].freed <= 1 && (pipes[p].freed == 1 <==> !Reaches(file, t, p))
  {
    if pipes[p].freed == 0 {
      var w := pipes[p].writeopen;
      assert EndOpen(pipes[p], w);
      assert HasEnd(file, p, w);
      var f :| 0 <= f < |file| && file[f].kind == FdPipe(p, w);
      assert file[f].ref > 0 && extra[f] == 0;
      var q, i := TableSlot(t, f);
      assert Reaches(file, t, p);
    }
  }

  lemma {:induction false} EmptyRow(row: seq<Option<nat>>, f: nat)
    requires forall i :: 0 <= i < |row| ==> row[i] == None
    ensures InRow(row, f) == 0
  {
    if row != [] {
      EmptyRow(row[..|row| - 1], f);
    }
  }

  lemma {:induction false} EmptySlots(t: Table, row: seq<Option<nat>>)
    requires (forall i :: 0 <= i < |row| ==> row[i] == None) && forall p :: 0 <= p < |t| ==> t[p] == row
    ensures forall f: nat :: Slots(t, f) == 0
  {
    forall f: nat
      ensures Slots(t, f) == 0
    {
      if t != [] {
        EmptySlots(t[..|t| - 1], row);
        EmptyRow(row, f);
      }
    }
  }
}
