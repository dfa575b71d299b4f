/** Pipes. Each method is what a process does in the pipe from taking its lock, or waking with
    it, to giving it up by returning or going to sleep; processes call them in any order.
    `readers` and `writers` are the processes asleep on &nread and &nwrite; `accepted` and
    `delivered` are all the bytes that were ever put into the pipe and taken out of it. */
module Pipe {
  import opened Blocks
  import opened Counting

  const PIPESIZE: nat := 512
  const UINT: nat := 0x1_0000_0000

  datatype Outcome = Done | Failed | Sleeps

  /** The low 32 bits of a count give its place in the ring, because 512 divides 2^32. */
  lemma RingPlace(k: nat)
    ensures k % UINT % PIPESIZE == k % PIPESIZE
  {
    var q, r := k / UINT, k % UINT;
    assert k == q * UINT + r;
    assert q * UINT == PIPESIZE * (q * 0x80_0000);
    Multiple(q * 0x80_0000, r);
  }

  lemma Multiple(a: nat, r: nat)
    ensures (PIPESIZE * a + r) % PIPESIZE == r % PIPESIZE
  {
  }

  /** Counters that differ by at most the ring's size can be compared modulo 2^32. */
  lemma Counters(r: nat, w: nat)
    requires r <= w <= r + PIPESIZE
    ensures w % UINT == (r % UINT + PIPESIZE) % UINT <==> w == r + PIPESIZE
    ensures w % UINT == r % UINT <==> w == r
    ensures (w % UINT + 1) % UINT == (w + 1) % UINT
  {
  }

  lemma OtherPlace(k: nat, w: nat)
    requires k < w < k + PIPESIZE
    ensures k % PIPESIZE != w % PIPESIZE
  {
  }

  class Pipe {
    const data: array<byte>
    var nread: nat
    var nwrite: nat
    var readopen: bool
    var writeopen: bool
    var readers: set<nat>
    var writers: set<nat>
    ghost var accepted: seq<byte>
    ghost var delivered: seq<byte>

    /** The bytes in the ring. */
    ghost function Ring(): seq<byte>
      requires |delivered| <= |accepted|
      reads this
    {
      accepted[|delivered|..]
    }

    /** What was delivered is what was accepted first, and the rest is in the ring. */
    ghost predicate Fifo()
      reads this, data
    {
      && data.Length == PIPESIZE
      && |delivered| <= |accepted| <= |delivered| + PIPESIZE && delivered == accepted[..|delivered|]
      && nread == |delivered| % UINT && nwrite == |accepted| % UINT
      && (forall k :: |delivered| <= k < |accepted| ==> data[k % PIPESIZE] == accepted[k])
    }

    /** Besides, a writer sleeps only if the ring is full and can be read. */
    ghost predicate Valid()
      reads this, data
    {
      Fifo() && (writers != {} ==> |Ring()| == PIPESIZE && readopen)
    }

    /** A reader sleeps only if there is nothing to read and somebody may still write. */
    ghost predicate Quiet()
      reads this
    {
      readers != {} ==> |accepted| == |delivered| && writeopen
    }

    constructor ()
      ensures Valid() && Quiet() && accepted == [] && readopen && writeopen && fresh(data)
    {
      data := new byte[PIPESIZE];
      nread, nwrite, readopen, writeopen, readers, writers := 0, 0, true, true, {}, {};
      accepted, delivered := [], [];
    }

    /** Put one byte into a ring that is not full. */
    method Push(b: byte)
      requires data.Length == PIPESIZE && nwrite == |accepted| % UINT
      requires |delivered| <= |accepted| < |delivered| + PIPESIZE
      requires forall k :: |delivered| <= k < |accepted| ==> data[k % PIPESIZE] == accepted[k]
      modifies this`nwrite, this`accepted, data
      ensures accepted == old(accepted) + [b] && nwrite == |accepted| % UINT
      ensures forall k :: |delivered| <= k < |accepted| ==> data[k % PIPESIZE] == accepted[k]
    {
      RingPlace(|accepted|);
      Counters(|delivered|, |accepted|);
      forall k | |delivered| <= k < |accepted|
        ensures k % PIPESIZE != |accepted| % PIPESIZE
      {
        OtherPlace(k, |accepted|);
      }
      data[nwrite % PIPESIZE] := b;
      nwrite := (nwrite + 1) % UINT;
      accepted := accepted + [b];
    }

    /** pipewrite from byte i on, by process w. */
    method Write(w: nat, src: seq<byte>, i: nat, killed: bool) returns (r: Outcome, end: nat)
      requires Valid() && i <= |src|
      modifies this, data
      ensures Valid() && delivered == old(delivered) && readopen == old(readopen) && writeopen == old(writeopen)
      ensures i <= end <= |src| && accepted == old(accepted) + src[i..end]
      ensures end == |src| || |Ring()| == PIPESIZE
      ensures r == Done <==> end == |src|
      ensures r == Failed <==> end < |src| && (!readopen || killed)
      ensures readers == if r == Failed then old(readers) else {}
      ensures writers == if r == Sleeps then old(writers) + {w} else old(writers)
      ensures old(Quiet()) ==> (Quiet() <==> !(old(readers) != {} && |src| - i > PIPESIZE && (!readopen || killed)))
    {
      end := i;
      while end < |src|
        invariant i <= end <= |src| && Valid()
        invariant accepted == old(accepted) + src[i..end] && delivered == old(delivered)
        invariant readopen == old(readopen) && writeopen == old(writeopen) && readers == old(readers)
        invariant writers == old(writers)
      {
        Counters(|delivered|, |accepted|);
        if nwrite == (nread + PIPESIZE) % UINT {
          if !readopen || killed {
            return Failed, end;
          }
          readers := {};
          writers := writers + {w};
          return Sleeps, end;
        }
        Push(src[end]);
        end := end + 1;
      }
      readers := {};
      return Done, end;
    }

    /** Take one byte out of a ring that is not empty. */
    method Pop() returns (b: byte)
      requires Fifo() && |delivered| < |accepted|
      modifies this`nread, this`delivered
      ensures Fifo() && b == accepted[|old(delivered)|] && delivered == old(delivered) + [b]
    {
      RingPlace(|delivered|);
      Counters(|delivered|, |delivered|);
      b := data[nread % PIPESIZE];
      nread := (nread + 1) % UINT;
      delivered := delivered + [b];
    }

    /** piperead by process p: the next bytes, as many as asked for and there are. */
    method Read(p: nat, n: int, killed: bool) returns (r: Outcome, got: seq<byte>)
      requires Valid()
      modifies this
      ensures Valid() && accepted == old(accepted) && delivered == old(delivered) + got
      ensures readopen == old(readopen) && writeopen == old(writeopen)
      ensures r == Failed <==> |old(Ring())| == 0 && writeopen && killed
      ensures r == Sleeps <==> |old(Ring())| == 0 && writeopen && !killed
      ensures r != Done ==> got == [] && writers == old(writers)
      ensures r == Done ==> |got| == Max(0, Min(n, |old(Ring())|)) && writers == {}
      ensures readers == if r == Sleeps then old(readers) + {p} else old(readers)
      ensures old(Quiet()) ==> Quiet()
    {
      got := [];
      Counters(|delivered|, |accepted|);
      if nread == nwrite && writeopen {
        if killed {
          return Failed, got;
        }
        readers := readers + {p};
        return Sleeps, got;
      }
      var i := 0;
      while i < n
        invariant 0 <= i == |got| <= Max(0, Min(n, |old(Ring())|)) && Fifo()
        invariant accepted == old(accepted) && delivered == old(delivered) + got
        invariant readopen == old(readopen) && writeopen == old(writeopen) && readers == old(readers)
      {
        Counters(|delivered|, |accepted|);
        if nread == nwrite {
          break;
        }
        var b := Pop();
        got := got + [b];
        i := i + 1;
      }
      writers := {};
      return Done, got;
    }

    /** The last descriptor of one end is gone; true means that both are, and the page is freed. */
    method Close(writable: bool) returns (freed: bool)
      requires Valid()
      modifies this`readopen, this`writeopen, this`readers, this`writers
      ensures Valid() && (freed <==> !readopen && !writeopen)
      ensures writeopen == (old(writeopen) && !writable) && readopen == (old(readopen) && writable)
      ensures old(Quiet()) ==> Quiet()
      ensures readers == (if writable then {} else old(readers)) && writers == (if writable then old(writers) else {})
    {
      if writable {
        writeopen, readers := false, {};
      } else {
        readopen, writers := false, {};
      }
      return !readopen && !writeopen;
    }

    /** Being killed wakes a process wherever it sleeps. */
    method Wake(p: nat)
      requires Valid()
      modifies this`readers, this`writers
      ensures Valid() && (old(Quiet()) ==> Quiet())
      ensures readers == old(readers) - {p} && writers == old(writers) - {p}
    {
      readers, writers := readers - {p}, writers - {p};
    }

    /** Readers and writers never wait for each other. */
    lemma NotBothAsleep()
      requires Valid() && Quiet()
      ensures readers == {} || writers == {}
    {
    }
  }

  /** A killed writer that fills the ring leaves a reader asleep with bytes to read. */
  method StrandedReader() returns (p: Pipe)
    ensures p.Valid() && !p.Quiet() && p.writeopen && |p.Ring()| == PIPESIZE
  {
    p := new Pipe();
    var r, _ := p.Read(1, 1, false);
    var src: seq<byte> := seq(PIPESIZE + 1, _ => 0);
    var o, end := p.Write(2, src, 0, true);
  }

}
