/** Command lines and parsed commands as values: which words there are in the text, and where
    they have gone in a command. Words are given by the two positions the parser keeps. */
module ShellWords {
  datatype Span = Span(a: nat, b: nat)

  /** A redirection: file, open mode and descriptor. */
  datatype Redirection = Redirection(file: Span, mode: nat, fd: nat)

  datatype Cmd =
    | Exec(argv: seq<Span>)
    | Redir(cmd: Cmd, to: Redirection)
    | Pipe(left: Cmd, right: Cmd)
    | List(left: Cmd, right: Cmd)
    | Back(cmd: Cmd)

  predicate Space(c: char) {
    c == ' ' || c == '\t' || c == '\r' || c == '\n' || c as int == 11
  }

  predicate Symbol(c: char) {
    c == '<' || c == '|' || c == '>' || c == '&' || c == ';' || c == '(' || c == ')'
  }

  predicate WordChar(c: char) {
    !Space(c) && !Symbol(c)
  }

  /** The character at a position, with the NUL that ends the line. */
  function At(s: string, i: nat): char {
    if i < |s| then s[i] else '\0'
  }

  /** A word: as long a run of word characters as there is. */
  ghost predicate IsWord(s: string, w: Span) {
    && w.a < w.b <= |s|
    && (forall i :: w.a <= i < w.b ==> WordChar(s[i]))
    && (w.a > 0 ==> !WordChar(s[w.a - 1]))
    && (w.b < |s| ==> !WordChar(s[w.b]))
  }

  ghost predicate WordIn(s: string, w: Span, lo: nat, hi: nat) {
    IsWord(s, w) && lo <= w.a && w.b <= hi
  }

  /** No word goes across this position. */
  predicate Boundary(s: string, i: nat) {
    i <= |s| && !(0 < i < |s| && WordChar(s[i - 1]) && WordChar(s[i]))
  }

  function Hit(v: Span, w: Span): nat {
    if v == w then 1 else 0
  }

  function InSpans(ws: seq<Span>, w: Span): nat {
    if ws == [] then 0 else InSpans(ws[..|ws| - 1], w) + Hit(ws[|ws| - 1], w)
  }

  function InRedirs(rs: seq<Redirection>, w: Span): nat {
    if rs == [] then 0 else InRedirs(rs[..|rs| - 1], w) + Hit(rs[|rs| - 1].file, w)
  }

  /** How often a word occurs in a command, as argument or redirection file. */
  function Count(c: Cmd, w: Span): nat {
    match c
    case Exec(argv) => InSpans(argv, w)
    case Redir(d, to) => Count(d, w) + Hit(to.file, w)
    case Pipe(l, r) => Count(l, w) + Count(r, w)
    case List(l, r) => Count(l, w) + Count(r, w)
    case Back(d) => Count(d, w)
  }

  /** The redirections wrapped around a command, one after the other. */
  function Wrap(c: Cmd, rs: seq<Redirection>): Cmd {
    if rs == [] then c else Redir(Wrap(c, rs[..|rs| - 1]), rs[|rs| - 1])
  }

  lemma {:induction false} WrapCount(c: Cmd, rs: seq<Redirection>, w: Span)
    ensures Count(Wrap(c, rs), w) == Count(c, w) + InRedirs(rs, w)
  {
    if rs != [] {
      WrapCount(c, rs[..|rs| - 1], w);
    }
  }

  lemma {:induction false} RedirsAppend(rs: seq<Redirection>, qs: seq<Redirection>, w: Span)
    ensures InRedirs(rs + qs, w) == InRedirs(rs, w) + InRedirs(qs, w)
  {
    if qs == [] {
      assert rs + qs == rs;
    } else {
      assert (rs + qs)[..|rs + qs| - 1] == rs + qs[..|qs| - 1];
      RedirsAppend(rs, qs[..|qs| - 1], w);
    }
  }

  lemma SpansAppend(ws: seq<Span>, v: Span, w: Span)
    ensures InSpans(ws + [v], w) == InSpans(ws, w) + Hit(v, w)
  {
    assert (ws + [v])[..|ws|] == ws;
  }

  ghost function OneIf(p: bool): nat {
    if p then 1 else 0
  }

  /** Every word of s in [lo, hi) occurs once, and nothing else does. */
  ghost predicate Exact(s: string, c: Cmd, lo: nat, hi: nat) {
    forall w: Span :: Count(c, w) == OneIf(WordIn(s, w, lo, hi))
  }

  ghost predicate ExactRedirs(s: string, rs: seq<Redirection>, lo: nat, hi: nat) {
    forall w: Span :: InRedirs(rs, w) == OneIf(WordIn(s, w, lo, hi))
  }

  ghost predicate ExactParts(s: string, argv: seq<Span>, rs: seq<Redirection>, lo: nat, hi: nat) {
    forall w: Span :: InSpans(argv, w) + InRedirs(rs, w) == OneIf(WordIn(s, w, lo, hi))
  }

  /** The words of two adjacent parts of the text. */
  lemma WordsSplit(s: string, w: Span, lo: nat, mid: nat, hi: nat)
    requires lo <= mid <= hi && Boundary(s, mid)
    ensures OneIf(WordIn(s, w, lo, hi)) == OneIf(WordIn(s, w, lo, mid)) + OneIf(WordIn(s, w, mid, hi))
  {
    if 0 < mid < |s| {
      assert !(WordChar(s[mid - 1]) && WordChar(s[mid]));
    }
  }

  /** Two words never overlap, nor does one end where another begins. */
  lemma WordsApart(s: string, v: Span, w: Span)
    requires IsWord(s, v) && IsWord(s, w) && v != w
    ensures v.b < w.a || w.b < v.a
  {
    if v.a > 0 {
      assert !WordChar(s[v.a - 1]);
    }
    if w.a > 0 {
      assert !WordChar(s[w.a - 1]);
    }
    if v.b < |s| {
      assert !WordChar(s[v.b]);
    }
    if w.b < |s| {
      assert !WordChar(s[w.b]);
    }
  }

  /** Between white space and symbols there is one word, or none. */
  lemma OneToken(s: string, lo: nat, q: nat, eq: nat, hi: nat, word: bool)
    requires lo <= q <= eq <= hi <= |s| && (word <==> IsWord(s, Span(q, eq)))
    requires forall i :: lo <= i < q || eq <= i < hi ==> !WordChar(s[i])
    requires !word ==> forall i :: q <= i < eq ==> !WordChar(s[i])
    ensures forall w: Span :: WordIn(s, w, lo, hi) <==> word && w == Span(q, eq)
  {
    forall w: Span
      ensures WordIn(s, w, lo, hi) <==> word && w == Span(q, eq)
    {
      if IsWord(s, w) {
        assert WordChar(s[w.a]);
        if word && w != Span(q, eq) {
          WordsApart(s, w, Span(q, eq));
        }
      }
    }
  }

  ghost predicate NoWords(s: string, lo: nat, hi: nat) {
    forall w: Span :: !WordIn(s, w, lo, hi)
  }

  lemma ExactExtend(s: string, c: Cmd, lo: nat, mid: nat, hi: nat)
    requires lo <= mid <= hi && Boundary(s, mid) && Exact(s, c, lo, mid) && NoWords(s, mid, hi)
    ensures Exact(s, c, lo, hi)
  {
    forall w: Span
      ensures Count(c, w) == OneIf(WordIn(s, w, lo, hi))
    {
      WordsSplit(s, w, lo, mid, hi);
    }
  }

  lemma ExactPrefix(s: string, c: Cmd, lo: nat, mid: nat, hi: nat)
    requires lo <= mid <= hi && Boundary(s, mid) && Exact(s, c, mid, hi) && NoWords(s, lo, mid)
    ensures Exact(s, c, lo, hi)
  {
    forall w: Span
      ensures Count(c, w) == OneIf(WordIn(s, w, lo, hi))
    {
      WordsSplit(s, w, lo, mid, hi);
    }
  }

  /** Two commands side by side. */
  lemma ExactJoin(s: string, l: Cmd, r: Cmd, lo: nat, mid: nat, hi: nat)
    requires lo <= mid <= hi && Boundary(s, mid) && Exact(s, l, lo, mid) && Exact(s, r, mid, hi)
    ensures Exact(s, Pipe(l, r), lo, hi) && Exact(s, List(l, r), lo, hi)
  {
    forall w: Span
      ensures Count(l, w) + Count(r, w) == OneIf(WordIn(s, w, lo, hi))
    {
      WordsSplit(s, w, lo, mid, hi);
    }
  }

  /** One more redirection. */
  lemma RedirNext(s: string, rs: seq<Redirection>, r: Redirection, lo: nat, mid: nat, hi: nat)
    requires lo <= mid <= hi && Boundary(s, mid) && ExactRedirs(s, rs, lo, mid)
    requires forall w: Span :: WordIn(s, w, mid, hi) <==> w == r.file
    ensures ExactRedirs(s, rs + [r], lo, hi)
  {
    forall w: Span
      ensures InRedirs(rs + [r], w) == OneIf(WordIn(s, w, lo, hi))
    {
      WordsSplit(s, w, lo, mid, hi);
      RedirsAppend(rs, [r], w);
    }
  }

  lemma RedirsExtend(s: string, rs: seq<Redirection>, lo: nat, mid: nat, hi: nat)
    requires lo <= mid <= hi && Boundary(s, mid) && ExactRedirs(s, rs, lo, mid) && NoWords(s, mid, hi)
    ensures ExactRedirs(s, rs, lo, hi)
  {
    forall w: Span
      ensures InRedirs(rs, w) == OneIf(WordIn(s, w, lo, hi))
    {
      WordsSplit(s, w, lo, mid, hi);
    }
  }

  /** One more argument. */
  lemma ArgNext(s: string, argv: seq<Span>, rs: seq<Redirection>, v: Span, lo: nat, mid: nat, hi: nat)
    requires lo <= mid <= hi && Boundary(s, mid) && ExactParts(s, argv, rs, lo, mid)
    requires forall w: Span :: WordIn(s, w, mid, hi) <==> w == v
    ensures ExactParts(s, argv + [v], rs, lo, hi)
  {
    forall w: Span
      ensures InSpans(argv + [v], w) + InRedirs(rs, w) == OneIf(WordIn(s, w, lo, hi))
    {
      WordsSplit(s, w, lo, mid, hi);
      SpansAppend(argv, v, w);
    }
  }

  lemma PartsRedirs(s: string, argv: seq<Span>, rs: seq<Redirection>, qs: seq<Redirection>, lo: nat, mid: nat, hi: nat)
    requires lo <= mid <= hi && Boundary(s, mid) && ExactParts(s, argv, rs, lo, mid) && ExactRedirs(s, qs, mid, hi)
    ensures ExactParts(s, argv, rs + qs, lo, hi)
  {
    forall w: Span
      ensures InSpans(argv, w) + InRedirs(rs + qs, w) == OneIf(WordIn(s, w, lo, hi))
    {
      WordsSplit(s, w, lo, mid, hi);
      RedirsAppend(rs, qs, w);
    }
  }

  lemma WrapExact(s: string, c: Cmd, rs: seq<Redirection>, lo: nat, mid: nat, hi: nat)
    requires lo <= mid <= hi && Boundary(s, mid) && Exact(s, c, lo, mid) && ExactRedirs(s, rs, mid, hi)
    ensures Exact(s, Wrap(c, rs), lo, hi)
  {
    forall w: Span
      ensures Count(Wrap(c, rs), w) == OneIf(WordIn(s, w, lo, hi))
    {
      WordsSplit(s, w, lo, mid, hi);
      WrapCount(c, rs, w);
    }
  }

  lemma PartsExact(s: string, argv: seq<Span>, rs: seq<Redirection>, lo: nat, hi: nat)
    requires ExactParts(s, argv, rs, lo, hi)
    ensures Exact(s, Wrap(Exec(argv), rs), lo, hi)
  {
    forall w: Span
      ensures Count(Wrap(Exec(argv), rs), w) == OneIf(WordIn(s, w, lo, hi))
    {
      WrapCount(Exec(argv), rs, w);
    }
  }

  /** Some word of the command ends at position k. */
  predicate EndsAt(c: Cmd, k: nat) {
    match c
    case Exec(argv) => exists i :: 0 <= i < |argv| && argv[i].b == k
    case Redir(d, to) => EndsAt(d, k) || to.file.b == k
    case Pipe(l, r) => EndsAt(l, k) || EndsAt(r, k)
    case List(l, r) => EndsAt(l, k) || EndsAt(r, k)
    case Back(d) => EndsAt(d, k)
  }

  lemma {:induction false} SpansHave(ws: seq<Span>, i: nat)
    requires i < |ws|
    ensures InSpans(ws, ws[i]) > 0
  {
    if i < |ws| - 1 {
      SpansHave(ws[..|ws| - 1], i);
    }
  }

  lemma {:induction false} SpanIn(ws: seq<Span>, w: Span) returns (i: nat)
    requires InSpans(ws, w) > 0
    ensures i < |ws| && ws[i] == w
  {
    if ws[|ws| - 1] == w {
      i := |ws| - 1;
    } else {
      i := SpanIn(ws[..|ws| - 1], w);
    }
  }

  lemma {:induction false} EndOfWord(c: Cmd, k: nat) returns (w: Span)
    requires EndsAt(c, k)
    ensures Count(c, w) > 0 && w.b == k
  {
    match c
    case Exec(argv) =>
      var i :| 0 <= i < |argv| && argv[i].b == k;
      w := argv[i];
      SpansHave(argv, i);
    case Redir(d, to) =>
      if to.file.b == k {
        w := to.file;
      } else {
        w := EndOfWord(d, k);
      }
    case Pipe(l, r) =>
      if EndsAt(l, k) {
        w := EndOfWord(l, k);
      } else {
        w := EndOfWord(r, k);
      }
    case List(l, r) =>
      if EndsAt(l, k) {
        w := EndOfWord(l, k);
      } else {
        w := EndOfWord(r, k);
      }
    case Back(d) => w := EndOfWord(d, k);
  }

  lemma {:induction false} WordEnds(c: Cmd, w: Span)
    requires Count(c, w) > 0
    ensures EndsAt(c, w.b)
  {
    match c
    case Exec(argv) =>
      var i := SpanIn(argv, w);
    case Redir(d, to) =>
      if to.file != w {
        WordEnds(d, w);
      }
    case Pipe(l, r) =>
      if Count(l, w) > 0 {
        WordEnds(l, w);
      } else {
        WordEnds(r, w);
      }
    case List(l, r) =>
      if Count(l, w) > 0 {
        WordEnds(l, w);
      } else {
        WordEnds(r, w);
      }
    case Back(d) => WordEnds(d, w);
  }

  /** The line with a NUL at the end of every word of the command. */
  ghost predicate Terminated(s: seq<char>, t: seq<char>, c: Cmd) {
    |t| == |s| && forall k :: 0 <= k < |s| ==> t[k] == if EndsAt(c, k) then '\0' else s[k]
  }

  /** What is read from position i on as a C string. */
  function CString(t: seq<char>, i: nat): string
    decreases |t| - i
  {
    if i < |t| && t[i] != '\0' then [t[i]] + CString(t, i + 1) else []
  }

  lemma {:induction false} CStringIs(t: seq<char>, a: nat, b: nat)
    requires a <= b < |t| && t[b] == '\0' && forall k :: a <= k < b ==> t[k] != '\0'
    ensures CString(t, a) == t[a..b]
    decreases b - a
  {
    if a < b {
      CStringIs(t, a + 1, b);
      assert t[a..b] == [t[a]] + t[a + 1..b];
    }
  }

  /** What comes right after a word of the command is no word character. */
  lemma EndNotWord(s: string, c: Cmd, k: nat)
    requires Exact(s, c, 0, |s|) && EndsAt(c, k)
    ensures k <= |s| && (k < |s| ==> !WordChar(s[k]))
  {
    var v := EndOfWord(c, k);
    assert Count(c, v) == OneIf(WordIn(s, v, 0, |s|));
  }

  /** No terminator lands inside a word, so each word reads as itself. */
  lemma WordsReadBack(s: string, line: seq<char>, t: seq<char>, c: Cmd, w: Span)
    requires |s| < |line| && line[..|s|] == s && line[|s|] == '\0' && '\0' !in s
    requires Exact(s, c, 0, |s|) && Terminated(line, t, c) && IsWord(s, w)
    ensures CString(t, w.a) == s[w.a..w.b]
  {
    assert Count(c, w) == OneIf(WordIn(s, w, 0, |s|));
    WordEnds(c, w);
    forall k | w.a <= k < w.b
      ensures t[k] == s[k]
    {
      assert WordChar(s[k]) && line[k] == s[k];
      if EndsAt(c, k) {
        EndNotWord(s, c, k);
      }
    }
    CStringIs(t, w.a, w.b);
    assert t[w.a..w.b] == s[w.a..w.b];
  }
}
