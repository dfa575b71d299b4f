/** The grammar of command lines: which command a stretch of text stands for. */
module ShellGrammar {
  import opened ShellWords

  const MAXARGS: nat := 14
  const O_RDONLY: nat := 0x000
  const O_CREATE_WRONLY: nat := 0x201

  /** The next position that is not white space. */
  function Skip(s: string, i: nat): (p: nat)
    ensures i <= |s| ==> i <= p <= |s| && (p < |s| ==> !Space(s[p])) && forall k :: i <= k < p ==> Space(s[k])
    decreases |s| - i
  {
    if i < |s| && Space(s[i]) then Skip(s, i + 1) else i
  }

  lemma {:induction false} SkipTo(s: string, i: nat, p: nat)
    requires i <= p <= |s| && (forall k :: i <= k < p ==> Space(s[k])) && (p < |s| ==> !Space(s[p]))
    ensures Skip(s, i) == p
    decreases p - i
  {
    if i < p {
      SkipTo(s, i + 1, p);
    }
  }

  /** From m on there is symbol c, and then `next`. */
  predicate Sym(s: string, m: nat, c: char, next: nat) {
    m <= |s| && At(s, Skip(s, m)) == c && next == Skip(s, Skip(s, m) + 1)
  }

  /** An operator and a file. */
  predicate RedirG(s: string, r: Redirection, lo: nat, hi: nat) {
    lo <= |s|
    && var q := Skip(s, lo);
    && (At(s, q) == '<' || At(s, q) == '>')
    && r.file.a == Skip(s, if At(s, q) == '>' && At(s, q + 1) == '>' then q + 2 else q + 1)
    && r.file.b <= |s| && hi == Skip(s, r.file.b)
    && r.mode == (if At(s, q) == '<' then O_RDONLY else O_CREATE_WRONLY)
    && r.fd == (if At(s, q) == '<' then 0 else 1)
  }

  ghost predicate RedirsG(s: string, rs: seq<Redirection>, lo: nat, hi: nat) {
    if rs == [] then lo <= |s| && hi == Skip(s, lo)
    else
      var front, last := rs[..|rs| - 1], rs[|rs| - 1];
      IsWord(s, last.file) && exists m: nat :: RedirsG(s, front, lo, m) && RedirG(s, last, m, hi)
  }

  /** Arguments with redirections before, between and after them. */
  ghost predicate PartsG(s: string, argv: seq<Span>, rs: seq<Redirection>, lo: nat, hi: nat) {
    if argv == [] then RedirsG(s, rs, lo, hi)
    else
      var front, last := argv[..|argv| - 1], argv[|argv| - 1];
      IsWord(s, last)
      && exists m: nat, before: seq<Redirection>, after: seq<Redirection> ::
           && rs == before + after && PartsG(s, front, before, lo, m)
           && m <= |s| && last.a == Skip(s, m) && RedirsG(s, after, Skip(s, last.b), hi)
  }

  /** A simple command, or a line in parentheses with redirections after it. */
  ghost predicate ExecG(s: string, c: Cmd, lo: nat, hi: nat)
    decreases |s| - lo, c, 0
  {
    || (exists argv: seq<Span>, rs: seq<Redirection> ::
          c == Wrap(Exec(argv), rs) && |argv| < MAXARGS && PartsG(s, argv, rs, lo, hi))
    || (exists d: Cmd, rs: seq<Redirection>, begin: nat, mid: nat, after: nat ::
          c == Wrap(d, rs) && lo < begin <= |s| && Sym(s, lo, '(', begin) && LineG(s, d, begin, mid)
          && Sym(s, mid, ')', after) && RedirsG(s, rs, after, hi))
  }

  ghost predicate PipeG(s: string, c: Cmd, lo: nat, hi: nat)
    decreases |s| - lo, c, 1
  {
    || ExecG(s, c, lo, hi)
    || (c.Pipe? && exists m: nat, next: nat ::
          lo <= next && ExecG(s, c.left, lo, m) && Sym(s, m, '|', next) && PipeG(s, c.right, next, hi))
  }

  /** A pipeline with any number of ampersands. */
  ghost predicate BackG(s: string, c: Cmd, lo: nat, hi: nat)
    decreases |s| - lo, c, 2
  {
    || PipeG(s, c, lo, hi)
    || (c.Back? && exists m: nat :: BackG(s, c.cmd, lo, m) && Sym(s, m, '&', hi))
  }

  ghost predicate LineG(s: string, c: Cmd, lo: nat, hi: nat)
    decreases |s| - lo, c, 3
  {
    || BackG(s, c, lo, hi)
    || (c.List? && exists m: nat, next: nat ::
          lo <= next && BackG(s, c.left, lo, m) && Sym(s, m, ';', next) && LineG(s, c.right, next, hi))
  }

  lemma {:induction false} RedirsFrom(s: string, rs: seq<Redirection>, lo: nat, hi: nat)
    requires lo <= |s| && RedirsG(s, rs, Skip(s, lo), hi)
    ensures RedirsG(s, rs, lo, hi)
  {
    SkipTo(s, Skip(s, lo), Skip(s, lo));
    if rs != [] {
      var front, last := rs[..|rs| - 1], rs[|rs| - 1];
      var m: nat :| RedirsG(s, front, Skip(s, lo), m) && RedirG(s, last, m, hi);
      RedirsFrom(s, front, lo, m);
    }
  }

  lemma RedirsSnoc(s: string, rs: seq<Redirection>, r: Redirection, lo: nat, m: nat, hi: nat)
    requires RedirsG(s, rs, lo, m) && RedirG(s, r, m, hi) && IsWord(s, r.file)
    ensures RedirsG(s, rs + [r], lo, hi)
  {
    assert (rs + [r])[..|rs|] == rs;
  }

  lemma PartsSnoc(s: string, argv: seq<Span>, rs: seq<Redirection>, v: Span, qs: seq<Redirection>, lo: nat, m: nat,
                  hi: nat)
    requires PartsG(s, argv, rs, lo, m) && m <= |s| && IsWord(s, v) && v.a == Skip(s, m)
    requires RedirsG(s, qs, Skip(s, v.b), hi)
    ensures PartsG(s, argv + [v], rs + qs, lo, hi)
  {
    var all, rest := argv + [v], rs + qs;
    assert all[..|all| - 1] == argv && all[|all| - 1] == v;
    hide IsWord, Skip, RedirsG;
    assert rest == rs + qs && PartsG(s, argv, rs, lo, m) && v.a == Skip(s, m) && RedirsG(s, qs, Skip(s, v.b), hi);
  }

  /** Every part ends before something that is not white space. */
  lemma {:induction false} RedirsEnd(s: string, rs: seq<Redirection>, lo: nat, hi: nat)
    requires RedirsG(s, rs, lo, hi)
    ensures hi <= |s| && Skip(s, hi) == hi
  {
    SkipTo(s, hi, hi);
  }

  lemma PartsIs(s: string, argv: seq<Span>, rs: seq<Redirection>, lo: nat, hi: nat)
    requires PartsG(s, argv, rs, lo, hi) && |argv| < MAXARGS
    ensures ExecG(s, Wrap(Exec(argv), rs), lo, hi)
  {
    hide Wrap, PartsG;
  }

  lemma BlockIs(s: string, d: Cmd, rs: seq<Redirection>, lo: nat, begin: nat, mid: nat, after: nat, hi: nat)
    requires lo < begin <= |s| && Sym(s, lo, '(', begin) && LineG(s, d, begin, mid)
    requires Sym(s, mid, ')', after) && RedirsG(s, rs, after, hi)
    ensures ExecG(s, Wrap(d, rs), lo, hi)
  {
    hide Wrap, Sym, LineG, RedirsG;
  }

  lemma PipeIs(s: string, l: Cmd, r: Cmd, lo: nat, m: nat, next: nat, hi: nat)
    requires lo <= next && ExecG(s, l, lo, m) && Sym(s, m, '|', next) && PipeG(s, r, next, hi)
    ensures PipeG(s, Pipe(l, r), lo, hi)
  {
    hide Sym, ExecG;
  }

  lemma BackIs(s: string, c: Cmd, lo: nat, m: nat, hi: nat)
    requires BackG(s, c, lo, m) && Sym(s, m, '&', hi)
    ensures BackG(s, Back(c), lo, hi)
  {
    hide Sym, PipeG;
  }

  lemma ListIs(s: string, l: Cmd, r: Cmd, lo: nat, m: nat, next: nat, hi: nat)
    requires lo <= next && BackG(s, l, lo, m) && Sym(s, m, ';', next) && LineG(s, r, next, hi)
    ensures LineG(s, List(l, r), lo, hi)
  {
    hide Sym, BackG;
  }

  /** White space before a command does not matter. */
  lemma ExecFrom(s: string, c: Cmd, lo: nat, hi: nat)
    requires lo <= |s| && ExecG(s, c, Skip(s, lo), hi)
    ensures ExecG(s, c, lo, hi)
  {
    var p := Skip(s, lo);
    SkipTo(s, p, p);
    if argv: seq<Span>, rs: seq<Redirection> :|
       c == Wrap(Exec(argv), rs) && |argv| < MAXARGS && PartsG(s, argv, rs, p, hi) {
      PartsStart(s, argv, rs, lo, hi);
      PartsIs(s, argv, rs, lo, hi);
    } else {
      var d: Cmd, rs: seq<Redirection>, begin: nat, mid: nat, after: nat :|
        c == Wrap(d, rs) && p < begin <= |s| && Sym(s, p, '(', begin) && LineG(s, d, begin, mid)
        && Sym(s, mid, ')', after) && RedirsG(s, rs, after, hi);
      BlockIs(s, d, rs, lo, begin, mid, after, hi);
    }
  }

  lemma {:induction false} PartsStart(s: string, argv: seq<Span>, rs: seq<Redirection>, lo: nat, hi: nat)
    requires lo <= |s| && PartsG(s, argv, rs, Skip(s, lo), hi)
    ensures PartsG(s, argv, rs, lo, hi)
  {
    if argv == [] {
      RedirsFrom(s, rs, lo, hi);
    } else {
      var front, last := argv[..|argv| - 1], argv[|argv| - 1];
      var m: nat, before: seq<Redirection>, after: seq<Redirection> :|
        rs == before + after && PartsG(s, front, before, Skip(s, lo), m)
        && m <= |s| && last.a == Skip(s, m) && RedirsG(s, after, Skip(s, last.b), hi);
      PartsStart(s, front, before, lo, m);
    }
  }
}
