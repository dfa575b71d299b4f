/** The grammar has one reading: a derivation that ends where its follower begins is the one the
    parser finds, going from left to right and taking as much as it can. */
module ShellUnique {
  import opened ShellWords
  import opened ShellGrammar

  datatype Failure = MissingFile | NoBlock | MissingParen | Syntax | TooManyArgs | Leftovers

  /** A panic, or a command and the cursor after it. */
  datatype Parsed = Bad(why: Failure) | Good(cmd: Cmd, end: nat)

  /** The line is over, or what comes next is one of these. */
  predicate Ends(s: string, hi: nat, stops: string) {
    hi == |s| || (hi < |s| && s[hi] in stops)
  }

  predicate Next(s: string, i: nat, c: char) {
    i < |s| && s[i] == c
  }

  predicate AtRedir(s: string, i: nat) {
    Next(s, i, '<') || Next(s, i, '>')
  }

  /** All derivations of redirections from lo on that are not followed by another one. */
  ghost predicate OnlyRedirs(s: string, lo: nat, ok: bool, rs: seq<Redirection>, end: nat) {
    forall rs', hi :: RedirsG(s, rs', lo, hi) && !AtRedir(s, hi) ==> ok && rs' == rs && hi == end
  }

  ghost predicate OnlyExec(s: string, lo: nat, r: Parsed) {
    forall c, hi :: ExecG(s, c, lo, hi) && Ends(s, hi, "|)&;") ==> r == Good(c, hi)
  }

  ghost predicate OnlyPipe(s: string, lo: nat, r: Parsed) {
    forall c, hi :: PipeG(s, c, lo, hi) && Ends(s, hi, ")&;") ==> r == Good(c, hi)
  }

  ghost predicate OnlyBack(s: string, lo: nat, r: Parsed) {
    forall c, hi :: BackG(s, c, lo, hi) && Ends(s, hi, ");") ==> r == Good(c, hi)
  }

  ghost predicate OnlyLine(s: string, lo: nat, r: Parsed) {
    forall c, hi :: LineG(s, c, lo, hi) && Ends(s, hi, ")") ==> r == Good(c, hi)
  }

  lemma SkipAgain(s: string, i: nat)
    requires i <= |s|
    ensures Skip(s, Skip(s, i)) == Skip(s, i)
  {
    SkipTo(s, Skip(s, i), Skip(s, i));
  }

  lemma SymAt(s: string, m: nat, c: char, next: nat)
    requires Sym(s, m, c, next) && c != '\0'
    ensures Next(s, Skip(s, m), c) && next <= |s| && Skip(s, next) == next
  {
    SkipAgain(s, Skip(s, m) + 1);
  }

  lemma WordFixed(s: string, v: Span, w: Span)
    requires IsWord(s, v) && IsWord(s, w) && v.a == w.a
    ensures v == w
  {
    if v != w {
      WordsApart(s, v, w);
    }
  }

  lemma RedirFixed(s: string, q: Redirection, r: Redirection, lo: nat, h: nat, h': nat)
    requires RedirG(s, q, lo, h) && RedirG(s, r, lo, h') && IsWord(s, q.file) && IsWord(s, r.file)
    ensures q == r && h == h'
  {
    WordFixed(s, q.file, r.file);
  }

  /** Redirection r stands at position at. */
  ghost predicate RedirAt(s: string, r: Redirection, at: nat) {
    IsWord(s, r.file) && exists m: nat :: RedirG(s, r, at, m)
  }

  lemma LastRedir(s: string, rs: seq<Redirection>, lo: nat, hi: nat)
    returns (front: seq<Redirection>, last: Redirection, m: nat)
    requires RedirsG(s, rs, lo, hi) && rs != []
    ensures rs == front + [last] && RedirsG(s, front, lo, m) && RedirG(s, last, m, hi) && IsWord(s, last.file)
    ensures AtRedir(s, m) && RedirAt(s, last, m)
  {
    hide RedirG, IsWord, AtRedir, Skip;
    front, last := rs[..|rs| - 1], rs[|rs| - 1];
    m :| RedirsG(s, front, lo, m) && RedirG(s, last, m, hi);
    RedirsEnd(s, front, lo, m);
    OperatorAt(s, last, m, hi);
  }

  lemma OperatorAt(s: string, r: Redirection, at: nat, hi: nat)
    requires RedirG(s, r, at, hi) && Skip(s, at) == at
    ensures AtRedir(s, at)
  {
    hide Skip;
  }

  /** Of two sequences of redirections from the same place one begins with the other. */
  lemma {:induction false} RedirsFixed(s: string, a: seq<Redirection>, b: seq<Redirection>, lo: nat, h: nat, h': nat)
    requires RedirsG(s, a, lo, h) && RedirsG(s, b, lo, h') && |a| <= |b|
    ensures |a| == |b| ==> a == b && h == h'
    ensures |a| < |b| ==> AtRedir(s, h) && RedirAt(s, b[|a|], h)
    decreases |b|
  {
    if b != [] {
      var front, last, m := LastRedir(s, b, lo, h');
      hide RedirsG, RedirG, IsWord, AtRedir, RedirAt;
      if |a| < |b| {
        RedirsFixed(s, a, front, lo, h, m);
      } else {
        var front', last', m' := LastRedir(s, a, lo, h);
        RedirsFixed(s, front', front, lo, m', m);
        RedirFixed(s, last', last, m, h, h');
      }
    }
  }

  /** There is one maximal sequence at the most. */
  lemma RedirsUnique(s: string, a: seq<Redirection>, b: seq<Redirection>, lo: nat, h: nat, h': nat)
    requires RedirsG(s, a, lo, h) && RedirsG(s, b, lo, h') && !AtRedir(s, h) && !AtRedir(s, h')
    ensures a == b && h == h'
  {
    if |a| <= |b| {
      RedirsFixed(s, a, b, lo, h, h');
    } else {
      RedirsFixed(s, b, a, lo, h', h);
    }
  }

  lemma RedirsFound(s: string, rs: seq<Redirection>, lo: nat, end: nat)
    requires RedirsG(s, rs, lo, end) && !AtRedir(s, end)
    ensures OnlyRedirs(s, lo, true, rs, end)
  {
    forall rs', hi | RedirsG(s, rs', lo, hi) && !AtRedir(s, hi)
      ensures rs' == rs && hi == end
    {
      RedirsUnique(s, rs', rs, lo, hi, end);
    }
  }

  /** An operator without a file. */
  ghost predicate NoRedir(s: string, at: nat) {
    forall r :: !RedirAt(s, r, at)
  }

  lemma RedirsStuck(s: string, rs: seq<Redirection>, lo: nat, at: nat, rs0: seq<Redirection>, end0: nat)
    requires RedirsG(s, rs, lo, at) && AtRedir(s, at) && NoRedir(s, at)
    ensures OnlyRedirs(s, lo, false, rs0, end0)
  {
    forall rs', hi | RedirsG(s, rs', lo, hi) && !AtRedir(s, hi)
      ensures false
    {
      if |rs| <= |rs'| {
        RedirsFixed(s, rs, rs', lo, at, hi);
      } else {
        RedirsFixed(s, rs', rs, lo, hi, at);
      }
    }
  }

  lemma {:induction false} PartsStop(s: string, argv: seq<Span>, rs: seq<Redirection>, lo: nat, hi: nat)
    requires PartsG(s, argv, rs, lo, hi)
    ensures hi <= |s| && Skip(s, hi) == hi
  {
    if argv == [] {
      RedirsEnd(s, rs, lo, hi);
    } else {
      hide Skip, RedirsG, IsWord;
      var front, last := argv[..|argv| - 1], argv[|argv| - 1];
      var m: nat, before: seq<Redirection>, after: seq<Redirection> :|
        rs == before + after && PartsG(s, front, before, lo, m)
        && m <= |s| && last.a == Skip(s, m) && RedirsG(s, after, Skip(s, last.b), hi);
      RedirsEnd(s, after, Skip(s, last.b), hi);
    }
  }

  /** Word v stands at position at. */
  ghost predicate WordAt(s: string, v: Span, at: nat) {
    IsWord(s, v) && v.a == at
  }

  lemma WordNotStop(s: string, v: Span, at: nat, stops: string)
    requires WordAt(s, v, at) && forall c :: c in stops ==> Symbol(c)
    ensures !AtRedir(s, at) && !Ends(s, at, stops)
  {
  }

  lemma LastWord(s: string, argv: seq<Span>, rs: seq<Redirection>, lo: nat, hi: nat)
    returns (front: seq<Span>, last: Span, before: seq<Redirection>, after: seq<Redirection>, m: nat)
    requires PartsG(s, argv, rs, lo, hi) && argv != []
    ensures argv == front + [last] && rs == before + after && PartsG(s, front, before, lo, m)
    ensures WordAt(s, last, m) && !AtRedir(s, m) && RedirsG(s, after, Skip(s, last.b), hi)
  {
    hide Skip, RedirsG, IsWord, AtRedir;
    front, last := argv[..|argv| - 1], argv[|argv| - 1];
    m, before, after :|
      rs == before + after && PartsG(s, front, before, lo, m)
      && m <= |s| && last.a == Skip(s, m) && RedirsG(s, after, Skip(s, last.b), hi);
    PartsStop(s, front, before, lo, m);
    WordNotStop(s, last, m, "");
  }

  lemma JustRedirs(s: string, rs: seq<Redirection>, lo: nat, hi: nat)
    requires PartsG(s, [], rs, lo, hi)
    ensures RedirsG(s, rs, lo, hi)
  {
    hide RedirsG;
  }

  /** Of two commands from the same place one begins with the other. */
  lemma {:induction false} PartsFixed(s: string, a: seq<Span>, ra: seq<Redirection>, b: seq<Span>, rb: seq<Redirection>,
                                      lo: nat, h: nat, h': nat)
    requires PartsG(s, a, ra, lo, h) && PartsG(s, b, rb, lo, h') && |a| <= |b| && !AtRedir(s, h) && !AtRedir(s, h')
    ensures |a| == |b| ==> a == b && ra == rb && h == h'
    ensures |a| < |b| ==> a == b[..|a|] && WordAt(s, b[|a|], h)
    decreases |b|
  {
    hide PartsG, RedirsG, AtRedir, Skip;
    if b == [] {
      JustRedirs(s, ra, lo, h);
      JustRedirs(s, rb, lo, h');
      RedirsUnique(s, ra, rb, lo, h, h');
    } else {
      var front, last, before, after, m := LastWord(s, b, rb, lo, h');
      if |a| < |b| {
        PartsFixed(s, a, ra, front, before, lo, h, m);
      } else {
        var front', last', before', after', m' := LastWord(s, a, ra, lo, h);
        PartsFixed(s, front', before', front, before, lo, m', m);
        WordFixed(s, last', last);
        RedirsUnique(s, after', after, Skip(s, last.b), h, h');
      }
    }
  }

  /** The redirections after the first k words. */
  lemma {:induction false} PartsPrefix(s: string, argv: seq<Span>, rs: seq<Redirection>, lo: nat, hi: nat, k: nat)
    returns (rk: seq<Redirection>, h: nat)
    requires PartsG(s, argv, rs, lo, hi) && k <= |argv| && !AtRedir(s, hi)
    ensures PartsG(s, argv[..k], rk, lo, h) && !AtRedir(s, h)
    decreases |argv|
  {
    if k == |argv| {
      assert argv[..k] == argv;
      rk, h := rs, hi;
    } else {
      var front, last, before, after, m := LastWord(s, argv, rs, lo, hi);
      assert argv[..k] == front[..k];
      rk, h := PartsPrefix(s, front, before, lo, m, k);
    }
  }

  /** Derivations of a simple command within bounds, and before a follower. */
  ghost predicate Simple(s: string, argv: seq<Span>, rs: seq<Redirection>, lo: nat, hi: nat) {
    PartsG(s, argv, rs, lo, hi) && |argv| < MAXARGS && Ends(s, hi, "|)&;")
  }

  ghost predicate NoSimple(s: string, lo: nat) {
    forall argv, rs, hi :: !Simple(s, argv, rs, lo, hi)
  }

  lemma EndsNoRedir(s: string, hi: nat)
    requires Ends(s, hi, "|)&;")
    ensures !AtRedir(s, hi)
  {
  }

  /** At a word the command goes on. */
  lemma SimpleGoesOn(s: string, argv: seq<Span>, rs: seq<Redirection>, lo: nat, at: nat, v: Span,
                     b: seq<Span>, rb: seq<Redirection>, hi: nat)
    requires PartsG(s, argv, rs, lo, at) && WordAt(s, v, at) && Simple(s, b, rb, lo, hi)
    ensures |argv| < |b| && b[..|argv| + 1] == argv + [v]
  {
    hide PartsG, AtRedir, Ends;
    WordNotStop(s, v, at, "|)&;");
    EndsNoRedir(s, hi);
    if |b| <= |argv| {
      PartsFixed(s, b, rb, argv, rs, lo, hi, at);
      if |b| < |argv| {
        WordNotStop(s, argv[|b|], hi, "|)&;");
      }
    } else {
      PartsFixed(s, argv, rs, b, rb, lo, at, hi);
      WordFixed(s, v, b[|argv|]);
    }
  }

  lemma TooMany(s: string, argv: seq<Span>, rs: seq<Redirection>, lo: nat, at: nat, v: Span)
    requires PartsG(s, argv, rs, lo, at) && WordAt(s, v, at) && |argv| + 1 >= MAXARGS
    ensures NoSimple(s, lo)
  {
    forall b, rb, hi | Simple(s, b, rb, lo, hi)
      ensures false
    {
      SimpleGoesOn(s, argv, rs, lo, at, v, b, rb, hi);
    }
  }

  /** The redirections after a word lack a file. */
  lemma WordStuck(s: string, argv: seq<Span>, rs: seq<Redirection>, lo: nat, at: nat, v: Span, qs: seq<Redirection>,
                  end: nat)
    requires PartsG(s, argv, rs, lo, at) && WordAt(s, v, at) && OnlyRedirs(s, Skip(s, v.b), false, qs, end)
    ensures NoSimple(s, lo)
  {
    forall b, rb, hi | Simple(s, b, rb, lo, hi)
      ensures false
    {
      SimpleGoesOn(s, argv, rs, lo, at, v, b, rb, hi);
      EndsNoRedir(s, hi);
      var rk, h := PartsPrefix(s, b, rb, lo, hi, |argv| + 1);
      var front, last, before, after, m := LastWord(s, argv + [v], rk, lo, h);
    }
  }

  lemma FirstStuck(s: string, lo: nat, qs: seq<Redirection>, end: nat)
    requires OnlyRedirs(s, lo, false, qs, end)
    ensures NoSimple(s, lo)
  {
    forall b, rb, hi | Simple(s, b, rb, lo, hi)
      ensures false
    {
      EndsNoRedir(s, hi);
      var rk, h := PartsPrefix(s, b, rb, lo, hi, 0);
    }
  }

  /** Something that is neither a word nor a follower. */
  lemma TokenStuck(s: string, argv: seq<Span>, rs: seq<Redirection>, lo: nat, at: nat)
    requires PartsG(s, argv, rs, lo, at) && !AtRedir(s, at) && !Ends(s, at, "|)&;") && !(at < |s| && WordChar(s[at]))
    ensures NoSimple(s, lo)
  {
    forall b, rb, hi | Simple(s, b, rb, lo, hi)
      ensures false
    {
      EndsNoRedir(s, hi);
      OneReading(s, argv, rs, lo, at, b, rb, hi);
    }
  }

  lemma OneReading(s: string, argv: seq<Span>, rs: seq<Redirection>, lo: nat, at: nat, b: seq<Span>,
                   rb: seq<Redirection>, hi: nat)
    requires PartsG(s, argv, rs, lo, at) && !AtRedir(s, at) && !(at < |s| && WordChar(s[at]))
    requires Simple(s, b, rb, lo, hi)
    ensures argv == b && rs == rb && at == hi
  {
    hide PartsG, AtRedir, Ends;
    EndsNoRedir(s, hi);
    if |b| <= |argv| {
      PartsFixed(s, b, rb, argv, rs, lo, hi, at);
      if |b| < |argv| {
        WordNotStop(s, argv[|b|], hi, "|)&;");
      }
    } else {
      PartsFixed(s, argv, rs, b, rb, lo, at, hi);
    }
  }

  /** Before an opening parenthesis a simple command is empty. */
  lemma {:induction false} RedirsAtParen(s: string, rs: seq<Redirection>, lo: nat, hi: nat)
    requires RedirsG(s, rs, lo, hi) && Next(s, Skip(s, lo), '(')
    ensures hi == Skip(s, lo)
    decreases |rs|
  {
    if rs != [] {
      var front, last, m := LastRedir(s, rs, lo, hi);
      RedirsAtParen(s, front, lo, m);
    }
  }

  lemma {:induction false} PartsAtParen(s: string, argv: seq<Span>, rs: seq<Redirection>, lo: nat, hi: nat)
    requires PartsG(s, argv, rs, lo, hi) && Next(s, Skip(s, lo), '(')
    ensures hi == Skip(s, lo)
    decreases |argv|
  {
    if argv == [] {
      RedirsAtParen(s, rs, lo, hi);
    } else {
      var front, last, before, after, m := LastWord(s, argv, rs, lo, hi);
      PartsAtParen(s, front, before, lo, m);
    }
  }

  /** A command that is no block. */
  lemma OnlySimple(s: string, lo: nat, r: Parsed)
    requires lo <= |s| && !Next(s, Skip(s, lo), '(')
    requires forall argv, rs, hi :: Simple(s, argv, rs, lo, hi) ==> r == Good(Wrap(Exec(argv), rs), hi)
    ensures OnlyExec(s, lo, r)
  {
    hide Wrap, PartsG, Ends, LineG, RedirsG;
    forall c, hi | ExecG(s, c, lo, hi) && Ends(s, hi, "|)&;")
      ensures r == Good(c, hi)
    {
      if argv: seq<Span>, rs: seq<Redirection> :|
         c == Wrap(Exec(argv), rs) && |argv| < MAXARGS && PartsG(s, argv, rs, lo, hi) {
        assert Simple(s, argv, rs, lo, hi);
      } else {
        var begin: nat :| Sym(s, lo, '(', begin);
        SymAt(s, lo, '(', begin);
      }
    }
  }

  lemma SimpleFound(s: string, lo: nat, argv: seq<Span>, rs: seq<Redirection>, at: nat)
    requires lo <= |s| && !Next(s, Skip(s, lo), '(')
    requires PartsG(s, argv, rs, lo, at) && Ends(s, at, "|)&;")
    ensures OnlyExec(s, lo, Good(Wrap(Exec(argv), rs), at))
  {
    hide Wrap, PartsG;
    forall b, rb, hi | Simple(s, b, rb, lo, hi)
      ensures b == argv && rb == rs && hi == at
    {
      OneReading(s, argv, rs, lo, at, b, rb, hi);
    }
    OnlySimple(s, lo, Good(Wrap(Exec(argv), rs), at));
  }

  lemma SimpleFails(s: string, lo: nat, why: Failure)
    requires lo <= |s| && !Next(s, Skip(s, lo), '(') && NoSimple(s, lo)
    ensures OnlyExec(s, lo, Bad(why))
  {
    hide Wrap, Simple;
    OnlySimple(s, lo, Bad(why));
  }

  /** A command at an opening parenthesis is a block. */
  lemma BlockOf(s: string, c: Cmd, lo: nat, hi: nat, begin: nat)
    returns (d: Cmd, rs: seq<Redirection>, mid: nat, after: nat)
    requires ExecG(s, c, lo, hi) && Ends(s, hi, "|)&;") && Sym(s, lo, '(', begin)
    ensures c == Wrap(d, rs) && LineG(s, d, begin, mid) && Sym(s, mid, ')', after) && RedirsG(s, rs, after, hi)
  {
    hide Wrap, PartsG, LineG, RedirsG;
    SymAt(s, lo, '(', begin);
    if argv: seq<Span>, rs: seq<Redirection> :|
       c == Wrap(Exec(argv), rs) && |argv| < MAXARGS && PartsG(s, argv, rs, lo, hi) {
      PartsAtParen(s, argv, rs, lo, hi);
      assert false;
    } else {
      var begin': nat;
      d, rs, begin', mid, after :|
        c == Wrap(d, rs) && lo < begin' <= |s| && Sym(s, lo, '(', begin') && LineG(s, d, begin', mid)
        && Sym(s, mid, ')', after) && RedirsG(s, rs, after, hi);
    }
  }

  lemma ExecStop(s: string, c: Cmd, lo: nat, hi: nat)
    requires ExecG(s, c, lo, hi)
    ensures hi <= |s| && Skip(s, hi) == hi
  {
    hide Wrap, PartsG, LineG, RedirsG, Sym, Skip;
    if argv: seq<Span>, rs: seq<Redirection> :|
       c == Wrap(Exec(argv), rs) && |argv| < MAXARGS && PartsG(s, argv, rs, lo, hi) {
      PartsStop(s, argv, rs, lo, hi);
    } else {
      var d: Cmd, rs: seq<Redirection>, begin: nat, mid: nat, after: nat :|
        c == Wrap(d, rs) && lo < begin <= |s| && Sym(s, lo, '(', begin) && LineG(s, d, begin, mid)
        && Sym(s, mid, ')', after) && RedirsG(s, rs, after, hi);
      RedirsEnd(s, rs, after, hi);
    }
  }

  lemma {:induction false} PipeStop(s: string, c: Cmd, lo: nat, hi: nat)
    requires PipeG(s, c, lo, hi)
    ensures hi <= |s| && Skip(s, hi) == hi
    decreases c
  {
    hide ExecG, Sym, Skip;
    if ExecG(s, c, lo, hi) {
      ExecStop(s, c, lo, hi);
    } else {
      var m: nat, next: nat :|
        lo <= next && ExecG(s, c.left, lo, m) && Sym(s, m, '|', next) && PipeG(s, c.right, next, hi);
      PipeStop(s, c.right, next, hi);
    }
  }

  lemma BackStop(s: string, c: Cmd, lo: nat, hi: nat)
    requires BackG(s, c, lo, hi)
    ensures hi <= |s| && Skip(s, hi) == hi
  {
    hide PipeG, Sym, Skip;
    if PipeG(s, c, lo, hi) {
      PipeStop(s, c, lo, hi);
    } else {
      var m: nat :| BackG(s, c.cmd, lo, m) && Sym(s, m, '&', hi);
      SymAt(s, m, '&', hi);
    }
  }

  lemma {:induction false} LineStop(s: string, c: Cmd, lo: nat, hi: nat)
    requires LineG(s, c, lo, hi)
    ensures hi <= |s| && Skip(s, hi) == hi
    decreases c
  {
    hide BackG, Sym, Skip;
    if BackG(s, c, lo, hi) {
      BackStop(s, c, lo, hi);
    } else {
      var m: nat, next: nat :|
        lo <= next && BackG(s, c.left, lo, m) && Sym(s, m, ';', next) && LineG(s, c.right, next, hi);
      LineStop(s, c.right, next, hi);
    }
  }

  /** The line of a block ends at its closing parenthesis. */
  lemma BlockLine(s: string, c: Cmd, lo: nat, hi: nat, begin: nat, line: Parsed)
    returns (d: Cmd, rs: seq<Redirection>, mid: nat, after: nat)
    requires ExecG(s, c, lo, hi) && Ends(s, hi, "|)&;") && Sym(s, lo, '(', begin) && OnlyLine(s, begin, line)
    ensures c == Wrap(d, rs) && line == Good(d, mid) && Next(s, mid, ')') && Sym(s, mid, ')', after)
    ensures RedirsG(s, rs, after, hi)
  {
    d, rs, mid, after := BlockOf(s, c, lo, hi, begin);
    hide LineG, ExecG, RedirsG, Wrap;
    LineStop(s, d, begin, mid);
    SymAt(s, mid, ')', after);
    assert Ends(s, mid, ")");
  }

  lemma BlockFails(s: string, lo: nat, begin: nat, line: Parsed, why: Failure)
    requires Sym(s, lo, '(', begin) && OnlyLine(s, begin, line) && (line.Bad? || !Next(s, line.end, ')'))
    ensures OnlyExec(s, lo, Bad(why))
  {
    hide ExecG, Sym, OnlyLine;
    forall c, hi | ExecG(s, c, lo, hi) && Ends(s, hi, "|)&;")
      ensures false
    {
      var d, rs, mid, after := BlockLine(s, c, lo, hi, begin, line);
    }
  }

  lemma BlockEnds(s: string, lo: nat, begin: nat, line: Parsed, after: nat, ok: bool, rs: seq<Redirection>, end: nat,
                  r: Parsed)
    requires Sym(s, lo, '(', begin) && OnlyLine(s, begin, line) && line.Good? && Sym(s, line.end, ')', after)
    requires OnlyRedirs(s, after, ok, rs, end) && r == if ok then Good(Wrap(line.cmd, rs), end) else Bad(MissingFile)
    ensures OnlyExec(s, lo, r)
  {
    hide ExecG, OnlyLine, RedirsG, Wrap, Ends, AtRedir;
    forall c, hi | ExecG(s, c, lo, hi) && Ends(s, hi, "|)&;")
      ensures r == Good(c, hi)
    {
      var d, rs', mid, after' := BlockLine(s, c, lo, hi, begin, line);
      EndsNoRedir(s, hi);
    }
  }

  lemma {:induction false} RedirsTo(s: string, rs: seq<Redirection>, lo: nat, hi: nat)
    requires lo <= |s| && RedirsG(s, rs, lo, hi)
    ensures RedirsG(s, rs, Skip(s, lo), hi)
    decreases |rs|
  {
    SkipAgain(s, lo);
    if rs != [] {
      var front, last, m := LastRedir(s, rs, lo, hi);
      RedirsTo(s, front, lo, m);
      RedirsSnoc(s, front, last, Skip(s, lo), m, hi);
    }
  }

  lemma OnlyRedirsFrom(s: string, lo: nat, ok: bool, rs: seq<Redirection>, end: nat)
    requires lo <= |s| && OnlyRedirs(s, Skip(s, lo), ok, rs, end)
    ensures OnlyRedirs(s, lo, ok, rs, end)
  {
    forall rs', hi | RedirsG(s, rs', lo, hi) && !AtRedir(s, hi)
      ensures ok && rs' == rs && hi == end
    {
      RedirsTo(s, rs', lo, hi);
    }
  }

  /** White space before a block does not matter. */
  lemma OnlyBlockFrom(s: string, lo: nat, r: Parsed)
    requires lo <= |s| && Next(s, Skip(s, lo), '(') && OnlyExec(s, Skip(s, lo), r)
    ensures OnlyExec(s, lo, r)
  {
    hide Wrap, PartsG, LineG, RedirsG;
    SkipAgain(s, lo);
    forall c, hi | ExecG(s, c, lo, hi) && Ends(s, hi, "|)&;")
      ensures r == Good(c, hi)
    {
      var begin := Skip(s, Skip(s, lo) + 1);
      var d, rs, mid, after := BlockOf(s, c, lo, hi, begin);
      BlockIs(s, d, rs, Skip(s, lo), begin, mid, after, hi);
    }
  }

  lemma SymEnds(s: string, m: nat, c: char, next: nat, stops: string)
    requires Sym(s, m, c, next) && Skip(s, m) == m && c != '\0' && c in stops
    ensures Ends(s, m, stops) && Next(s, m, c)
  {
  }

  lemma NotBoth(s: string, hi: nat, c: char, stops: string)
    requires c !in stops && c != '\0'
    ensures Next(s, hi, c) ==> !Ends(s, hi, stops)
  {
  }

  lemma EndsWider(s: string, hi: nat, few: string, many: string)
    requires Ends(s, hi, few) && forall c :: c in few ==> c in many
    ensures Ends(s, hi, many)
  {
  }

  /** A command without a bar after it is the whole pipeline. */
  lemma PipeSingle(s: string, lo: nat, first: Parsed)
    requires OnlyExec(s, lo, first) && (first.Good? ==> !Next(s, first.end, '|'))
    ensures OnlyPipe(s, lo, first)
  {
    hide ExecG, Sym, Skip;
    forall c, hi | PipeG(s, c, lo, hi) && Ends(s, hi, ")&;")
      ensures first == Good(c, hi)
    {
      if ExecG(s, c, lo, hi) {
        EndsWider(s, hi, ")&;", "|)&;");
      } else {
        var m: nat, next: nat :|
          lo <= next && ExecG(s, c.left, lo, m) && Sym(s, m, '|', next) && PipeG(s, c.right, next, hi);
        ExecStop(s, c.left, lo, m);
        SymEnds(s, m, '|', next, "|)&;");
        assert false;
      }
    }
  }

  lemma PipeSplit(s: string, c: Cmd, lo: nat, hi: nat) returns (m: nat, next: nat)
    requires PipeG(s, c, lo, hi) && !ExecG(s, c, lo, hi)
    ensures c.Pipe? && ExecG(s, c.left, lo, m) && Sym(s, m, '|', next) && PipeG(s, c.right, next, hi)
  {
    hide ExecG, Sym;
    m, next :| lo <= next && ExecG(s, c.left, lo, m) && Sym(s, m, '|', next) && PipeG(s, c.right, next, hi);
  }

  lemma PipeMore(s: string, lo: nat, first: Parsed, next: nat, rest: Parsed, r: Parsed)
    requires OnlyExec(s, lo, first) && first.Good? && Next(s, first.end, '|') && Sym(s, first.end, '|', next)
    requires OnlyPipe(s, next, rest) && r == if rest.Good? then Good(Pipe(first.cmd, rest.cmd), rest.end) else rest
    ensures OnlyPipe(s, lo, r)
  {
    hide ExecG, PipeG, Skip, Ends, Next;
    forall c, hi | PipeG(s, c, lo, hi) && Ends(s, hi, ")&;")
      ensures r == Good(c, hi)
    {
      if ExecG(s, c, lo, hi) {
        EndsWider(s, hi, ")&;", "|)&;");
        NotBoth(s, hi, '|', ")&;");
        assert false;
      } else {
        var m, next' := PipeSplit(s, c, lo, hi);
        ExecStop(s, c.left, lo, m);
        SymEnds(s, m, '|', next', "|)&;");
      }
    }
  }

  /** From command c, up to end, some ampersands lead to c', up to hi. */
  ghost predicate Chain(s: string, c: Cmd, end: nat, c': Cmd, hi: nat)
    decreases c'
  {
    || (c == c' && end == hi)
    || (c'.Back? && exists m: nat :: Chain(s, c, end, c'.cmd, m) && Sym(s, m, '&', hi))
  }

  lemma {:induction false} ChainBegins(s: string, lo: nat, first: Parsed, c: Cmd, hi: nat)
    requires OnlyPipe(s, lo, first) && BackG(s, c, lo, hi) && Ends(s, hi, ")&;")
    ensures first.Good? && Chain(s, first.cmd, first.end, c, hi)
    decreases c
  {
    hide PipeG, Skip, Sym;
    if !PipeG(s, c, lo, hi) {
      var m: nat :| BackG(s, c.cmd, lo, m) && Sym(s, m, '&', hi);
      BackStop(s, c.cmd, lo, m);
      SymAt(s, m, '&', hi);
      ChainBegins(s, lo, first, c.cmd, m);
    }
  }

  lemma {:induction false} ChainStep(s: string, c: Cmd, end: nat, next: nat, c': Cmd, hi: nat)
    requires Chain(s, c, end, c', hi) && !(c == c' && end == hi) && Sym(s, end, '&', next)
    ensures Chain(s, Back(c), next, c', hi)
    decreases c'
  {
    var m: nat :| Chain(s, c, end, c'.cmd, m) && Sym(s, m, '&', hi);
    if !(c == c'.cmd && end == m) {
      ChainStep(s, c, end, next, c'.cmd, m);
    }
  }

  lemma {:induction false} ChainEnds(s: string, c: Cmd, end: nat, c': Cmd, hi: nat)
    requires Chain(s, c, end, c', hi) && Skip(s, end) == end && !Next(s, end, '&')
    ensures c == c' && end == hi
    decreases c'
  {
    if !(c == c' && end == hi) {
      var m: nat :| Chain(s, c, end, c'.cmd, m) && Sym(s, m, '&', hi);
      ChainEnds(s, c, end, c'.cmd, m);
      SymAt(s, m, '&', hi);
    }
  }

  /** Every pipeline with its ampersands goes on from c. */
  ghost predicate OnlyFrom(s: string, lo: nat, c: Cmd, end: nat) {
    forall c', hi :: BackG(s, c', lo, hi) && Ends(s, hi, ");") ==> Chain(s, c, end, c', hi)
  }

  lemma FromPipe(s: string, lo: nat, first: Parsed)
    requires OnlyPipe(s, lo, first)
    ensures first.Good? ==> OnlyFrom(s, lo, first.cmd, first.end)
    ensures first.Bad? ==> OnlyBack(s, lo, first)
  {
    hide BackG, OnlyPipe;
    forall c, hi | BackG(s, c, lo, hi) && Ends(s, hi, ");")
      ensures first.Good? && Chain(s, first.cmd, first.end, c, hi)
    {
      assert Ends(s, hi, ")&;");
      ChainBegins(s, lo, first, c, hi);
    }
  }

  lemma FromBack(s: string, lo: nat, c: Cmd, end: nat, next: nat)
    requires OnlyFrom(s, lo, c, end) && Next(s, end, '&') && Sym(s, end, '&', next)
    ensures OnlyFrom(s, lo, Back(c), next)
  {
    hide BackG, Sym;
    forall c', hi | BackG(s, c', lo, hi) && Ends(s, hi, ");")
      ensures Chain(s, Back(c), next, c', hi)
    {
      ChainStep(s, c, end, next, c', hi);
    }
  }

  lemma FromEnds(s: string, lo: nat, c: Cmd, end: nat)
    requires OnlyFrom(s, lo, c, end) && Skip(s, end) == end && !Next(s, end, '&')
    ensures OnlyBack(s, lo, Good(c, end))
  {
    hide BackG, Skip;
    forall c', hi | BackG(s, c', lo, hi) && Ends(s, hi, ");")
      ensures c' == c && hi == end
    {
      ChainEnds(s, c, end, c', hi);
    }
  }

  lemma LineSingle(s: string, lo: nat, first: Parsed)
    requires OnlyBack(s, lo, first) && (first.Good? ==> !Next(s, first.end, ';'))
    ensures OnlyLine(s, lo, first)
  {
    hide BackG, Sym, Skip;
    forall c, hi | LineG(s, c, lo, hi) && Ends(s, hi, ")")
      ensures first == Good(c, hi)
    {
      if BackG(s, c, lo, hi) {
        EndsWider(s, hi, ")", ");");
      } else {
        var m: nat, next: nat :|
          lo <= next && BackG(s, c.left, lo, m) && Sym(s, m, ';', next) && LineG(s, c.right, next, hi);
        BackStop(s, c.left, lo, m);
        SymEnds(s, m, ';', next, ");");
        assert false;
      }
    }
  }

  lemma LineSplit(s: string, c: Cmd, lo: nat, hi: nat) returns (m: nat, next: nat)
    requires LineG(s, c, lo, hi) && !BackG(s, c, lo, hi)
    ensures c.List? && BackG(s, c.left, lo, m) && Sym(s, m, ';', next) && LineG(s, c.right, next, hi)
  {
    hide BackG, Sym;
    m, next :| lo <= next && BackG(s, c.left, lo, m) && Sym(s, m, ';', next) && LineG(s, c.right, next, hi);
  }

  lemma LineMore(s: string, lo: nat, first: Parsed, next: nat, rest: Parsed, r: Parsed)
    requires OnlyBack(s, lo, first) && first.Good? && Next(s, first.end, ';') && Sym(s, first.end, ';', next)
    requires OnlyLine(s, next, rest) && r == if rest.Good? then Good(List(first.cmd, rest.cmd), rest.end) else rest
    ensures OnlyLine(s, lo, r)
  {
    hide BackG, LineG, Skip, Ends, Next;
    forall c, hi | LineG(s, c, lo, hi) && Ends(s, hi, ")")
      ensures r == Good(c, hi)
    {
      if BackG(s, c, lo, hi) {
        EndsWider(s, hi, ")", ");");
        NotBoth(s, hi, ';', ")");
        assert false;
      } else {
        var m, next' := LineSplit(s, c, lo, hi);
        BackStop(s, c.left, lo, m);
        SymEnds(s, m, ';', next', ");");
      }
    }
  }
}
