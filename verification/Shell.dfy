/** The shell's parser: a cursor moving over the line, and terminators put into it afterwards. */
module Shell {
  import opened ShellWords
  import opened ShellGrammar
  import opened ShellUnique

  /** Past white space. */
  method SkipSpace(s: string, ps: nat) returns (p: nat)
    requires ps <= |s|
    ensures p == Skip(s, ps)
  {
    p := ps;
    while p < |s| && Space(s[p])
      invariant ps <= p <= |s| && forall i :: ps <= i < p ==> Space(s[i])
    {
      p := p + 1;
    }
    SkipTo(s, ps, p);
  }

  /** The next token: its kind, where it begins and ends, and the cursor after it. A word is
      given whole, and there is no other word on the way. */
  method GetToken(s: string, ps: nat) returns (tok: char, q: nat, eq: nat, end: nat)
    requires ps <= |s| && Boundary(s, ps) && '\0' !in s
    ensures ps <= q <= eq <= end <= |s| && Boundary(s, end)
    ensures tok == '\0' <==> q == |s|
    ensures q == Skip(s, ps) && end == Skip(s, eq)
    ensures tok != '\0' && tok != 'a' ==> eq == if tok == '+' then q + 2 else q + 1
    ensures tok == 'a' <==> IsWord(s, Span(q, eq))
    ensures tok != '\0' ==> ps < end
    ensures tok != '\0' ==>
              tok == if WordChar(s[q]) then 'a' else if s[q] == '>' && At(s, q + 1) == '>' then '+' else s[q]
    ensures forall w: Span :: WordIn(s, w, ps, end) <==> tok == 'a' && w == Span(q, eq)
  {
    q := SkipSpace(s, ps);
    tok, eq := At(s, q), q;
    if tok == '\0' {
    } else if tok == '>' {
      eq := q + 1;
      if At(s, eq) == '>' {
        tok, eq := '+', eq + 1;
      }
    } else if Symbol(tok) {
      eq := q + 1;
    } else {
      tok := 'a';
      while eq < |s| && WordChar(s[eq])
        invariant q <= eq <= |s| && forall i :: q <= i < eq ==> WordChar(s[i])
      {
        eq := eq + 1;
      }
    }
    end := SkipSpace(s, eq);
    OneToken(s, ps, q, eq, end, tok == 'a');
  }

  /** Is the next character one of these? The cursor moves up to it. */
  method Peek(s: string, ps: nat, toks: string) returns (found: bool, end: nat)
    requires ps <= |s| && Boundary(s, ps) && '\0' !in s
    ensures end == Skip(s, ps) && Boundary(s, end) && (found <==> end < |s| && s[end] in toks)
    ensures forall w: Span :: !WordIn(s, w, ps, end)
  {
    end := SkipSpace(s, ps);
    OneToken(s, ps, end, end, end, false);
    found := end < |s| && s[end] in toks;
  }

  /** What every part of the parser promises: it stops before something that is not white space
      and not inside a word, and every word it came past occurs in the command exactly once. */
  ghost predicate ParsedFrom(s: string, c: Cmd, lo: nat, hi: nat) {
    lo <= hi <= |s| && Skip(s, hi) == hi && Boundary(s, hi) && Exact(s, c, lo, hi)
  }

  lemma ParsedEnd(s: string, c: Cmd, lo: nat, hi: nat)
    requires ParsedFrom(s, c, lo, hi)
    ensures lo <= hi <= |s| && Boundary(s, hi) && Skip(s, hi) == hi
  {
  }

  lemma ParsedOn(s: string, c: Cmd, lo: nat, mid: nat, hi: nat)
    requires ParsedFrom(s, c, lo, mid) && mid <= hi <= |s| && Skip(s, hi) == hi && Boundary(s, hi)
    requires NoWords(s, mid, hi)
    ensures ParsedFrom(s, c, lo, hi)
  {
    ExactExtend(s, c, lo, mid, hi);
  }

  lemma ParsedBack(s: string, c: Cmd, lo: nat, hi: nat)
    requires ParsedFrom(s, c, lo, hi)
    ensures ParsedFrom(s, Back(c), lo, hi)
  {
  }

  lemma ParsedPair(s: string, l: Cmd, r: Cmd, lo: nat, mid: nat, hi: nat)
    requires ParsedFrom(s, l, lo, mid) && ParsedFrom(s, r, mid, hi)
    ensures ParsedFrom(s, Pipe(l, r), lo, hi) && ParsedFrom(s, List(l, r), lo, hi)
  {
    ExactJoin(s, l, r, lo, mid, hi);
  }

  lemma ParsedAfter(s: string, c: Cmd, lo: nat, mid: nat, hi: nat)
    requires ParsedFrom(s, c, mid, hi) && lo <= mid && Boundary(s, mid) && NoWords(s, lo, mid)
    ensures ParsedFrom(s, c, lo, hi)
  {
    ExactPrefix(s, c, lo, mid, hi);
  }

  lemma ParsedWrap(s: string, c: Cmd, rs: seq<Redirection>, lo: nat, mid: nat, hi: nat)
    requires ParsedFrom(s, c, lo, mid) && mid <= hi <= |s| && Skip(s, hi) == hi && Boundary(s, hi)
    requires ExactRedirs(s, rs, mid, hi)
    ensures ParsedFrom(s, Wrap(c, rs), lo, hi)
  {
    WrapExact(s, c, rs, lo, mid, hi);
  }

  /** A symbol that peek has seen. */
  method TakeSymbol(s: string, p: nat, ghost c: char) returns (next: nat)
    requires p < |s| && Skip(s, p) == p && s[p] == c && Symbol(c) && c != '>' && Boundary(s, p) && '\0' !in s
    ensures p < next <= |s| && Skip(s, next) == next && Boundary(s, next) && Sym(s, p, c, next) && NoWords(s, p, next)
  {
    var tok, q, eq, end := GetToken(s, p);
    SkipTo(s, end, end);
    next := end;
  }

  /** The redirections at the cursor; false is the panic for want of a file. */
  method ParseRedirs(s: string, ps: nat) returns (ok: bool, rs: seq<Redirection>, end: nat)
    requires ps <= |s| && Boundary(s, ps) && '\0' !in s
    ensures ok ==> ps <= end <= |s| && Skip(s, end) == end && Boundary(s, end)
    ensures ok ==> ExactRedirs(s, rs, ps, end) && RedirsG(s, rs, ps, end) && !AtRedir(s, end)
    ensures OnlyRedirs(s, ps, ok, rs, end)
  {
    hide ExactRedirs, WordIn, Boundary, RedirsG, RedirG, Skip, OnlyRedirs, NoRedir;
    rs := [];
    var more;
    more, end := Peek(s, ps, "<>");
    RedirsBegin(s, ps, end);
    while more
      invariant ps <= end <= |s| && Skip(s, end) == end && Boundary(s, end)
      invariant ExactRedirs(s, rs, ps, end) && RedirsG(s, rs, ps, end)
      invariant more <==> AtRedir(s, end)
      decreases |s| - end
    {
      var r, next;
      ok, r, next := ParseRedir(s, end);
      if !ok {
        RedirsStuck(s, rs, ps, end, rs, end);
        return;
      }
      RedirNext(s, rs, r, ps, end, next);
      RedirsSnoc(s, rs, r, ps, end, next);
      rs := rs + [r];
      more, end := Peek(s, next, "<>");
    }
    RedirsFound(s, rs, ps, end);
    return true, rs, end;
  }

  lemma RedirsBegin(s: string, ps: nat, end: nat)
    requires ps <= |s| && Boundary(s, ps) && end == Skip(s, ps) && forall w: Span :: !WordIn(s, w, ps, end)
    ensures Skip(s, end) == end && ExactRedirs(s, [], ps, end) && RedirsG(s, [], ps, end)
  {
    OneToken(s, ps, ps, ps, ps, false);
    RedirsExtend(s, [], ps, ps, end);
    RedirsEnd(s, [], ps, end);
  }

  /** One redirection; the cursor is at its operator. */
  method ParseRedir(s: string, at: nat) returns (ok: bool, r: Redirection, next: nat)
    requires at < |s| && s[at] in "<>" && Skip(s, at) == at && Boundary(s, at) && '\0' !in s
    ensures ok ==> at < next <= |s| && Skip(s, next) == next && Boundary(s, next)
    ensures ok ==> RedirG(s, r, at, next) && IsWord(s, r.file)
    ensures ok ==> forall w: Span :: WordIn(s, w, at, next) <==> w == r.file
    ensures !ok ==> NoRedir(s, at)
  {
    hide WordIn, Boundary, Skip, IsWord;
    var tok, _, end, mid := GetToken(s, at);
    r, next := Redirection(Span(0, 0), 0, 0), at;
    SkipAgain(s, end);
    var tok', q, eq, after := GetToken(s, mid);
    if tok' != 'a' {
      NoFile(s, at, end, q);
      return false, r, next;
    }
    match tok {
      case '<' => r := Redirection(Span(q, eq), O_RDONLY, 0);
      case _ => r := Redirection(Span(q, eq), O_CREATE_WRONLY, 1);
    }
    SkipAgain(s, eq);
    next := after;
    forall w: Span
      ensures WordIn(s, w, at, next) <==> w == r.file
    {
      WordsSplit(s, w, at, mid, next);
    }
    return true, r, next;
  }

  /** There is no word where the file should be. */
  lemma NoFile(s: string, at: nat, end: nat, q: nat)
    requires at < |s| && s[at] in "<>" && Skip(s, at) == at && q == Skip(s, end) && !(q < |s| && WordChar(s[q]))
    requires end == if s[at] == '>' && At(s, at + 1) == '>' then at + 2 else at + 1
    ensures NoRedir(s, at)
  {
  }

  method ParseLine(s: string, ps: nat) returns (r: Parsed)
    requires ps <= |s| && Boundary(s, ps) && '\0' !in s
    ensures r.Good? ==> ParsedFrom(s, r.cmd, ps, r.end) && LineG(s, r.cmd, ps, r.end)
    ensures OnlyLine(s, ps, r)
    decreases |s| - ps, 3
  {
    hide ParsedFrom, Boundary, PipeG, LineG, BackG, Sym, Skip, OnlyPipe, OnlyFrom, OnlyBack, OnlyLine;
    r := ParsePipe(s, ps);
    FromPipe(s, ps, r);
    if r.Bad? {
      LineSingle(s, ps, r);
      return;
    }
    var c := r.cmd;
    ParsedEnd(s, c, ps, r.end);
    PipeIsBack(s, c, ps, r.end);
    var amp, end := Peek(s, r.end, "&");
    while amp
      invariant ps <= end <= |s| && Skip(s, end) == end && Boundary(s, end)
      invariant ParsedFrom(s, c, ps, end) && BackG(s, c, ps, end) && OnlyFrom(s, ps, c, end)
      invariant amp <==> Next(s, end, '&')
      decreases |s| - end
    {
      var next := TakeSymbol(s, end, '&');
      ParsedOn(s, c, ps, end, next);
      ParsedBack(s, c, ps, next);
      BackIs(s, c, ps, end, next);
      FromBack(s, ps, c, end, next);
      c := Back(c);
      amp, end := Peek(s, next, "&");
    }
    FromEnds(s, ps, c, end);
    var semi, end' := Peek(s, end, ";");
    if semi {
      var next := TakeSymbol(s, end', ';');
      ParsedOn(s, c, ps, end', next);
      var rest := ParseLine(s, next);
      r := rest;
      if rest.Good? {
        ParsedPair(s, c, rest.cmd, ps, next, rest.end);
        ListIs(s, c, rest.cmd, ps, end', next, rest.end);
        r := Good(List(c, rest.cmd), rest.end);
      }
      LineMore(s, ps, Good(c, end'), next, rest, r);
      return;
    }
    BackIsLine(s, c, ps, end');
    LineSingle(s, ps, Good(c, end'));
    return Good(c, end');
  }

  lemma PipeIsBack(s: string, c: Cmd, lo: nat, hi: nat)
    requires PipeG(s, c, lo, hi)
    ensures BackG(s, c, lo, hi)
  {
    hide PipeG;
  }

  lemma BackIsLine(s: string, c: Cmd, lo: nat, hi: nat)
    requires BackG(s, c, lo, hi)
    ensures LineG(s, c, lo, hi)
  {
    hide BackG;
  }

  lemma ExecIsPipe(s: string, c: Cmd, lo: nat, hi: nat)
    requires ExecG(s, c, lo, hi)
    ensures PipeG(s, c, lo, hi)
  {
    hide ExecG;
  }

  method ParsePipe(s: string, ps: nat) returns (r: Parsed)
    requires ps <= |s| && Boundary(s, ps) && '\0' !in s
    ensures r.Good? ==> ParsedFrom(s, r.cmd, ps, r.end) && PipeG(s, r.cmd, ps, r.end)
    ensures OnlyPipe(s, ps, r)
    decreases |s| - ps, 2
  {
    hide ParsedFrom, Boundary, PipeG, ExecG, Sym, Skip, OnlyExec, OnlyPipe;
    var first := ParseExec(s, ps);
    r := first;
    if r.Bad? {
      PipeSingle(s, ps, r);
      return;
    }
    var c := r.cmd;
    ParsedEnd(s, c, ps, r.end);
    var bar, end := Peek(s, r.end, "|");
    if bar {
      var next := TakeSymbol(s, end, '|');
      ParsedOn(s, c, ps, end, next);
      var rest := ParsePipe(s, next);
      r := rest;
      if rest.Good? {
        ParsedPair(s, c, rest.cmd, ps, next, rest.end);
        PipeIs(s, c, rest.cmd, ps, end, next, rest.end);
        r := Good(Pipe(c, rest.cmd), rest.end);
      }
      PipeMore(s, ps, first, next, rest, r);
      return;
    }
    ExecIsPipe(s, c, ps, end);
    PipeSingle(s, ps, first);
    return Good(c, end);
  }

  /** A line in parentheses; the cursor is at the first of them. */
  method ParseBlock(s: string, ps: nat) returns (r: Parsed)
    requires ps <= |s| && Boundary(s, ps) && '\0' !in s && Skip(s, ps) == ps
    ensures r.Good? ==> ParsedFrom(s, r.cmd, ps, r.end) && ExecG(s, r.cmd, ps, r.end)
    ensures if Next(s, ps, '(') then OnlyExec(s, ps, r) else r == Bad(NoBlock)
    decreases |s| - ps, 0
  {
    hide ParsedFrom, Boundary, ExactRedirs, LineG, ExecG, RedirsG, Sym, Skip, OnlyLine, OnlyExec, OnlyRedirs;
    var open, p := Peek(s, ps, "(");
    if !open {
      return Bad(NoBlock);
    }
    var begin := TakeSymbol(s, p, '(');
    var line := ParseLine(s, begin);
    r := line;
    if r.Bad? {
      BlockFails(s, ps, begin, line, r.why);
      return;
    }
    var c := r.cmd;
    ParsedEnd(s, c, begin, r.end);
    ParsedAfter(s, c, ps, begin, r.end);
    var close, mid := Peek(s, r.end, ")");
    if !close {
      BlockFails(s, ps, begin, line, MissingParen);
      return Bad(MissingParen);
    }
    var after := TakeSymbol(s, mid, ')');
    ParsedOn(s, c, ps, mid, after);
    var ok, rs, end := ParseRedirs(s, after);
    BlockEnds(s, ps, begin, line, after, ok, rs, end, if ok then Good(Wrap(c, rs), end) else Bad(MissingFile));
    if !ok {
      return Bad(MissingFile);
    }
    ParsedWrap(s, c, rs, ps, after, end);
    BlockIs(s, c, rs, ps, begin, mid, after, end);
    return Good(Wrap(c, rs), end);
  }

  /** The arguments and redirections of one command so far. */
  ghost predicate PartsFrom(s: string, argv: seq<Span>, rs: seq<Redirection>, lo: nat, hi: nat) {
    && lo <= hi <= |s| && Skip(s, hi) == hi && Boundary(s, hi)
    && ExactParts(s, argv, rs, lo, hi) && PartsG(s, argv, rs, lo, hi)
  }

  lemma PartsBegin(s: string, rs: seq<Redirection>, lo: nat, mid: nat, hi: nat)
    requires lo <= mid <= hi <= |s| && mid == Skip(s, lo) && Skip(s, hi) == hi && Boundary(s, mid)
    requires NoWords(s, lo, mid)
    requires Boundary(s, hi) && ExactRedirs(s, rs, mid, hi) && RedirsG(s, rs, mid, hi)
    ensures PartsFrom(s, [], rs, lo, hi)
  {
    assert ExactParts(s, [], [], lo, mid);
    PartsRedirs(s, [], [], rs, lo, mid, hi);
    assert [] + rs == rs;
    RedirsFrom(s, rs, lo, hi);
  }

  lemma PartsArg(s: string, argv: seq<Span>, rs: seq<Redirection>, v: Span, qs: seq<Redirection>, lo: nat, at: nat,
                 next: nat, hi: nat)
    requires PartsFrom(s, argv, rs, lo, at) && v.a == Skip(s, at) && IsWord(s, v) && next == Skip(s, v.b)
    requires at <= next <= hi <= |s| && Skip(s, hi) == hi && Boundary(s, next) && Boundary(s, hi)
    requires forall w: Span :: WordIn(s, w, at, next) <==> w == v
    requires ExactRedirs(s, qs, next, hi) && RedirsG(s, qs, next, hi)
    ensures PartsFrom(s, argv + [v], rs + qs, lo, hi)
  {
    hide IsWord, WordIn, RedirsG, PartsG, ExactRedirs, ExactParts;
    ArgNext(s, argv, rs, v, lo, at, next);
    PartsRedirs(s, argv + [v], rs, qs, lo, next, hi);
    PartsSnoc(s, argv, rs, v, qs, lo, at, hi);
  }

  lemma PartsEnd(s: string, argv: seq<Span>, rs: seq<Redirection>, lo: nat, hi: nat)
    requires PartsFrom(s, argv, rs, lo, hi) && |argv| < MAXARGS
    ensures ParsedFrom(s, Wrap(Exec(argv), rs), lo, hi) && ExecG(s, Wrap(Exec(argv), rs), lo, hi)
  {
    hide PartsG, ExecG, Wrap;
    PartsExact(s, argv, rs, lo, hi);
    PartsIs(s, argv, rs, lo, hi);
  }

  lemma PartsAt(s: string, argv: seq<Span>, rs: seq<Redirection>, lo: nat, hi: nat)
    requires PartsFrom(s, argv, rs, lo, hi)
    ensures lo <= hi <= |s| && Skip(s, hi) == hi && Boundary(s, hi) && PartsG(s, argv, rs, lo, hi)
  {
  }

  /** One simple command, or a block. The exec node is made first and filled as its arguments
      come, under the redirections already around it. */
  method ParseExec(s: string, ps: nat) returns (r: Parsed)
    requires ps <= |s| && Boundary(s, ps) && '\0' !in s
    ensures r.Good? ==> ParsedFrom(s, r.cmd, ps, r.end) && ExecG(s, r.cmd, ps, r.end)
    ensures OnlyExec(s, ps, r)
    decreases |s| - ps, 1
  {
    hide ParsedFrom, PartsFrom, Boundary, ExactRedirs, ExecG, RedirsG, Skip, OnlyExec, OnlyRedirs, NoSimple;
    var open, p := Peek(s, ps, "(");
    SkipAgain(s, ps);
    if open {
      r := ParseBlock(s, p);
      if r.Good? {
        ParsedAfter(s, r.cmd, ps, p, r.end);
        ExecFrom(s, r.cmd, ps, r.end);
      }
      OnlyBlockFrom(s, ps, r);
      return;
    }
    var argv: seq<Span> := [];
    var ok, rs, end := ParseRedirs(s, p);
    if !ok {
      OnlyRedirsFrom(s, ps, ok, rs, end);
      FirstStuck(s, ps, rs, end);
      SimpleFails(s, ps, MissingFile);
      return Bad(MissingFile);
    }
    PartsBegin(s, rs, ps, p, end);
    var stop, at := Peek(s, end, "|)&;");
    while !stop
      invariant PartsFrom(s, argv, rs, ps, at) && |argv| < MAXARGS && !AtRedir(s, at)
      invariant stop <==> at < |s| && s[at] in "|)&;"
      decreases |s| - at
    {
      PartsAt(s, argv, rs, ps, at);
      var tok, q, eq, next := GetToken(s, at);
      if tok == '\0' {
        break;
      }
      if tok != 'a' {
        TokenStuck(s, argv, rs, ps, at);
        SimpleFails(s, ps, Syntax);
        return Bad(Syntax);
      }
      var v := Span(q, eq);
      if |argv| + 1 >= MAXARGS {
        TooMany(s, argv, rs, ps, at, v);
        SimpleFails(s, ps, TooManyArgs);
        return Bad(TooManyArgs);
      }
      var more, qs, after := ParseRedirs(s, next);
      if !more {
        WordStuck(s, argv, rs, ps, at, v, qs, after);
        SimpleFails(s, ps, MissingFile);
        return Bad(MissingFile);
      }
      PartsArg(s, argv, rs, v, qs, ps, at, next, after);
      argv, rs := argv + [v], rs + qs;
      stop, at := Peek(s, after, "|)&;");
    }
    PartsEnd(s, argv, rs, ps, at);
    PartsAt(s, argv, rs, ps, at);
    SimpleFound(s, ps, argv, rs, at);
    return Good(Wrap(Exec(argv), rs), at);
  }

  /** Put a NUL after every word of a command. */
  method Nulterminate(c: Cmd, buf: array<char>)
    requires forall k: nat :: EndsAt(c, k) ==> k < buf.Length
    modifies buf
    ensures Terminated(old(buf[..]), buf[..], c)
    decreases c
  {
    match c
    case Exec(argv) =>
      var i := 0;
      while i < |argv|
        invariant 0 <= i <= |argv|
        invariant forall k :: 0 <= k < buf.Length ==>
                    buf[k] == if exists j :: 0 <= j < i && argv[j].b == k then '\0' else old(buf[k])
      {
        assert EndsAt(c, argv[i].b);
        buf[argv[i].b] := '\0';
        i := i + 1;
      }
    case Redir(d, to) =>
      assert EndsAt(c, to.file.b) && forall k: nat :: EndsAt(d, k) ==> EndsAt(c, k);
      Nulterminate(d, buf);
      buf[to.file.b] := '\0';
    case Pipe(l, r) =>
      assert forall k: nat :: EndsAt(l, k) || EndsAt(r, k) ==> EndsAt(c, k);
      Nulterminate(l, buf);
      Nulterminate(r, buf);
    case List(l, r) =>
      assert forall k: nat :: EndsAt(l, k) || EndsAt(r, k) ==> EndsAt(c, k);
      Nulterminate(l, buf);
      Nulterminate(r, buf);
    case Back(d) =>
      assert forall k: nat :: EndsAt(d, k) ==> EndsAt(c, k);
      Nulterminate(d, buf);
  }

  /** Parse a whole line of n characters: the one command that the line stands for, if there is
      one. On success every word of the line occurs exactly once
      in the command, and reads as itself from its pointer. */
  method ParseCmd(buf: array<char>, n: nat) returns (r: Parsed)
    requires n < buf.Length && buf[n] == '\0' && '\0' !in buf[..n]
    modifies buf
    ensures r.Bad? ==> buf[..] == old(buf[..])
    ensures forall c :: r == Good(c, n) <==> LineG(old(buf[..n]), c, 0, n)
    ensures r.Good? ==> r.end == n
    ensures r.Good? ==> forall w: Span :: Count(r.cmd, w) == OneIf(IsWord(old(buf[..n]), w))
    ensures r.Good? ==> forall w: Span :: IsWord(old(buf[..n]), w) ==> CString(buf[..], w.a) == old(buf[..n])[w.a..w.b]
  {
    hide LineG;
    var s := buf[..n];
    r := ParseLine(s, 0);
    if r.Bad? {
      return;
    }
    var _, end := Peek(s, r.end, "");
    if end != n {
      return Bad(Leftovers);
    }
    r := Good(r.cmd, end);
    forall k: nat | EndsAt(r.cmd, k)
      ensures k < buf.Length
    {
      EndNotWord(s, r.cmd, k);
    }
    Nulterminate(r.cmd, buf);
    forall w: Span | IsWord(s, w)
      ensures CString(buf[..], w.a) == s[w.a..w.b]
    {
      WordsReadBack(s, old(buf[..]), buf[..], r.cmd, w);
    }
  }
}
