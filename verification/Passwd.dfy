/** The user database: users, the lines of /etc/passwd that stand for them, and back. */
module Passwd {
  import opened Options
  import opened Numbers

  const LINE_SIZE: nat := 4 * STRING_SIZE

  datatype User = User(username: string, password: string, uid: int, gid: int, realname: string, homedir: string)

  /** Fields with colons between them. */
  function Joined(fs: seq<string>): string
    requires fs != []
  {
    if |fs| == 1 then fs[0] else fs[0] + ":" + Joined(fs[1..])
  }

  function FieldsOf(u: User): seq<string> {
    [u.username, u.password, Printed(u.uid), Printed(u.gid), u.realname, u.homedir]
  }

  /** The line of a user, without its newline. */
  function Body(u: User): string {
    Joined(FieldsOf(u))
  }

  predicate InInt(v: int) {
    -INT_MAX <= v <= INT_MAX
  }

  /** One more field appended. */
  lemma JoinNext(done: string, fs: seq<string>)
    requires |fs| > 1
    ensures done + Joined(fs) == done + fs[0] + ":" + Joined(fs[1..])
  {
  }

  /** The line for a user; None if it overruns the buffer for it. */
  method GetStringFromUser(u: User) returns (r: Option<string>)
    requires InInt(u.uid) && InInt(u.gid)
    ensures r == if |Body(u)| + 1 < LINE_SIZE then Some(Body(u) + "\n") else None
  {
    ghost var f := FieldsOf(u);
    JoinNext("", f);
    assert "" + Joined(f) == Joined(f) && "" + f[0] == f[0];
    hide Joined, Printed;
    var userString := u.username + ":";
    JoinNext(userString, f[1..]);
    userString := userString + u.password + ":";
    var uidString := new char[STRING_SIZE];
    var n := Itoa(u.uid, uidString);
    JoinNext(userString, f[2..]);
    userString := userString + uidString[..n] + ":";
    var gidString := new char[STRING_SIZE];
    var m := Itoa(u.gid, gidString);
    JoinNext(userString, f[3..]);
    userString := userString + gidString[..m] + ":";
    JoinNext(userString, f[4..]);
    userString := userString + u.realname + ":";
    JoinedLast(f[5..]);
    userString := userString + u.homedir;
    assert f[1..][1..] == f[2..] && f[2..][1..] == f[3..] && f[3..][1..] == f[4..] && f[4..][1..] == f[5..];
    assert userString == Body(u);
    userString := userString + "\n";
    return if |userString| < LINE_SIZE then Some(userString) else None;
  }

  lemma JoinedLast(fs: seq<string>)
    requires |fs| == 1
    ensures Joined(fs) == fs[0]
  {
  }

  /** A user whose line overruns its buffer, though no field does. */
  lemma LongLine() returns (u: User)
    ensures GoodField(u.username) && GoodField(u.password) && GoodField(u.realname) && GoodField(u.homedir)
    ensures 0 <= u.uid <= INT_MAX && 0 <= u.gid <= INT_MAX && |Body(u)| + 1 >= LINE_SIZE
  {
    var f := seq(31, i => 'x');
    u := User(f, f, 0, 0, f, f);
    var fs := FieldsOf(u);
    assert |Printed(0)| == 1;
    assert Joined(fs) == f + ":" + Joined(fs[1..]);
    assert Joined(fs[1..]) == f + ":" + Joined(fs[1..][1..]);
    assert Joined(fs[1..][1..]) == Printed(0) + ":" + Joined(fs[1..][1..][1..]);
    assert Joined(fs[1..][1..][1..]) == Printed(0) + ":" + Joined(fs[1..][1..][1..][1..]);
    assert Joined(fs[1..][1..][1..][1..]) == f + ":" + Joined(fs[1..][1..][1..][1..][1..]);
  }

  /** The fields from a position on; or they go past the end of the text, or one overruns its
      buffer. The NUL at the end of a line separates two fields like a colon. */
  datatype Fields = Got(f: seq<string>) | Runaway | TooLong

  predicate Separator(c: char) {
    c == ':' || c == '\0'
  }

  function FieldEnd(s: string, i: nat): (e: nat)
    requires i <= |s|
    ensures i <= e <= |s| && (e < |s| ==> Separator(s[e])) && forall k :: i <= k < e ==> !Separator(s[k])
    decreases |s| - i
  {
    if i < |s| && !Separator(s[i]) then FieldEnd(s, i + 1) else i
  }

  /** The n fields from position p on. */
  function Split(s: string, p: nat, n: nat): Fields
    decreases n
  {
    if n == 0 then Got([])
    else if p > |s| then Runaway
    else
      var e := FieldEnd(s, p);
      if e - p >= STRING_SIZE then TooLong
      else
        var rest := Split(s, e + 1, n - 1);
        if rest.Got? then Got([s[p..e]] + rest.f) else rest
  }

  function Prepend(fs: seq<string>, r: Fields): Fields {
    if r.Got? then Got(fs + r.f) else r
  }

  function UserOf(f: seq<string>): User
    requires |f| == 6
  {
    User(f[0], f[1], Wrap(Value(f[2][..Digits(f[2])])), Wrap(Value(f[3][..Digits(f[3])])), f[4], f[5])
  }

  /** The user that the six fields from position p on stand for, if they are there and fit. */
  function ParseUser(s: string, p: nat): Option<User> {
    var r := Split(s, p, 6);
    if r.Got? && |r.f| == 6 then Some(UserOf(r.f)) else None
  }

  /** Where the field that begins at pnt ends. */
  method FindColon(s: string, pnt: nat) returns (e: nat)
    requires pnt <= |s|
    ensures e == FieldEnd(s, pnt)
  {
    e := pnt;
    while e < |s| && !Separator(s[e])
      invariant pnt <= e <= |s| && forall k :: pnt <= k < e ==> !Separator(s[k])
    {
      e := e + 1;
    }
    EndIs(s, pnt, e);
  }

  method SplitLine(s: string, p: nat) returns (r: Fields)
    ensures r == Split(s, p, 6)
  {
    hide Prepend, FieldEnd, Split;
    var tmp: seq<string> := [];
    var pnt: nat, i := p, 6;
    ghost var all := Split(s, p, 6);
    PrependNone(all);
    while i > 0
      invariant 0 <= i <= 6 && all == Prepend(tmp, Split(s, pnt, i))
    {
      if pnt > |s| {
        SplitBad(s, pnt, i, tmp);
        return Runaway;
      }
      var e := FindColon(s, pnt);
      if e - pnt >= STRING_SIZE {
        SplitBad(s, pnt, i, tmp);
        return TooLong;
      }
      SplitStep(s, pnt, e, i, tmp);
      tmp := tmp + [s[pnt..e]];
      pnt := e + 1;
      i := i - 1;
    }
    SplitEnd(s, pnt, tmp);
    return Got(tmp);
  }

  lemma SplitStep(s: string, pnt: nat, e: nat, n: nat, tmp: seq<string>)
    requires 0 < n && pnt <= |s| && e == FieldEnd(s, pnt) && e - pnt < STRING_SIZE
    ensures Prepend(tmp, Split(s, pnt, n)) == Prepend(tmp + [s[pnt..e]], Split(s, e + 1, n - 1))
  {
    PrependOne(tmp, s[pnt..e], Split(s, e + 1, n - 1));
  }

  lemma PrependNone(r: Fields)
    ensures Prepend([], r) == r
  {
    if r.Got? {
      assert [] + r.f == r.f;
    }
  }

  lemma SplitBad(s: string, pnt: nat, n: nat, tmp: seq<string>)
    requires 0 < n
    ensures pnt > |s| ==> Prepend(tmp, Split(s, pnt, n)) == Runaway
    ensures pnt <= |s| && FieldEnd(s, pnt) - pnt >= STRING_SIZE ==> Prepend(tmp, Split(s, pnt, n)) == TooLong
  {
  }

  lemma SplitEnd(s: string, pnt: nat, tmp: seq<string>)
    ensures Prepend(tmp, Split(s, pnt, 0)) == Got(tmp)
  {
    assert tmp + [] == tmp;
  }

  /** The user at position p of a text; None if the code goes past the end of the text or of one
      of its buffers. */
  method GetUserFromString(s: string, p: nat) returns (r: Option<User>)
    ensures r == ParseUser(s, p)
  {
    hide Split;
    var tmp := SplitLine(s, p);
    if !tmp.Got? || |tmp.f| != 6 {
      return None;
    }
    var uid := Atoi(tmp.f[2]);
    var gid := Atoi(tmp.f[3]);
    return Some(User(tmp.f[0], tmp.f[1], uid, gid, tmp.f[4], tmp.f[5]));
  }

  lemma {:induction false} EndIs(s: string, i: nat, e: nat)
    requires i <= e <= |s| && (e < |s| ==> Separator(s[e])) && forall k :: i <= k < e ==> !Separator(s[k])
    ensures FieldEnd(s, i) == e
    decreases e - i
  {
    if i < e {
      EndIs(s, i + 1, e);
    }
  }

  lemma PrependOne(fs: seq<string>, f: string, r: Fields)
    ensures Prepend(fs, Prepend([f], r)) == Prepend(fs + [f], r)
  {
    if r.Got? {
      assert fs + ([f] + r.f) == fs + [f] + r.f;
    }
  }

  /** Past newlines. */
  function SkipLines(s: string, i: nat): (p: nat)
    requires i <= |s|
    ensures i <= p <= |s| && (p < |s| ==> s[p] != '\n') && forall k :: i <= k < p ==> s[k] == '\n'
    decreases |s| - i
  {
    if i < |s| && s[i] == '\n' then SkipLines(s, i + 1) else i
  }

  function LineEnd(s: string, i: nat): (e: nat)
    requires i <= |s|
    ensures i <= e <= |s| && (e < |s| ==> s[e] == '\n' || s[e] == '\0')
    ensures forall k :: i <= k < e ==> s[k] != '\n' && s[k] != '\0'
    decreases |s| - i
  {
    if i < |s| && s[i] != '\n' && s[i] != '\0' then LineEnd(s, i + 1) else i
  }

  /** Where to go on after a line that ends at e. */
  function After(s: string, e: nat): nat {
    if e < |s| && s[e] == '\n' then e + 1 else e
  }

  /** There is nothing at position p. */
  predicate Over(s: string, p: nat) {
    p >= |s| || s[p] == '\0'
  }

  /** The lines of a text from position i on; empty ones do not count. */
  function Lines(s: string, i: nat): seq<string>
    requires i <= |s|
    decreases |s| - i
  {
    var p := SkipLines(s, i);
    if Over(s, p) then []
    else
      var e := LineEnd(s, p);
      [s[p..e]] + Lines(s, After(s, e))
  }

  /** The text with a NUL put at the end of a line. */
  function Cut(s: string, e: nat): string {
    if e < |s| then s[e := '\0'] else s
  }

  /** strtok with its static pointer, on a text that a NUL follows; the delimiter is a newline. */
  class Strtok {
    const buf: array<char>
    var sp: Option<nat>

    constructor (buf: array<char>)
      ensures this.buf == buf && sp == None
    {
      this.buf, sp := buf, None;
    }

    /** The next line, if any, cut off with a NUL. `begin` is the first call, with the text. */
    method Next(begin: bool) returns (token: Option<nat>)
      requires sp.Some? ==> sp.value <= buf.Length
      modifies this, buf
      ensures old(sp).None? && !begin ==> token == None && sp == None && buf[..] == old(buf[..])
      ensures old(sp).Some? || begin ==>
                var s := old(buf[..]);
                var p := SkipLines(s, if old(sp).Some? then old(sp).value else 0);
                var e := LineEnd(s, p);
                && (Over(s, p) ==> token == None && sp == None && buf[..] == s)
                && (!Over(s, p) ==> token == Some(p) && sp == Some(After(s, e)) && buf[..] == Cut(s, e))
    {
      if !begin && sp.None? {
        return None;
      }
      if begin && sp.None? {
        sp := Some(0);
      }
      hide SkipLines, LineEnd;
      var start := PastNewlines(buf[..], sp.value);
      sp := Some(start);
      if start == buf.Length || buf[start] == '\0' {
        sp := None;
        return None;
      }
      var end := ToNewline(buf[..], start);
      sp := Some(end);
      if end < buf.Length && buf[end] == '\n' {
        buf[end] := '\0';
        sp := Some(end + 1);
      }
      assert buf[..] == Cut(old(buf[..]), end);
      return Some(start);
    }
  }

  method PastNewlines(text: string, from: nat) returns (start: nat)
    requires from <= |text|
    ensures start == SkipLines(text, from)
  {
    start := from;
    while start < |text| && text[start] == '\n'
      invariant from <= start <= |text| && SkipLines(text, start) == SkipLines(text, from)
    {
      start := start + 1;
    }
  }

  method ToNewline(text: string, start: nat) returns (end: nat)
    requires start <= |text|
    ensures end == LineEnd(text, start)
  {
    end := start;
    while end < |text| && text[end] != '\n' && text[end] != '\0'
      invariant start <= end <= |text| && LineEnd(text, end) == LineEnd(text, start)
    {
      end := end + 1;
    }
  }

  /** Insertion behind all users whose uid is not larger. */
  function Insert(list: seq<User>, u: User): (r: seq<User>)
    ensures |r| == |list| + 1
  {
    if list == [] then [u]
    else if list[0].uid > u.uid then [u] + list
    else [list[0]] + Insert(list[1..], u)
  }

  method AddUserToListSorted(list: seq<User>, u: User) returns (r: seq<User>)
    ensures r == Insert(list, u)
  {
    if list == [] {
      return [u];
    }
    if list[0].uid > u.uid {
      return [u] + list;
    }
    var k := 0;
    while k + 1 < |list| && list[k + 1].uid <= u.uid
      invariant 0 <= k < |list| && forall i :: 0 <= i <= k ==> list[i].uid <= u.uid
    {
      k := k + 1;
    }
    InsertAt(list, u, k + 1);
    return list[..k + 1] + [u] + list[k + 1..];
  }

  lemma {:induction false} InsertAt(list: seq<User>, u: User, k: nat)
    requires k <= |list| && (forall i :: 0 <= i < k ==> list[i].uid <= u.uid) && (k < |list| ==> list[k].uid > u.uid)
    ensures Insert(list, u) == list[..k] + [u] + list[k..]
  {
    if k > 0 {
      InsertAt(list[1..], u, k - 1);
      assert list[..k] == [list[0]] + list[1..][..k - 1];
      assert list[k..] == list[1..][k - 1..];
    }
  }

  predicate Sorted(list: seq<User>) {
    forall i, j :: 0 <= i < j < |list| ==> list[i].uid <= list[j].uid
  }

  /** The users of a list of lines, each put in its place. */
  function Load(lines: seq<string>, list: seq<User>): Option<seq<User>> {
    if lines == [] then Some(list)
    else
      var u := ParseUser(lines[0], 0);
      if u.Some? then Load(lines[1..], Insert(list, u.value)) else None
  }

  /** What the code makes of the text from position i on, while it cuts it up. */
  function LoadFrom(s: string, i: nat, list: seq<User>): Option<seq<User>>
    requires i <= |s|
    decreases |s| - i
  {
    var p := SkipLines(s, i);
    if Over(s, p) then Some(list)
    else
      var e := LineEnd(s, p);
      var u := ParseUser(Cut(s, e), p);
      if u.Some? then LoadFrom(Cut(s, e), After(s, e), Insert(list, u.value)) else None
  }

  lemma LoadNext(s: string, i: nat, list: seq<User>)
    requires i <= |s|
    ensures LoadFrom(s, i, list) ==
              var p := SkipLines(s, i);
              if Over(s, p) then Some(list)
              else
                var e := LineEnd(s, p);
                var u := ParseUser(Cut(s, e), p);
                if u.None? then None else LoadFrom(Cut(s, e), After(s, e), Insert(list, u.value))
  {
    hide ParseUser, Insert, SkipLines, LineEnd;
  }

  /** All users of the file, in the order of their uids; None if the code goes past the end of the
      text or of one of its buffers. */
  method SelectAllUsers(buf: array<char>) returns (r: Option<seq<User>>)
    modifies buf
    ensures r == LoadFrom(old(buf[..]), 0, [])
  {
    hide ParseUser, Insert, SkipLines, LineEnd, LoadFrom, Cut;
    var list: seq<User> := [];
    var strtok := new Strtok(buf);
    ghost var s, i := buf[..], 0;
    var token := strtok.Next(true);
    while token.Some?
      invariant i <= |s| == buf.Length && LoadFrom(old(buf[..]), 0, []) == LoadFrom(s, i, list)
      invariant token.None? ==> Over(s, SkipLines(s, i))
      invariant token.Some? ==>
                  var p := SkipLines(s, i);
                  && !Over(s, p) && token.value == p
                  && strtok.sp == Some(After(s, LineEnd(s, p))) && buf[..] == Cut(s, LineEnd(s, p))
      decreases |s| - i
    {
      var u := GetUserFromString(buf[..], token.value);
      LoadNext(s, i, list);
      if u.None? {
        return None;
      }
      list := AddUserToListSorted(list, u.value);
      s, i := buf[..], strtok.sp.value;
      token := strtok.Next(false);
    }
    LoadNext(s, i, list);
    return Some(list);
  }

  /** A line with all its fields reads the same in the text as by itself. */
  lemma {:induction false} SplitWithin(t: string, p: nat, line: string, q: nat, n: nat)
    requires p + |line| <= |t| && line == t[p..p + |line|] && Over(t, p + |line|)
    requires Split(line, q, n).Got?
    ensures Split(t, p + q, n) == Split(line, q, n)
    decreases n
  {
    if n > 0 {
      var e := FieldEnd(line, q);
      EndWithin(t, p, line, q);
      SplitWithin(t, p, line, e + 1, n - 1);
    }
  }

  lemma EndWithin(t: string, p: nat, line: string, q: nat)
    requires p + |line| <= |t| && line == t[p..p + |line|] && Over(t, p + |line|) && q <= |line|
    ensures FieldEnd(t, p + q) == p + FieldEnd(line, q) && t[p + q..p + FieldEnd(line, q)] == line[q..FieldEnd(line, q)]
  {
    var e := FieldEnd(line, q);
    hide FieldEnd;
    assert forall k :: 0 <= k < |line| ==> t[p + k] == line[k];
    assert forall k :: p + q <= k < p + e ==> t[k] == line[k - p];
    EndIs(t, p + q, p + e);
  }

  /** Lines are the same in texts that go on alike. */
  lemma {:induction false} SameLines(s: string, t: string, i: nat)
    requires |s| == |t| && i <= |s| && forall k :: i <= k < |s| ==> s[k] == t[k]
    ensures Lines(s, i) == Lines(t, i) && SkipLines(s, i) == SkipLines(t, i)
    decreases |s| - i
  {
    SameSkip(s, t, i);
    var p := SkipLines(s, i);
    if !Over(s, p) {
      SameEnd(s, t, p);
      var e := LineEnd(s, p);
      assert s[p..e] == t[p..e];
      SameLines(s, t, After(s, e));
    }
  }

  lemma {:induction false} SameSkip(s: string, t: string, i: nat)
    requires |s| == |t| && i <= |s| && forall k :: i <= k < |s| ==> s[k] == t[k]
    ensures SkipLines(s, i) == SkipLines(t, i)
    decreases |s| - i
  {
    if i < |s| && s[i] == '\n' {
      SameSkip(s, t, i + 1);
    }
  }

  lemma {:induction false} SameEnd(s: string, t: string, i: nat)
    requires |s| == |t| && i <= |s| && forall k :: i <= k < |s| ==> s[k] == t[k]
    ensures LineEnd(s, i) == LineEnd(t, i)
    decreases |s| - i
  {
    if i < |s| && s[i] != '\n' && s[i] != '\0' {
      SameEnd(s, t, i + 1);
    }
  }

  /** Where every line has its six fields, the users are those of the lines. */
  lemma {:induction false} LoadOfLines(s: string, i: nat, list: seq<User>)
    requires i <= |s| && forall line :: line in Lines(s, i) ==> ParseUser(line, 0).Some?
    ensures LoadFrom(s, i, list) == Load(Lines(s, i), list)
    decreases |s| - i
  {
    var p := SkipLines(s, i);
    if !Over(s, p) {
      var e := LineEnd(s, p);
      var line, next, t := s[p..e], After(s, e), Cut(s, e);
      var lines := Lines(s, i);
      assert lines[0] == line && lines[1..] == Lines(s, next);
      hide SkipLines, LineEnd, Insert;
      assert t[p..p + |line|] == line;
      LineInText(t, p, line);
      SameLines(s, t, next);
      LoadOfLines(t, next, Insert(list, ParseUser(line, 0).value));
    }
  }

  lemma LineInText(t: string, p: nat, line: string)
    requires p + |line| <= |t| && line == t[p..p + |line|] && Over(t, p + |line|) && ParseUser(line, 0).Some?
    ensures ParseUser(t, p) == ParseUser(line, 0)
  {
    hide Split;
    SplitWithin(t, p, line, 0, 6);
  }

  /** The file that lists these users. */
  function FileOf(list: seq<User>): string {
    if list == [] then [] else Body(list[0]) + "\n" + FileOf(list[1..])
  }

  predicate LinesFit(list: seq<User>) {
    forall i :: 0 <= i < |list| ==> |Body(list[i])| + 1 < LINE_SIZE
  }

  /** Write the file; None if a line overruns its buffer. */
  method UpdatePasswdFile(list: seq<User>) returns (r: Option<string>)
    requires forall i :: 0 <= i < |list| ==> InInt(list[i].uid) && InInt(list[i].gid)
    ensures r == if LinesFit(list) then Some(FileOf(list)) else None
  {
    hide Body;
    var text, k := "", 0;
    assert list[0..] == list && "" + FileOf(list) == FileOf(list);
    while k < |list|
      invariant 0 <= k <= |list| && text + FileOf(list[k..]) == FileOf(list)
      invariant forall i :: 0 <= i < k ==> |Body(list[i])| + 1 < LINE_SIZE
    {
      var line := GetStringFromUser(list[k]);
      if line.None? {
        return None;
      }
      FileStep(list, k, text);
      text := text + line.value;
      k := k + 1;
    }
    assert text + [] == text;
    return Some(text);
  }

  lemma FileStep(list: seq<User>, k: nat, text: string)
    requires k < |list|
    ensures text + FileOf(list[k..]) == text + (Body(list[k]) + "\n") + FileOf(list[k + 1..])
  {
    assert list[k..][1..] == list[k + 1..];
  }

  /** A field that can be written and read back. */
  predicate GoodField(f: string) {
    |f| < STRING_SIZE && ':' !in f && '\n' !in f && '\0' !in f
  }

  /** A user that can be written: its fields are short enough, each of them and all together. */
  predicate Writable(u: User) {
    && GoodField(u.username) && GoodField(u.password) && GoodField(u.realname) && GoodField(u.homedir)
    && InInt(u.uid) && InInt(u.gid) && |Body(u)| + 1 < LINE_SIZE
  }

  /** A user that can be written and read back. */
  predicate GoodUser(u: User) {
    Writable(u) && 0 <= u.uid && 0 <= u.gid
  }

  /** A text that goes on with b, then c, then the rest. */
  lemma GoesOn(s: string, p: nat, b: string, c: char, rest: string)
    requires p <= |s| && s[p..] == b + [c] + rest
    ensures p + |b| < |s| && s[p..p + |b|] == b && s[p + |b|] == c && s[p + |b| + 1..] == rest
    ensures forall k :: p <= k < p + |b| ==> s[k] == b[k - p]
  {
    var t := s[p..];
    assert t[..|b|] == b && t[|b|] == c && t[|b| + 1..] == rest;
    assert s[p..p + |b|] == t[..|b|] && s[p + |b| + 1..] == t[|b| + 1..];
  }

  /** Fields that a line can hold. */
  predicate Separable(fs: seq<string>) {
    forall i :: 0 <= i < |fs| ==> |fs[i]| < STRING_SIZE && ':' !in fs[i] && '\0' !in fs[i]
  }

  lemma SeparableTail(fs: seq<string>)
    requires Separable(fs) && fs != []
    ensures |fs[0]| < STRING_SIZE && ':' !in fs[0] && '\0' !in fs[0] && Separable(fs[1..])
  {
  }

  lemma {:induction false} SplitJoined(s: string, p: nat, fs: seq<string>)
    requires fs != [] && p <= |s| && s[p..] == Joined(fs)
    requires Separable(fs)
    ensures Split(s, p, |fs|) == Got(fs)
    decreases |fs|
  {
    hide Separable, Split, FieldEnd;
    var f, e := fs[0], p + |fs[0]|;
    SeparableTail(fs);
    if |fs| == 1 {
      assert s[p..] == f && fs == [f];
      LastField(s, p, f);
    } else {
      var rest := fs[1..];
      assert s[p..] == f + ":" + Joined(rest) && fs == [f] + rest;
      hide Joined;
      MoreFields(s, p, f, ':', Joined(rest));
      SplitJoined(s, e + 1, rest);
      SplitOne(s, p, e, |fs|, rest);
    }
  }

  lemma LastField(s: string, p: nat, f: string)
    requires p <= |s| && s[p..] == f && |f| < STRING_SIZE && ':' !in f && '\0' !in f
    ensures FieldEnd(s, p) == |s| && Split(s, p, 1) == Got([f])
  {
    hide FieldEnd;
    assert forall k :: p <= k < |s| ==> s[k] == f[k - p];
    EndIs(s, p, |s|);
    SplitOne(s, p, |s|, 1, []);
    assert s[p..|s|] == f && [f] + [] == [f];
  }

  lemma MoreFields(s: string, p: nat, f: string, c: char, rest: string)
    requires p <= |s| && s[p..] == f + [c] + rest && ':' !in f && '\0' !in f && Separator(c)
    ensures p + |f| < |s| && FieldEnd(s, p) == p + |f| && s[p..p + |f|] == f && s[p + |f| + 1..] == rest
  {
    GoesOn(s, p, f, c, rest);
    EndIs(s, p, p + |f|);
  }

  /** The fields of two lines, where a NUL has been put between them. */
  lemma {:induction false} SplitAcross(s: string, p: nat, a: seq<string>, b: seq<string>)
    requires a != [] && b != [] && Separable(a) && Separable(b) && p <= |s| && s[p..] == Joined(a) + "\0" + Joined(b)
    ensures Split(s, p, |a| + |b|) == Got(a + b)
    decreases |a|
  {
    hide Separable, Split, FieldEnd;
    var f, e := a[0], p + |a[0]|;
    SeparableTail(a);
    if |a| == 1 {
      assert s[p..] == f + "\0" + Joined(b) && a == [f];
      hide Joined;
      MoreFields(s, p, f, '\0', Joined(b));
      SplitJoined(s, e + 1, b);
      SplitOne(s, p, e, |a| + |b|, b);
    } else {
      var rest := a[1..];
      assert s[p..] == f + ":" + (Joined(rest) + "\0" + Joined(b)) && a == [f] + rest;
      hide Joined;
      MoreFields(s, p, f, ':', Joined(rest) + "\0" + Joined(b));
      SplitAcross(s, e + 1, rest, b);
      SplitOne(s, p, e, |a| + |b|, rest + b);
      assert [f] + (rest + b) == a + b;
    }
  }

  /** A line of fewer fields than asked for. */
  lemma {:induction false} SplitFew(s: string, p: nat, fs: seq<string>, n: nat)
    requires fs != [] && Separable(fs) && p <= |s| && s[p..] == Joined(fs) && |fs| < n
    ensures Split(s, p, n) == Runaway
    decreases |fs|
  {
    hide Separable, Split, FieldEnd;
    var f, e := fs[0], p + |fs[0]|;
    SeparableTail(fs);
    if |fs| == 1 {
      LastField(s, p, f);
      SplitEnds(s, p, |s|, n);
    } else {
      var rest := fs[1..];
      assert s[p..] == f + ":" + Joined(rest);
      hide Joined;
      MoreFields(s, p, f, ':', Joined(rest));
      SplitFew(s, e + 1, rest, n - 1);
      SplitEnds(s, p, e, n);
    }
  }

  lemma SplitEnds(s: string, p: nat, e: nat, n: nat)
    requires 0 < n && p <= |s| && e == FieldEnd(s, p) && e - p < STRING_SIZE
    requires (1 < n && e == |s|) || Split(s, e + 1, n - 1) == Runaway
    ensures Split(s, p, n) == Runaway
  {
  }

  /** A line of fewer than six fields is not refused. The code goes on after the NUL at its end,
      into the next line, and makes one user of the two. */
  lemma ShortLine(fs: seq<string>, k: nat)
    requires |fs| == 6 && Separable(fs) && 0 < k < 6
    ensures ParseUser(Joined(fs[..k]), 0) == None
    ensures ParseUser(Joined(fs[..k]) + "\0" + Joined(fs[k..]), 0) == Some(UserOf(fs))
  {
    var a, b := fs[..k], fs[k..];
    var s := Joined(a) + "\0" + Joined(b);
    assert s[0..] == s && Joined(a)[0..] == Joined(a) && a + b == fs;
    hide Joined;
    SplitFew(Joined(a), 0, a, 6);
    SplitAcross(s, 0, a, b);
  }

  lemma SplitOne(s: string, p: nat, e: nat, n: nat, fs: seq<string>)
    requires 0 < n && p <= |s| && e == FieldEnd(s, p) && e - p < STRING_SIZE && Split(s, e + 1, n - 1) == Got(fs)
    ensures Split(s, p, n) == Got([s[p..e]] + fs)
  {
  }

  lemma NumberField(v: int)
    requires InInt(v)
    ensures |Printed(v)| < STRING_SIZE && ':' !in Printed(v) && '\n' !in Printed(v) && '\0' !in Printed(v)
    ensures Wrap(Value(Printed(v)[..Digits(Printed(v))])) == v <==> v >= 0
  {
    TenDigits(if v < 0 then -v else v);
    NumberReadBack(v);
    assert forall i :: 0 <= i < |Printed(v)| ==> Digit(Printed(v)[i]) || Printed(v)[i] == '-';
  }

  /** A line stands for the user it was written for exactly if its ids are not negative. */
  lemma BodyReadBack(u: User)
    requires Writable(u)
    ensures ParseUser(Body(u), 0) == Some(u) <==> 0 <= u.uid && 0 <= u.gid
  {
    hide Printed, Joined, Split;
    NumberField(u.uid);
    NumberField(u.gid);
    assert Body(u)[0..] == Body(u);
    SplitJoined(Body(u), 0, FieldsOf(u));
    hide Value, Digits;
  }

  function Bodies(list: seq<User>): seq<string> {
    if list == [] then [] else [Body(list[0])] + Bodies(list[1..])
  }

  lemma {:induction false} JoinedIsLine(fs: seq<string>)
    requires fs != [] && forall i :: 0 <= i < |fs| ==> '\n' !in fs[i] && '\0' !in fs[i]
    ensures '\n' !in Joined(fs) && '\0' !in Joined(fs) && (|fs| > 1 ==> Joined(fs) != [])
  {
    if |fs| > 1 {
      JoinedIsLine(fs[1..]);
    }
  }

  lemma BodyIsLine(u: User)
    requires GoodUser(u)
    ensures Body(u) != [] && '\n' !in Body(u) && '\0' !in Body(u)
  {
    hide Printed, Joined;
    NumberField(u.uid);
    NumberField(u.gid);
    JoinedIsLine(FieldsOf(u));
  }

  /** The lines of the file are the lines written. */
  lemma {:induction false} LinesOfFile(list: seq<User>, text: string, i: nat)
    requires i <= |text| && text[i..] == FileOf(list) && forall k :: 0 <= k < |list| ==> GoodUser(list[k])
    ensures Lines(text, i) == Bodies(list)
    decreases |list|
  {
    if list == [] {
      assert i == |text|;
    } else {
      BodyIsLine(list[0]);
      var b, rest := Body(list[0]), list[1..];
      assert text[i..] == b + "\n" + FileOf(rest) && Bodies(list) == [b] + Bodies(rest);
      hide *;
      FirstLine(text, i, b, FileOf(rest));
      LinesOfFile(rest, text, i + |b| + 1);
    }
  }

  lemma FirstLine(text: string, i: nat, b: string, rest: string)
    requires i <= |text| && text[i..] == b + "\n" + rest && b != [] && '\n' !in b && '\0' !in b
    ensures i + |b| + 1 <= |text| && text[i + |b| + 1..] == rest
    ensures Lines(text, i) == [b] + Lines(text, i + |b| + 1)
  {
    hide Lines, SkipLines, LineEnd;
    GoesOn(text, i, b, '\n', rest);
    LineIs(text, i, i + |b|);
    NextLine(text, i, i + |b|);
  }

  lemma NextLine(text: string, i: nat, e: nat)
    requires i < e < |text| && SkipLines(text, i) == i && LineEnd(text, i) == e && text[e] == '\n' && text[i] != '\0'
    ensures Lines(text, i) == [text[i..e]] + Lines(text, e + 1)
  {
    hide SkipLines, LineEnd;
  }

  lemma LineIs(text: string, i: nat, e: nat)
    requires i < e < |text| && text[e] == '\n' && forall k :: i <= k < e ==> text[k] != '\n' && text[k] != '\0'
    ensures SkipLines(text, i) == i && LineEnd(text, i) == e
  {
  }

  lemma {:induction false} LoadSorted(list: seq<User>, k: nat)
    requires Sorted(list) && k <= |list| && forall i :: 0 <= i < |list| ==> GoodUser(list[i])
    ensures Load(Bodies(list[k..]), list[..k]) == Some(list)
    decreases |list| - k
  {
    if k < |list| {
      BodyReadBack(list[k]);
      assert list[k..][1..] == list[k + 1..];
      var lines := Bodies(list[k..]);
      assert lines[0] == Body(list[k]) && lines[1..] == Bodies(list[k + 1..]);
      InsertLast(list, k);
      hide *;
      LoadStep(lines, list[..k], list[k]);
      LoadSorted(list, k + 1);
    } else {
      assert list[..k] == list && list[k..] == [];
    }
  }

  lemma InsertLast(list: seq<User>, k: nat)
    requires Sorted(list) && k < |list|
    ensures Insert(list[..k], list[k]) == list[..k + 1]
  {
    hide Insert;
    InsertAt(list[..k], list[k], k);
    assert list[..k][..k] == list[..k] && list[..k][k..] == [] && list[..k + 1] == list[..k] + [list[k]];
  }

  lemma LoadStep(lines: seq<string>, list: seq<User>, u: User)
    requires lines != [] && ParseUser(lines[0], 0) == Some(u)
    ensures Load(lines, list) == Load(lines[1..], Insert(list, u))
  {
  }

  /** Writing the file and reading it back gives the same users in the same order. */
  lemma FileReadBack(list: seq<User>)
    requires Sorted(list) && forall i :: 0 <= i < |list| ==> GoodUser(list[i])
    ensures LinesFit(list) && LoadFrom(FileOf(list), 0, []) == Some(list)
  {
    assert FileOf(list)[0..] == FileOf(list);
    LinesOfFile(list, FileOf(list), 0);
    LoadSorted(list, 0);
    assert list[0..] == list && list[..0] == [];
    LoadIsSorted(Bodies(list), []);
    LoadOfLines(FileOf(list), 0, []);
  }

  lemma {:induction false} InsertSorted(list: seq<User>, u: User)
    requires Sorted(list)
    ensures Sorted(Insert(list, u)) && multiset(Insert(list, u)) == multiset(list) + multiset{u}
  {
    if list != [] {
      assert list == [list[0]] + list[1..];
      if list[0].uid <= u.uid {
        InsertSorted(list[1..], u);
        var rest := Insert(list[1..], u);
        assert Insert(list, u) == [list[0]] + rest;
        hide Insert;
        assert multiset(list) == multiset{list[0]} + multiset(list[1..]);
        SmallestFirst(list[0], list[1..], u, rest);
      }
    }
  }

  lemma SmallestFirst(a: User, tail: seq<User>, u: User, rest: seq<User>)
    requires Sorted(rest) && Sorted([a] + tail) && a.uid <= u.uid && multiset(rest) == multiset(tail) + multiset{u}
    ensures Sorted([a] + rest)
  {
    forall i | 0 <= i < |rest|
      ensures a.uid <= rest[i].uid
    {
      assert rest[i] in multiset(rest);
      if rest[i] != u {
        assert rest[i] in tail;
        var k :| 0 <= k < |tail| && tail[k] == rest[i];
        var all := [a] + tail;
        assert all[0] == a && all[k + 1] == rest[i];
      }
    }
  }

  /** The users that the lines of a file stand for. */
  ghost function UsersOf(lines: seq<string>): multiset<User> {
    if lines == [] then multiset{}
    else
      var u := ParseUser(lines[0], 0);
      UsersOf(lines[1..]) + if u.Some? then multiset{u.value} else multiset{}
  }

  /** Every line of a file that can be read at all is read once, and the users read are in the
      order of their uids. */
  lemma {:induction false} LoadIsSorted(lines: seq<string>, list: seq<User>)
    requires Sorted(list)
    ensures Load(lines, list).Some? <==> forall i :: 0 <= i < |lines| ==> ParseUser(lines[i], 0).Some?
    ensures Load(lines, list).Some? ==>
              && Sorted(Load(lines, list).value)
              && multiset(Load(lines, list).value) == multiset(list) + UsersOf(lines)
  {
    hide ParseUser, Insert, Sorted;
    if lines != [] {
      var u := ParseUser(lines[0], 0);
      assert forall i :: 0 <= i < |lines| - 1 ==> lines[1..][i] == lines[i + 1];
      if u.Some? {
        InsertSorted(list, u.value);
        LoadIsSorted(lines[1..], Insert(list, u.value));
        assert lines == [lines[0]] + lines[1..];
      }
    }
  }

  /** Whatever the text, the users read from it are in the order of their uids. */
  lemma {:induction false} LoadFromSorted(s: string, i: nat, list: seq<User>)
    requires Sorted(list) && i <= |s|
    ensures LoadFrom(s, i, list).Some? ==> Sorted(LoadFrom(s, i, list).value)
    decreases |s| - i
  {
    hide ParseUser, Insert, Sorted;
    var p := SkipLines(s, i);
    if !Over(s, p) {
      var e := LineEnd(s, p);
      var u := ParseUser(Cut(s, e), p);
      if u.Some? {
        InsertSorted(list, u.value);
        LoadFromSorted(Cut(s, e), After(s, e), Insert(list, u.value));
      }
    }
  }

  /** The least uid from 1000 on that is not taken. */
  ghost predicate LeastFree(list: seq<User>, uid: int) {
    && 1000 <= uid && !Taken(list, uid)
    && forall v :: 1000 <= v < uid ==> Taken(list, v)
  }

  ghost predicate Taken(list: seq<User>, uid: int) {
    exists i :: 0 <= i < |list| && list[i].uid == uid
  }

  method GetNextAvailableUid(list: seq<User>) returns (uid: int)
    ensures Sorted(list) ==> LeastFree(list, uid)
  {
    uid := 1000;
    var k := 0;
    while k < |list|
      invariant 0 <= k <= |list| && 1000 <= uid
      invariant forall v :: 1000 <= v < uid ==> Taken(list, v)
      invariant Sorted(list) ==> forall i :: 0 <= i < k ==> list[i].uid != uid
    {
      if list[k].uid == uid {
        assert Taken(list, uid);
        uid := uid + 1;
      }
      k := k + 1;
    }
  }
}
