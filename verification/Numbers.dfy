/** Numbers printed and read in decimal. */
module Numbers {
  import opened Counting

  const STRING_SIZE: nat := 32
  const INT_MAX: int := 0x7FFF_FFFF
  const INT_MIN: int := -0x8000_0000

  predicate Digit(c: char) {
    48 <= c as int <= 57
  }

  function DigitOf(d: nat): (c: char)
    requires d < 10
    ensures Digit(c) && DigitValue(c) == d
  {
    (48 + d) as char
  }

  /** A number in decimal, without a sign or leading zeros. */
  function Decimal(n: nat): (s: string)
    ensures s != [] && forall i :: 0 <= i < |s| ==> Digit(s[i])
  {
    if n < 10 then [DigitOf(n)] else Decimal(n / 10) + [DigitOf(n % 10)]
  }

  function DigitValue(c: char): nat
    requires Digit(c)
  {
    c as int - 48
  }

  /** The number that a string of digits stands for. */
  function Value(s: string): nat
    requires forall i :: 0 <= i < |s| ==> Digit(s[i])
  {
    if s == [] then 0 else 10 * Value(s[..|s| - 1]) + DigitValue(s[|s| - 1])
  }

  lemma {:induction false} ValueOfDecimal(n: nat)
    ensures Value(Decimal(n)) == n
  {
    if n >= 10 {
      ValueOfDecimal(n / 10);
      assert Decimal(n)[..|Decimal(n)| - 1] == Decimal(n / 10);
    }
  }

  /** The digits at the front of a string. */
  function Digits(s: string): (n: nat)
    ensures n <= |s| && (forall i :: 0 <= i < n ==> Digit(s[i])) && (n < |s| ==> !Digit(s[n]))
  {
    if s != [] && Digit(s[0]) then 1 + Digits(s[1..]) else 0
  }

  /** What is left of a number in a signed 32-bit word. */
  function Wrap(n: int): (w: int)
    ensures INT_MIN <= w <= INT_MAX && (INT_MIN <= n <= INT_MAX ==> w == n)
  {
    (n - INT_MIN) % 0x1_0000_0000 + INT_MIN
  }

  lemma WrapStep(a: int, d: int)
    ensures Wrap(10 * Wrap(a) + d) == Wrap(10 * a + d)
  {
    var k := (a - INT_MIN) / 0x1_0000_0000;
    assert Wrap(a) == a - k * 0x1_0000_0000;
    WrapShift(10 * a + d, -10 * k);
  }

  lemma WrapShift(n: int, k: int)
    ensures Wrap(n + k * 0x1_0000_0000) == Wrap(n)
  {
    var m := n - INT_MIN;
    var q, q' := m / 0x1_0000_0000, (m + k * 0x1_0000_0000) / 0x1_0000_0000;
    assert m + k * 0x1_0000_0000 - q' * 0x1_0000_0000 == Wrap(n + k * 0x1_0000_0000) - INT_MIN;
    assert m - q * 0x1_0000_0000 == Wrap(n) - INT_MIN;
    assert q' == q + k;
  }

  /** atoi: the value of the digits at the front, as far as it fits a word. */
  method Atoi(s: string) returns (n: int)
    ensures n == Wrap(Value(s[..Digits(s)]))
    ensures Value(s[..Digits(s)]) <= INT_MAX <==> n == Value(s[..Digits(s)])
  {
    n := 0;
    var i := 0;
    while i < |s| && Digit(s[i])
      invariant 0 <= i <= |s| && (forall k :: 0 <= k < i ==> Digit(s[k])) && n == Wrap(Value(s[..i]))
    {
      WrapStep(Value(s[..i]), DigitValue(s[i]));
      n := Wrap(n * 10 + DigitValue(s[i]));
      i := i + 1;
      assert s[..i][..i - 1] == s[..i - 1];
    }
    DigitsAre(s, i);
  }

  lemma {:induction false} DigitsAre(s: string, n: nat)
    requires n <= |s| && (forall i :: 0 <= i < n ==> Digit(s[i])) && (n < |s| ==> !Digit(s[n]))
    ensures Digits(s) == n
  {
    if n > 0 {
      DigitsAre(s[1..], n - 1);
    }
  }

  function Printed(value: int): string {
    if value < 0 then "-" + Decimal(-value) else Decimal(value)
  }

  lemma {:induction false} DecimalLength(n: nat, k: nat)
    requires n < Power(10, k) && 0 < k
    ensures |Decimal(n)| <= k
  {
    if n >= 10 {
      assert k > 1;
      DecimalLength(n / 10, k - 1);
    }
  }

  /** The digits of a number still to be printed. */
  function Rest(n: nat): (r: string)
    ensures r == [] <==> n == 0
  {
    if n == 0 then [] else Decimal(n)
  }

  lemma RestStep(n: nat, done: string)
    requires n != 0
    ensures Rest(n) + Reversed(done) == Rest(n / 10) + Reversed(done + [DigitOf(n % 10)])
  {
    var c := DigitOf(n % 10);
    assert (done + [c])[..|done|] == done;
    assert Rest(n) == Rest(n / 10) + [c];
  }

  lemma TenDigits(n: nat)
    requires n <= INT_MAX
    ensures |Rest(n)| <= 10 && (n != 0 ==> Rest(n) == Decimal(n)) && Decimal(0) == "0"
  {
    assert Power(10, 10) == 10_000_000_000;
    DecimalLength(n, 10);
  }

  /** The digits of a number, the last one first. The least number is its own absolute value, and
      with a remainder that is not positive its digits are no digits. */
  method Backwards(value: int, buffer: array<char>) returns (i: nat)
    requires (0 <= value <= INT_MAX || value == INT_MIN) && buffer.Length == STRING_SIZE
    modifies buffer
    ensures 0 < i <= 10
    ensures value >= 0 ==> Reversed(buffer[..i]) == Decimal(value)
    ensures value < 0 ==> buffer[0] == '('
  {
    hide Decimal, Rest, Reversed, DigitOf;
    if value < 0 {
      i := Garbled(buffer);
      return;
    }
    TenDigits(value);
    var n := value;
    i := 0;
    ReversedShort('0');
    assert buffer[..0] == [];
    while n != 0
      invariant 0 <= i <= 10 && 0 <= n && Rest(value) == Rest(n) + Reversed(buffer[..i])
    {
      ghost var was := buffer[..i];
      RestStep(n, was);
      buffer[i] := DigitOf(n % 10);
      i := i + 1;
      n := n / 10;
      assert buffer[..i] == was + [buffer[i - 1]];
    }
    if i == 0 {
      buffer[i] := '0';
      i := i + 1;
      assert buffer[..1] == "0";
    }
  }

  /** The same loop from the least number: division and remainder truncate towards zero. */
  method Garbled(buffer: array<char>) returns (i: nat)
    requires buffer.Length == STRING_SIZE
    modifies buffer
    ensures 0 < i <= 10 && buffer[0] == '('
  {
    var n := INT_MIN;
    i := 0;
    while n != 0
      invariant 0 <= i <= 10 && n <= 0 && -n < Power(10, 10 - i)
      invariant if i == 0 then n == INT_MIN else buffer[0] == '('
      decreases -n
    {
      var r := -(-n % 10);
      buffer[i] := (48 + r) as char;
      i := i + 1;
      n := -(-n / 10);
    }
  }

  /** itoa in base ten: the digits backwards, and then the other way round. It prints every number
      but the least. */
  method Itoa(value: int, buffer: array<char>) returns (len: nat)
    requires INT_MIN <= value <= INT_MAX && buffer.Length == STRING_SIZE
    modifies buffer
    ensures len < buffer.Length && buffer[len] == '\0'
    ensures buffer[..len] == Printed(value) <==> value != INT_MIN
  {
    var n := if value < 0 && value != INT_MIN then -value else value;
    len := Backwards(n, buffer);
    if value < 0 {
      buffer[len] := '-';
      len := len + 1;
      assert buffer[..len][..len - 1] == buffer[..len - 1];
    }
    buffer[len] := '\0';
    ghost var tail, was := buffer[len..], buffer[..len];
    Reverse(buffer, len);
    assert buffer[len] == buffer[len..][0] == tail[0];
    LastReversed(was);
    LastPrinted(value);
  }

  lemma {:induction false} LastReversed(s: string)
    requires s != []
    ensures Reversed(s)[|s| - 1] == s[0]
  {
    if |s| > 1 {
      LastReversed(s[..|s| - 1]);
    }
  }

  lemma LastPrinted(value: int)
    ensures Printed(value) != [] && Digit(Printed(value)[|Printed(value)| - 1])
  {
  }

  function Reversed(s: string): (r: string)
    ensures |r| == |s|
  {
    if s == [] then [] else [s[|s| - 1]] + Reversed(s[..|s| - 1])
  }

  lemma ReversedShort(c: char)
    ensures Reversed([]) == [] && Reversed([c]) == [c]
  {
  }

  /** Reverse the first n characters of a buffer in place. */
  method Reverse(buffer: array<char>, n: nat)
    requires n <= buffer.Length
    modifies buffer
    ensures buffer[..n] == Reversed(old(buffer[..n])) && buffer[n..] == old(buffer[n..])
  {
    var i, j := 0, n - 1;
    while i < j
      invariant 0 <= i <= j + 1 && i + j == n - 1
      invariant forall k :: i <= k <= j ==> buffer[k] == old(buffer[k])
      invariant forall k :: 0 <= k < i ==> buffer[k] == old(buffer[n - 1 - k]) && buffer[n - 1 - k] == old(buffer[k])
      invariant buffer[n..] == old(buffer[n..])
    {
      buffer[i], buffer[j] := buffer[j], buffer[i];
      i, j := i + 1, j - 1;
    }
    ReversedIs(old(buffer[..n]), buffer[..n]);
  }

  lemma {:induction false} ReversedIs(s: string, r: string)
    requires |r| == |s| && forall k :: 0 <= k < |s| ==> r[k] == s[|s| - 1 - k]
    ensures r == Reversed(s)
  {
    if s != [] {
      ReversedIs(s[..|s| - 1], r[1..]);
    }
  }

  /** Reading back what was printed gives the number exactly if it is not negative. */
  lemma NumberReadBack(value: int)
    requires INT_MIN <= value <= INT_MAX
    ensures Wrap(Value(Printed(value)[..Digits(Printed(value))])) == value <==> value >= 0
  {
    if value >= 0 {
      var s := Decimal(value);
      DigitsAre(s, |s|);
      assert s[..|s|] == s;
      ValueOfDecimal(value);
    }
  }
}
