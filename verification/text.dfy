/** Byte strings as the agent prints and re-reads them.  Every `char` of a text stands for one byte. */
module Text {

  datatype Option<+T> = None | Some(value: T) {
    function GetOr(default: T): T {
      if Some? then value else default
    }
  }

  type Byte = x: int | 0 <= x < 256

  // ---------------------------------------------------------------- sequences

  lemma TakeSnoc<T>(s: seq<T>, i: nat)
    requires i < |s|
    ensures s[..i + 1] == s[..i] + [s[i]]
  {
  }

  lemma TakeAll<T>(s: seq<T>)
    ensures s[..|s|] == s
  {
  }

  lemma ConcatAssoc<T>(a: seq<T>, b: seq<T>, c: seq<T>)
    ensures a + b + c == a + (b + c)
  {
  }

  // ---------------------------------------------------------------- decimal digits

  predicate IsDigit(c: char) {
    '0' <= c <= '9'
  }

  predicate AllDigits(s: string) {
    forall i :: 0 <= i < |s| ==> IsDigit(s[i])
  }

  function DigitChar(d: nat): char
    requires d < 10
  {
    '0' + d as char
  }

  function DigitValue(c: char): nat
    requires IsDigit(c)
  {
    c as nat - '0' as nat
  }

  function Pow10(k: nat): nat {
    if k == 0 then 1 else 10 * Pow10(k - 1)
  }

  /** strconv.FormatUint(n, 10) */
  function FormatUint(n: nat): string {
    if n < 10 then [DigitChar(n)] else FormatUint(n / 10) + [DigitChar(n % 10)]
  }

  /** strconv.FormatInt(n, 10) */
  function FormatInt(n: int): string {
    if n < 0 then "-" + FormatUint(-n) else FormatUint(n)
  }

  /** The number a digit string denotes. */
  function DigitsValue(s: string): nat
    requires AllDigits(s)
  {
    if s == [] then 0 else 10 * DigitsValue(s[..|s| - 1]) + DigitValue(s[|s| - 1])
  }

  const MAX_INT64: int := 0x7fff_ffff_ffff_ffff
  const MIN_INT64: int := -0x8000_0000_0000_0000

  /** strconv.Atoi on a 64-bit platform: an optional sign, then at least one digit, in the range of int64. */
  function Atoi(s: string): Option<int> {
    var negative := |s| > 0 && s[0] == '-';
    var digits := if |s| > 0 && (s[0] == '-' || s[0] == '+') then s[1..] else s;
    if digits == [] || !AllDigits(digits) then None
    else
      var m: int := DigitsValue(digits);
      var n := if negative then -m else m;
      if MIN_INT64 <= n <= MAX_INT64 then Some(n) else None
  }

  lemma {:induction false} FormatUintIsDigits(n: nat)
    ensures |FormatUint(n)| >= 1
    ensures AllDigits(FormatUint(n))
    ensures DigitsValue(FormatUint(n)) == n
  {
    if n >= 10 {
      FormatUintIsDigits(n / 10);
      var s := FormatUint(n);
      assert s[..|s| - 1] == FormatUint(n / 10);
    } else {
      var s := FormatUint(n);
      assert s[..|s| - 1] == [];
    }
  }

  lemma {:induction false} DigitsValueBound(s: string)
    requires AllDigits(s)
    ensures DigitsValue(s) < Pow10(|s|)
  {
    if s != [] {
      DigitsValueBound(s[..|s| - 1]);
    }
  }

  /** How many digits a number prints with. */
  lemma {:induction false} FormatUintLength(n: nat, k: nat)
    requires k >= 1
    ensures |FormatUint(n)| <= k <==> n < Pow10(k)
  {
    if n < 10 {
      Pow10Monotone(1, k);
    } else if k == 1 {
      FormatUintIsDigits(n / 10);
    } else {
      FormatUintLength(n / 10, k - 1);
    }
  }

  lemma {:induction false} Pow10Monotone(j: nat, k: nat)
    requires j <= k
    ensures Pow10(j) <= Pow10(k)
  {
    if j < k {
      Pow10Monotone(j, k - 1);
    }
  }

  /** Printing then parsing is the identity exactly on the numbers that fit an int64. */
  lemma AtoiInvertsFormatUint(n: nat)
    ensures Atoi(FormatUint(n)) == if n <= MAX_INT64 then Some(n) else None
  {
    FormatUintIsDigits(n);
  }

  lemma AtoiInvertsFormatInt(n: int)
    requires MIN_INT64 <= n <= MAX_INT64
    ensures Atoi(FormatInt(n)) == Some(n)
  {
    if n < 0 {
      var digits := FormatUint(-n);
      FormatUintIsDigits(-n);
      assert ("-" + digits)[1..] == digits;
    } else {
      AtoiInvertsFormatUint(n);
    }
  }

  // ---------------------------------------------------------------- occurrences of one byte

  function Count(s: string, c: char): nat {
    if s == [] then 0 else (if s[0] == c then 1 else 0) + Count(s[1..], c)
  }

  lemma {:induction false} CountConcat(a: string, b: string, c: char)
    ensures Count(a + b, c) == Count(a, c) + Count(b, c)
  {
    if a == [] {
      assert a + b == b;
    } else {
      assert (a + b)[1..] == a[1..] + b;
      CountConcat(a[1..], b, c);
    }
  }

  lemma {:induction false} CountZero(s: string, c: char)
    ensures Count(s, c) == 0 <==> c !in s
  {
    if s != [] {
      CountZero(s[1..], c);
      assert s == [s[0]] + s[1..];
    }
  }

  // ---------------------------------------------------------------- bytes.Buffer, as a text cursor

  /** What Buffer.Next(n) returns, and what it leaves unread. */
  function Front(s: string, n: nat): string {
    if n <= |s| then s[..n] else s
  }

  function After(s: string, n: nat): string {
    if n <= |s| then s[n..] else []
  }

  /** The text through the first `c`, or all of it: what Buffer.ReadBytes(c) returns. */
  function Line(s: string, c: char): string {
    if s == [] then [] else if s[0] == c then [c] else [s[0]] + Line(s[1..], c)
  }

  lemma {:induction false} LineIsPrefix(s: string, c: char)
    ensures |Line(s, c)| <= |s| && Line(s, c) == s[..|Line(s, c)|]
    ensures c in s ==> |Line(s, c)| > 0 && Line(s, c)[|Line(s, c)| - 1] == c && c !in Line(s, c)[..|Line(s, c)| - 1]
    ensures c !in s ==> Line(s, c) == s
  {
    if s != [] && s[0] != c {
      LineIsPrefix(s[1..], c);
      var t := Line(s[1..], c);
      assert s == [s[0]] + s[1..];
      assert s[..|t| + 1] == [s[0]] + s[1..][..|t|];
      if c in s {
        assert ([s[0]] + t)[..|t|] == [s[0]] + t[..|t| - 1];
      }
    }
  }

  lemma {:induction false} LineOfTerminated(v: string, c: char, rest: string)
    requires c !in v
    ensures Line(v + [c] + rest, c) == v + [c]
  {
    if v == [] {
      assert v + [c] + rest == [c] + rest;
    } else {
      assert (v + [c] + rest)[1..] == v[1..] + [c] + rest;
      LineOfTerminated(v[1..], c, rest);
    }
  }

  /** A line never reaches beyond the first `c`, wherever that is. */
  lemma LineOfPrefix(v: string, c: char, rest: string)
    requires c in v
    ensures Line(v + rest, c) == Line(v, c)
  {
    if v[0] != c {
      assert (v + rest)[1..] == v[1..] + rest;
      LineOfPrefix(v[1..], c, rest);
    }
  }

  lemma CountOfLine(s: string, c: char)
    ensures Count(Line(s, c), c) <= 1
  {
  }
}
