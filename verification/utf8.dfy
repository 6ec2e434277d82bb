/** Which byte strings are UTF-8 (section 4 of RFC 3629). */
module Utf8 {

  predicate In(c: char, lo: nat, hi: nat) {
    lo <= c as nat <= hi
  }

  predicate Tail(c: char) {
    In(c, 0x80, 0xBF)
  }

  /** Byte d may follow lead byte c. */
  predicate Second(c: char, d: char) {
    if c as nat == 0xE0 then In(d, 0xA0, 0xBF)
    else if c as nat == 0xED then In(d, 0x80, 0x9F)
    else if c as nat == 0xF0 then In(d, 0x90, 0xBF)
    else if c as nat == 0xF4 then In(d, 0x80, 0x8F)
    else Tail(d)
  }

  /** How many bytes a character takes that begins with c; 0 if none does. */
  function Width(c: char): (k: nat)
    ensures k <= 4
  {
    if In(c, 0, 0x7F) then 1
    else if In(c, 0xC2, 0xDF) then 2
    else if In(c, 0xE0, 0xEF) then 3
    else if In(c, 0xF0, 0xF4) then 4
    else 0
  }

  /** The text begins with a whole character. */
  predicate StartsWhole(s: string)
    requires s != ""
  {
    var k := Width(s[0]);
    && 0 < k <= |s|
    && (k > 1 ==> Second(s[0], s[1]))
    && (k > 2 ==> Tail(s[2]))
    && (k > 3 ==> Tail(s[3]))
  }

  predicate WellFormed(s: string) {
    s == "" || (StartsWhole(s) && WellFormed(s[Width(s[0])..]))
  }

  /** What a reader may put for bytes that are no character. */
  const REPLACEMENT := 0xFFFD

  /** The bytes of a character. */
  function Encoded(code: nat): (s: string)
    requires code <= 0x10_FFFF
    ensures |s| <= 4 && (code < 0x1_0000 ==> |s| <= 3)
  {
    if code < 0x80 then [code as char]
    else if code < 0x800 then [(0xC0 + code / 0x40) as char, Low(code)]
    else if code < 0x1_0000 then [(0xE0 + code / 0x1000) as char, Low(code / 0x40), Low(code)]
    else [(0xF0 + code / 0x4_0000) as char, Low(code / 0x1000), Low(code / 0x40), Low(code)]
  }

  /** The last six bits, in a byte that continues a character. */
  function Low(n: nat): (c: char)
    ensures Tail(c)
  {
    (0x80 + n % 0x40) as char
  }

  lemma EncodedIsWellFormed(code: nat)
    requires code <= 0x10_FFFF && !(0xD800 <= code <= 0xDFFF)
    ensures WellFormed(Encoded(code))
  {
    var s := Encoded(code);
    assert StartsWhole(s) && Width(s[0]) == |s|;
    assert s[|s|..] == "";
  }

  lemma WholeIsWellFormed(s: string)
    requires s != "" && StartsWhole(s)
    ensures WellFormed(s[..Width(s[0])])
  {
    var t := s[..Width(s[0])];
    assert t[0] == s[0] && t[|t|..] == "";
  }

  /** Every byte of a longer character is beyond ASCII. */
  lemma WholeHasHighBytes(s: string)
    requires s != "" && StartsWhole(s)
    ensures Width(s[0]) > 1 ==> forall i :: 0 <= i < Width(s[0]) ==> s[i] as nat >= 0x80
  {
  }

  lemma WholeInLonger(s: string, rest: string)
    requires s != "" && StartsWhole(s)
    ensures StartsWhole(s + rest) && (s + rest)[0] == s[0]
  {
  }

  lemma {:induction false} ConcatIsWellFormed(a: string, b: string)
    requires WellFormed(a) && WellFormed(b)
    ensures WellFormed(a + b)
    decreases |a|
  {
    if a == "" {
      assert a + b == b;
    } else {
      WholeInLonger(a, b);
      assert (a + b)[Width(a[0])..] == a[Width(a[0])..] + b;
      ConcatIsWellFormed(a[Width(a[0])..], b);
    }
  }

  /** What comes before an ASCII byte ends with a whole character. */
  lemma {:induction false} PrefixIsWellFormed(a: string, b: string)
    requires WellFormed(a + b) && b != "" && In(b[0], 0, 0x7F)
    ensures WellFormed(a)
    decreases |a|
  {
    if a != "" {
      var s := a + b;
      var k := Width(s[0]);
      assert s[0] == a[0] && s[|a|] == b[0];
      WholeHasHighBytes(s);
      assert forall i :: 0 <= i < |a| ==> s[i] == a[i];
      assert s[k..] == a[k..] + b;
      PrefixIsWellFormed(a[k..], b);
    }
  }

  lemma {:induction false} DropAscii(s: string, k: nat)
    requires WellFormed(s) && k <= |s| && forall i :: 0 <= i < k ==> In(s[i], 0, 0x7F)
    ensures WellFormed(s[k..])
  {
    if k > 0 {
      assert s[1..][k - 1..] == s[k..];
      DropAscii(s[1..], k - 1);
    }
  }

  lemma {:induction false} AsciiIsWellFormed(s: string)
    requires forall i :: 0 <= i < |s| ==> In(s[i], 0, 0x7F)
    ensures WellFormed(s)
  {
    if s != "" {
      AsciiIsWellFormed(s[1..]);
    }
  }

  /** A text cut short after the first byte of a longer character is not UTF-8, whatever comes before. */
  lemma {:induction false} CutIsIllFormed(s: string)
    requires s != "" && s[|s| - 1] as nat >= 0xC0
    ensures !WellFormed(s)
    decreases |s|
  {
    if StartsWhole(s) && Width(s[0]) < |s| {
      CutIsIllFormed(s[Width(s[0])..]);
    }
  }
}
