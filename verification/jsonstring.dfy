/** Strings of JSON text (section 7 of RFC 8259), read byte by byte.  A strict reader (protojson) wants UTF-8 and paired
    surrogates; a lenient one (encoding/json) puts U+FFFD for whatever is not a character. */
module JsonStrings {
  import opened Text
  import opened Utf8

  /** A byte that stands for itself in a JSON string, or is part of a character that does. */
  predicate Unescaped(c: char) {
    c >= ' ' && c != '"' && c != '\\'
  }

  predicate AllUnescaped(s: string) {
    forall i :: 0 <= i < |s| ==> Unescaped(s[i])
  }

  /** What a JSON string holds as itself: no byte needs an escape, and the bytes are UTF-8 (section 8.1 of RFC 8259). */
  predicate Clean(s: string) {
    AllUnescaped(s) && WellFormed(s)
  }

  // ---------------------------------------------------------------- the reader

  function HexValue(c: char): (r: Option<nat>)
    ensures r.Some? ==> r.value < 0x10
  {
    if '0' <= c <= '9' then Some(c as nat - '0' as nat)
    else if 'a' <= c <= 'f' then Some(c as nat - 'a' as nat + 10)
    else if 'A' <= c <= 'F' then Some(c as nat - 'A' as nat + 10)
    else None
  }

  /** The number that four hexadecimal digits denote. */
  function Hex4(s: string): (r: Option<nat>)
    ensures r.Some? ==> |s| >= 4 && r.value < 0x1_0000
  {
    if |s| < 4 then None
    else
      match (HexValue(s[0]), HexValue(s[1]), HexValue(s[2]), HexValue(s[3]))
      case (Some(a), Some(b), Some(c), Some(d)) => Some(0x1000 * a + 0x100 * b + 0x10 * c + d)
      case _ => None
  }

  predicate Surrogate(h: nat) {
    0xD800 <= h <= 0xDFFF
  }

  /** The character of which h is the first half, if the second half follows. */
  function Paired(h: nat, t: string): (r: Option<nat>)
    ensures r.Some? ==> |t| >= 6 && t[0] == '\\' && t[1] == 'u' && Hex4(t[2..]).Some?
    ensures r.Some? ==> 0x1_0000 <= r.value <= 0x10_FFFF
  {
    if Surrogate(h) && h < 0xDC00 && |t| >= 6 && t[0] == '\\' && t[1] == 'u' then
      match Hex4(t[2..])
      case None => None
      case Some(l) =>
        if 0xDC00 <= l <= 0xDFFF then Some(0x1_0000 + (h - 0xD800) * 0x400 + (l - 0xDC00)) else None
    else None
  }

  function Simple(c: char): Option<char> {
    match c
    case '"' => Some('"')
    case '\\' => Some('\\')
    case '/' => Some('/')
    case 'b' => Some(8 as char)
    case 'f' => Some(12 as char)
    case 'n' => Some('\n')
    case 'r' => Some('\r')
    case 't' => Some('\t')
    case _ => None
  }

  /** What the escape at the start of s stands for, and its length. */
  function Escape(lenient: bool, s: string): (r: Option<(string, nat)>)
    requires s != "" && s[0] == '\\'
    ensures r.Some? ==> 0 < r.value.1 <= |s|
  {
    if |s| < 2 then None
    else if s[1] != 'u' then
      match Simple(s[1])
      case None => None
      case Some(c) => Some(([c], 2))
    else
      match Hex4(s[2..])
      case None => None
      case Some(h) =>
        if !Surrogate(h) then Some((Encoded(h), 6))
        else
          match Paired(h, s[6..])
          case Some(code) => Some((Encoded(code), 12))
          case None => if lenient then Some((Encoded(REPLACEMENT), 6)) else None
  }

  /** What the next piece of a string stands for, and its length. */
  function Piece(lenient: bool, s: string): (r: Option<(string, nat)>)
    requires s != ""
    ensures r.Some? ==> 0 < r.value.1 <= |s|
  {
    if s[0] == '\\' then Escape(lenient, s)
    else if s[0] < ' ' then None
    else if StartsWhole(s) then Some((s[..Width(s[0])], Width(s[0])))
    else if lenient then Some((Encoded(REPLACEMENT), 1))
    else None
  }

  /** After an opening quote: the string, and what follows its closing quote. */
  function ReadString(lenient: bool, s: string): (r: Option<(string, string)>)
    ensures r.Some? ==> |r.value.1| < |s|
    decreases |s|
  {
    if s == "" then None
    else if s[0] == '"' then Some(("", s[1..]))
    else
      match Piece(lenient, s)
      case None => None
      case Some((t, k)) =>
        match ReadString(lenient, s[k..])
        case None => None
        case Some((u, rest)) => Some((t + u, rest))
  }

  // ---------------------------------------------------------------- a clean string is read as itself

  /** A whole character in front of more text. */
  lemma CleanPiece(lenient: bool, s: string, more: string)
    requires s != "" && Clean(s)
    ensures var k := Width(s[0]);
            && 0 < k <= |s| && Piece(lenient, s + more) == Some((s[..k], k))
            && (s + more)[k..] == s[k..] + more && (s + more)[0] == s[0] && Clean(s[k..])
  {
    WholeInLonger(s, more);
    var k := Width(s[0]);
    assert (s + more)[..k] == s[..k];
  }

  lemma {:induction false} ReadClean(lenient: bool, s: string, rest: string)
    requires Clean(s)
    ensures ReadString(lenient, s + ("\"" + rest)) == Some((s, rest))
    decreases |s|
  {
    if s == "" {
      assert s + ("\"" + rest) == "\"" + rest;
    } else {
      var k := Width(s[0]);
      CleanPiece(lenient, s, "\"" + rest);
      ReadClean(lenient, s[k..], rest);
      assert s[..k] + s[k..] == s;
    }
  }

  // ---------------------------------------------------------------- no other string is

  lemma PieceIsWellFormed(lenient: bool, s: string)
    requires s != ""
    ensures Piece(lenient, s).Some? ==> WellFormed(Piece(lenient, s).value.0)
  {
    if StartsWhole(s) {
      WholeIsWellFormed(s);
    }
    EncodedIsWellFormed(REPLACEMENT);
    if s[0] == '\\' && |s| >= 2 && s[1] == 'u' && Hex4(s[2..]).Some? {
      var h := Hex4(s[2..]).value;
      if !Surrogate(h) {
        EncodedIsWellFormed(h);
      } else if Paired(h, s[6..]).Some? {
        EncodedIsWellFormed(Paired(h, s[6..]).value);
      }
    }
  }

  /** Whatever is read is UTF-8. */
  lemma {:induction false} ReadIsWellFormed(lenient: bool, s: string)
    ensures ReadString(lenient, s).Some? ==> WellFormed(ReadString(lenient, s).value.0)
    decreases |s|
  {
    if s != "" && s[0] != '"' {
      PieceIsWellFormed(lenient, s);
      var p := Piece(lenient, s);
      if p.Some? {
        ReadIsWellFormed(lenient, s[p.value.1..]);
        var u := ReadString(lenient, s[p.value.1..]);
        if u.Some? {
          ConcatIsWellFormed(p.value.0, u.value.0);
        }
      }
    }
  }

  /** The first quote of s is at x. */
  predicate FirstQuote(s: string, x: nat) {
    x < |s| && s[x] == '"' && forall i :: 0 <= i < x ==> s[i] != '"'
  }

  lemma HexDigitsAreNoQuotes(s: string)
    requires Hex4(s).Some?
    ensures forall i :: 0 <= i < 4 ==> s[i] != '"' && In(s[i], 0, 0x7F)
  {
  }

  lemma QuoteIsBehind(s: string, x: nat, k: nat)
    requires FirstQuote(s, x) && k <= |s| && forall i :: 0 <= i < k ==> s[i] != '"'
    ensures k <= x && FirstQuote(s[k..], x - k)
  {
  }

  /** The bytes of an escape other than of a quote. */
  lemma EscapeBytes(lenient: bool, s: string)
    requires s != "" && s[0] == '\\' && Escape(lenient, s).Some? && s[1] != '"'
    ensures var (t, k) := Escape(lenient, s).value;
            |t| < k && forall i :: 0 <= i < k ==> s[i] != '"' && In(s[i], 0, 0x7F)
  {
    if s[1] == 'u' {
      HexDigitsAreNoQuotes(s[2..]);
      assert forall i :: 2 <= i < 6 ==> s[i] == s[2..][i - 2];
      if Escape(lenient, s).value.1 == 12 {
        HexDigitsAreNoQuotes(s[6..][2..]);
        assert forall i :: 8 <= i < 12 ==> s[i] == s[6..][2..][i - 8];
        assert s[6] == s[6..][0] && s[7] == s[6..][1];
      }
    }
  }

  /** An escape before the first quote yields less than it takes, unless it escapes that quote. */
  lemma EscapeBeforeQuote(lenient: bool, s: string, x: nat)
    requires FirstQuote(s, x) && x > 0 && s[0] == '\\' && WellFormed(s[..x])
    ensures var r := Escape(lenient, s);
            r.Some? ==>
              var (t, k) := r.value;
              if x == 1 then t == "\"" else |t| < k <= x && FirstQuote(s[k..], x - k) && WellFormed(s[k..x])
  {
    var r := Escape(lenient, s);
    if r.Some? && x > 1 {
      var k := r.value.1;
      EscapeBytes(lenient, s);
      QuoteIsBehind(s, x, k);
      assert forall i :: 0 <= i < k ==> s[..x][i] == s[i];
      DropAscii(s[..x], k);
      assert s[..x][k..] == s[k..x];
    }
  }

  /** So does any piece, unless it stands for itself. */
  lemma PieceBeforeQuote(lenient: bool, s: string, x: nat)
    requires FirstQuote(s, x) && x > 0 && WellFormed(s[..x])
    ensures var r := Piece(lenient, s);
            r.Some? ==>
              var (t, k) := r.value;
              if x == 1 && s[0] == '\\' then t == "\""
              else
                && |t| <= k <= x && FirstQuote(s[k..], x - k) && WellFormed(s[k..x])
                && (|t| == k ==> AllUnescaped(s[..k]))
  {
    assert s[..x][0] == s[0];
    if s[0] == '\\' {
      EscapeBeforeQuote(lenient, s, x);
    } else if s[0] >= ' ' {
      var k := Width(s[0]);
      assert s == s[..x] + s[x..];
      WholeInLonger(s[..x], s[x..]);
      assert forall i :: 0 <= i < k ==> s[..x][i] == s[i];
      WholeHasHighBytes(s);
      QuoteIsBehind(s, x, k);
      assert s[..x][k..] == s[k..x];
    }
  }

  /** What is read, compared with the x bytes before the first quote. */
  ghost predicate ShortOrQuoted(s: string, x: nat, t: string)
    requires x <= |s|
  {
    || (|t| <= x && (|t| == x ==> AllUnescaped(s[..x])))
    || (exists q :: 0 <= q < x && q < |t| && t[q] == '"')
  }

  lemma PieceAndRest(s: string, x: nat, t: string, k: nat, u: string)
    requires |t| <= k <= x <= |s| && (|t| == k ==> AllUnescaped(s[..k]))
    requires ShortOrQuoted(s[k..], x - k, u)
    ensures ShortOrQuoted(s, x, t + u)
  {
    if q :| 0 <= q < x - k && q < |u| && u[q] == '"' {
      assert (t + u)[|t| + q] == '"';
    } else if |t + u| == x {
      assert s[..x] == s[..k] + s[k..][..x - k];
    }
  }

  /** Up to the first quote: what is read is shorter unless all of it stands for itself, or has a quote itself. */
  lemma {:induction false} ReadThroughQuote(lenient: bool, s: string, x: nat)
    requires FirstQuote(s, x) && WellFormed(s[..x])
    ensures var r := ReadString(lenient, s);
            r.Some? ==> ShortOrQuoted(s, x, r.value.0)
    decreases |s|
  {
    if x > 0 {
      assert s[..x][0] == s[0];
      PieceBeforeQuote(lenient, s, x);
      var p, r := Piece(lenient, s), ReadString(lenient, s);
      if r.Some? {
        var (t, k) := p.value;
        if x == 1 && s[0] == '\\' {
          assert r.value.0[0] == '"';
        } else {
          var left := s[k..];
          assert left[..x - k] == s[k..x];
          ReadThroughQuote(lenient, left, x - k);
          PieceAndRest(s, x, t, k, ReadString(lenient, left).value.0);
        }
      }
    }
  }

  lemma {:induction false} SomeFirstQuote(s: string) returns (x: nat)
    requires '"' in s
    ensures FirstQuote(s, x)
  {
    if s[0] == '"' {
      x := 0;
    } else {
      x := SomeFirstQuote(s[1..]);
      x := x + 1;
      assert forall i :: 1 <= i < x ==> s[i] == s[1..][i - 1];
    }
  }

  /** A string that is not clean is never read as itself. */
  lemma ReadOther(lenient: bool, s: string, rest: string)
    requires !Clean(s)
    ensures var r := ReadString(lenient, s + ("\"" + rest)); r.Some? ==> r.value.0 != s
  {
    var text := s + ("\"" + rest);
    ReadIsWellFormed(lenient, text);
    if WellFormed(s) {
      assert text[|s|] == '"';
      var x := SomeFirstQuote(text);
      assert text[..x] == s[..x];
      if x < |s| {
        assert s == s[..x] + s[x..] && s[x..][0] == text[x];
        PrefixIsWellFormed(s[..x], s[x..]);
      } else {
        assert s[..x] == s;
      }
      ReadThroughQuote(lenient, text, x);
      assert forall q :: 0 <= q < x ==> s[q] == text[..x][q];
    }
  }

  // ---------------------------------------------------------------- where the reader ends up

  /** Reading goes on neither with a next member nor to the end of the object. */
  predicate Stuck(rest: string) {
    rest != "}" && (rest == "" || rest[0] != ',')
  }

  /** The next member's key. */
  predicate StartsKey(s: string) {
    |s| >= 2 && s[0] == '"' && s[1] != ',' && s[1] != '}'
  }

  /** Before a key, and without a comma of its own, a string's reader ends behind its closing quote or where nothing
      can be read any more. */
  lemma {:induction false} ReadEnds(lenient: bool, s: string, next: string)
    requires ',' !in s && StartsKey(next)
    ensures var r := ReadString(lenient, s + ("\"," + next));
            r.Some? ==> r.value.1 == "," + next || Stuck(r.value.1)
    decreases |s|
  {
    var text := s + ("\"," + next);
    if s == "" {
      assert text == "\"," + next;
      assert text[1..] == "," + next;
    } else if s[0] == '"' {
      assert text[1..] == s[1..] + ("\"," + next);
      assert text[1..][|s| - 1] == '"';
    } else {
      var p := Piece(lenient, text);
      assert "\"" + ("," + next) == "\"," + next;
      PieceOfString(lenient, s, "," + next);
      if p.Some? {
        var k := p.value.1;
        DropFrom(s, "\"", "," + next, k);
        if k <= |s| {
          ReadEnds(lenient, s[k..], next);
        } else {
          QuotedComma(lenient, next);
        }
      }
    }
  }

  lemma DropFrom(s: string, q: string, rest: string, k: nat)
    requires |q| == 1 && k <= |s| + 1
    ensures (s + (q + rest))[k..] == if k <= |s| then s[k..] + (q + rest) else rest
  {
  }

  /** A piece stays within the string, but for an escape of its closing quote. */
  lemma PieceOfString(lenient: bool, s: string, rest: string)
    requires s != "" && s[0] != '"'
    ensures var r := Piece(lenient, s + ("\"" + rest)); r.Some? ==> r.value.1 <= |s| + 1
  {
    var text := s + ("\"" + rest);
    assert text[|s|] == '"';
    var r := Piece(lenient, text);
    if r.Some? && s[0] == '\\' && text[1] == 'u' {
      HexDigitsAreNoQuotes(text[2..]);
      assert forall i :: 2 <= i < 6 ==> text[i] == text[2..][i - 2];
      if r.value.1 == 12 {
        HexDigitsAreNoQuotes(text[6..][2..]);
        assert forall i :: 8 <= i < 12 ==> text[i] == text[6..][2..][i - 8];
        assert text[6] == text[6..][0] && text[7] == text[6..][1];
      }
    } else if r.Some? && s[0] != '\\' && StartsWhole(text) {
      WholeHasHighBytes(text);
    }
  }

  lemma QuotedComma(lenient: bool, next: string)
    requires StartsKey(next)
    ensures ReadString(lenient, "," + next) == Some((",", next[1..])) && Stuck(next[1..])
  {
    var text := "," + next;
    assert text[0] == ',' && StartsWhole(text) && text[..1] == ",";
    assert text[1..] == next;
    assert "," + "" == ",";
  }
}
