/** The Python string operations the backend relies on: `str.strip()`,
    `str.lower()`, `str.title()`, `str.startswith()`, `str(int)`,
    `urllib.parse.quote` and splitting on one separator. Case mapping is the
    ASCII one; whitespace is everything Python's `str.isspace()` accepts. */
module Text {

  // ---------------------------------------------------------------------------
  // Whitespace and str.strip()
  // ---------------------------------------------------------------------------

  /** The characters `str.isspace()` accepts (and `str.strip()` removes). */
  predicate IsSpace(c: char) {
    || '\t' <= c <= '\r'
    || '\U{1c}' <= c <= ' '
    || c == '\U{85}' || c == '\U{a0}' || c == '\U{1680}'
    || '\U{2000}' <= c <= '\U{200a}'
    || c == '\U{2028}' || c == '\U{2029}' || c == '\U{202f}'
    || c == '\U{205f}' || c == '\U{3000}'
  }

  predicate AllSpace(s: string) {
    forall i :: 0 <= i < |s| ==> IsSpace(s[i])
  }

  lemma AllSpaceCons(c: char, t: string)
    requires IsSpace(c) && AllSpace(t)
    ensures AllSpace([c] + t)
  {
    assert forall i :: 0 < i <= |t| ==> ([c] + t)[i] == t[i - 1];
  }

  lemma AllSpaceSnoc(t: string, c: char)
    requires AllSpace(t) && IsSpace(c)
    ensures AllSpace(t + [c])
  {
    assert forall i :: 0 <= i < |t| ==> (t + [c])[i] == t[i];
  }

  /** Neither end of `s` is whitespace. */
  predicate IsStripped(s: string) {
    s == [] || (!IsSpace(s[0]) && !IsSpace(s[|s| - 1]))
  }

  /** `s.lstrip()` */
  function TrimLeft(s: string): (r: string)
    ensures |r| <= |s| && r == s[|s| - |r|..]
    ensures AllSpace(s[..|s| - |r|])
    ensures r != [] ==> !IsSpace(r[0])
  {
    if s != [] && IsSpace(s[0]) then
      var r := TrimLeft(s[1..]);
      assert s[..|s| - |r|] == [s[0]] + s[1..][..|s| - 1 - |r|];
      AllSpaceCons(s[0], s[1..][..|s| - 1 - |r|]);
      r
    else s
  }

  /** `s.rstrip()` */
  function TrimRight(s: string): (r: string)
    ensures |r| <= |s| && r == s[..|r|]
    ensures AllSpace(s[|r|..])
    ensures r != [] ==> !IsSpace(r[|r| - 1])
  {
    if s != [] && IsSpace(s[|s| - 1]) then
      var r := TrimRight(s[..|s| - 1]);
      assert s[|r|..] == s[..|s| - 1][|r|..] + [s[|s| - 1]];
      AllSpaceSnoc(s[..|s| - 1][|r|..], s[|s| - 1]);
      r
    else s
  }

  /** `s.strip()`: no whitespace is left at either end (StripShape says what
      was removed). */
  function Strip(s: string): (r: string)
    ensures IsStripped(r)
  {
    TrimRight(TrimLeft(s))
  }

  /** `s` is whitespace, then `s.strip()`, then whitespace. */
  lemma StripShape(s: string) returns (i: nat, j: nat)
    ensures i <= j <= |s| && Strip(s) == s[i..j]
    ensures AllSpace(s[..i]) && AllSpace(s[j..])
  {
    var t := TrimLeft(s);
    var r := TrimRight(t);
    i, j := |s| - |t|, |s| - |t| + |r|;
    assert t == s[i..];
    assert r == t[..|r|];
    assert r == s[i..j];
    assert s[j..] == t[|r|..];
  }

  lemma {:induction false} TrimLeftPadded(w: string, t: string)
    requires AllSpace(w)
    requires t == [] || !IsSpace(t[0])
    ensures TrimLeft(w + t) == t
  {
    if w != [] {
      assert (w + t)[1..] == w[1..] + t;
      TrimLeftPadded(w[1..], t);
    }
  }

  lemma {:induction false} TrimRightPadded(t: string, w: string)
    requires AllSpace(w)
    requires t == [] || !IsSpace(t[|t| - 1])
    ensures TrimRight(t + w) == t
  {
    if w != [] {
      assert (t + w)[..|t + w| - 1] == t + w[..|w| - 1];
      TrimRightPadded(t, w[..|w| - 1]);
    }
  }

  /** Surrounding whitespace is exactly what `strip()` removes: a stripped
      string padded with whitespace on both sides strips back to itself. */
  lemma StripPadded(w1: string, t: string, w2: string)
    requires AllSpace(w1) && AllSpace(w2) && IsStripped(t)
    ensures Strip(w1 + t + w2) == t
  {
    assert w1 + t + w2 == w1 + (t + w2);
    if t == [] {
      TrimLeftPadded(w1 + w2, []);
      assert w1 + w2 + [] == w1 + w2;
      assert AllSpace(w1 + w2);
      assert TrimLeft(w1 + w2) == [];
    } else {
      TrimLeftPadded(w1, t + w2);
      TrimRightPadded(t, w2);
    }
  }

  /** A string with no whitespace at either end is its own `strip()`. */
  lemma StrippedFixed(s: string)
    requires IsStripped(s)
    ensures Strip(s) == s
  {
    assert [] + s + [] == s;
    StripPadded([], s, []);
  }

  /** `s.strip().strip() == s.strip()` */
  lemma StripIdempotent(s: string)
    ensures Strip(Strip(s)) == Strip(s)
  {
    StrippedFixed(Strip(s));
  }

  // ---------------------------------------------------------------------------
  // Case: str.lower() and str.title() over ASCII letters
  // ---------------------------------------------------------------------------

  predicate IsUpper(c: char) { 'A' <= c <= 'Z' }
  predicate IsLower(c: char) { 'a' <= c <= 'z' }
  predicate IsLetter(c: char) { IsUpper(c) || IsLower(c) }

  function LowerChar(c: char): char {
    if IsUpper(c) then (c as int + 32) as char else c
  }

  function UpperChar(c: char): char {
    if IsLower(c) then (c as int - 32) as char else c
  }

  /** No character of `s` is a capital letter. */
  predicate HasNoUpper(s: string) {
    forall i :: 0 <= i < |s| ==> !IsUpper(s[i])
  }

  /** `s.lower()`: every letter lower-cased, everything else kept. */
  function Lower(s: string): (r: string)
    ensures |r| == |s|
    ensures forall i :: 0 <= i < |r| ==> !IsUpper(r[i])
    ensures forall i :: 0 <= i < |s| && !IsUpper(s[i]) ==> r[i] == s[i]
    ensures forall i :: 0 <= i < |s| ==> UpperChar(r[i]) == UpperChar(s[i])
  {
    seq(|s|, i requires 0 <= i < |s| => LowerChar(s[i]))
  }

  lemma LowerAt(s: string)
    ensures forall i :: 0 <= i < |s| ==> Lower(s)[i] == LowerChar(s[i])
  {
  }

  lemma LowerKeepsSpace(s: string)
    ensures AllSpace(s) ==> AllSpace(Lower(s))
    ensures IsStripped(s) ==> IsStripped(Lower(s))
  {
  }

  lemma LowerConcat(a: string, b: string)
    ensures Lower(a + b) == Lower(a) + Lower(b)
  {
    var l, r := Lower(a + b), Lower(a) + Lower(b);
    forall k | 0 <= k < |l|
      ensures l[k] == r[k]
    {
      if k < |a| {
        assert (a + b)[k] == a[k];
      } else {
        assert (a + b)[k] == b[k - |a|];
      }
    }
  }

  lemma LowerSlices(s: string, i: nat, j: nat)
    requires i <= j <= |s|
    ensures Lower(s) == Lower(s[..i]) + Lower(s[i..j]) + Lower(s[j..])
  {
    var a, b, c := s[..i], s[i..j], s[j..];
    var r := Lower(a) + Lower(b) + Lower(c);
    forall k | 0 <= k < |s|
      ensures r[k] == Lower(s)[k]
    {
      if k < i {
        assert r[k] == Lower(a)[k];
      } else if k < j {
        assert r[k] == Lower(b)[k - i];
      } else {
        assert r[k] == Lower(c)[k - j];
      }
    }
  }

  /** `strip()` and `lower()` commute, so `s.strip().lower()` (the comparators)
      and `s.lower().strip()` (the city table) normalise alike. */
  lemma StripLowerCommute(s: string)
    ensures Strip(Lower(s)) == Lower(Strip(s))
  {
    var i, j := StripShape(s);
    LowerSlices(s, i, j);
    LowerKeepsSpace(s[..i]);
    LowerKeepsSpace(s[i..j]);
    LowerKeepsSpace(s[j..]);
    StripPadded(Lower(s[..i]), Lower(s[i..j]), Lower(s[j..]));
  }

  /** `str.title()` with the word state carried in: `prevCased` says whether the
      character before `s` was a letter. */
  function TitleFrom(s: string, prevCased: bool): (r: string)
    ensures |r| == |s|
  {
    if s == [] then []
    else
      var c := s[0];
      var c' := if !IsLetter(c) then c else if prevCased then LowerChar(c) else UpperChar(c);
      [c'] + TitleFrom(s[1..], IsLetter(c))
  }

  /** What `title()` does at position `i`: a letter that starts a word (no letter
      before it) is upper-cased, any other letter lower-cased, anything else kept. */
  function TitleAt(s: string, i: nat, prevCased: bool): char
    requires i < |s|
  {
    var after := if i == 0 then prevCased else IsLetter(s[i - 1]);
    if !IsLetter(s[i]) then s[i] else if after then LowerChar(s[i]) else UpperChar(s[i])
  }

  lemma {:induction false} TitleFromAt(s: string, prevCased: bool)
    ensures forall i :: 0 <= i < |s| ==> TitleFrom(s, prevCased)[i] == TitleAt(s, i, prevCased)
  {
    if s != [] {
      TitleFromAt(s[1..], IsLetter(s[0]));
      forall i | 0 < i < |s|
        ensures TitleFrom(s, prevCased)[i] == TitleAt(s, i, prevCased)
      {
        assert TitleFrom(s, prevCased)[i] == TitleFrom(s[1..], IsLetter(s[0]))[i - 1];
        assert TitleAt(s[1..], i - 1, IsLetter(s[0])) == TitleAt(s, i, prevCased);
      }
    }
  }

  /** `s.title()` */
  function Title(s: string): (r: string)
    ensures |r| == |s|
    ensures forall i :: 0 <= i < |s| ==> r[i] == TitleAt(s, i, false)
  {
    TitleFromAt(s, false);
    TitleFrom(s, false)
  }

  /** Title-casing changes case only: the title-cased string lower-cases to the
      same string as the original. */
  lemma TitleKeepsLetters(s: string)
    ensures Lower(Title(s)) == Lower(s)
  {
    LowerAt(s);
    LowerAt(Title(s));
    assert forall i :: 0 <= i < |s| ==> Lower(Title(s))[i] == Lower(s)[i];
  }

  /** `s.title().title() == s.title()` */
  lemma TitleIdempotent(s: string)
    ensures Title(Title(s)) == Title(s)
  {
    var t := Title(s);
    forall i | 0 <= i < |s|
      ensures Title(t)[i] == t[i]
    {
      assert IsLetter(t[i]) == IsLetter(s[i]);
      assert i > 0 ==> IsLetter(t[i - 1]) == IsLetter(s[i - 1]);
    }
  }

  // ---------------------------------------------------------------------------
  // str.startswith(), str(int)
  // ---------------------------------------------------------------------------

  predicate StartsWith(s: string, prefix: string) {
    |prefix| <= |s| && s[..|prefix|] == prefix
  }

  predicate EndsWith(s: string, suffix: string) {
    |suffix| <= |s| && s[|s| - |suffix|..] == suffix
  }

  lemma ConcatEnds(a: string, b: string)
    ensures StartsWith(a + b, a) && EndsWith(a + b, b)
  {
    assert (a + b)[..|a|] == a;
    assert (a + b)[|a + b| - |b|..] == b;
  }

  /** A character occurs in a concatenation only if it occurs in a part. */
  lemma ConcatExcludes(a: string, b: string, c: char)
    requires c !in a && c !in b
    ensures c !in a + b
  {
    forall i | 0 <= i < |a + b|
      ensures (a + b)[i] != c
    {
      if i < |a| {
        assert (a + b)[i] == a[i];
      } else {
        assert (a + b)[i] == b[i - |a|];
      }
    }
  }

  predicate IsDigit(c: char) { '0' <= c <= '9' }

  function DigitChar(d: nat): (c: char)
    requires d < 10
    ensures IsDigit(c)
  {
    ('0' as int + d) as char
  }

  /** Decimal digits of `n`, most significant first, no leading zeros. */
  function NatToString(n: nat): (r: string)
    ensures 1 <= |r|
    ensures forall i :: 0 <= i < |r| ==> IsDigit(r[i])
    ensures |r| > 1 ==> r[0] != '0'
  {
    if n < 10 then [DigitChar(n)] else NatToString(n / 10) + [DigitChar(n % 10)]
  }

  /** `str(n)` (also what an f-string prints for an int) */
  function IntToString(n: int): (r: string)
    ensures forall i :: 0 <= i < |r| ==> IsDigit(r[i]) || r[i] == '-'
  {
    if n < 0 then "-" + NatToString(-n) else NatToString(n)
  }

  /** `n` zero-padded on the left to at least `width` digits (`%02d`, `%04d`). */
  function ZeroPad(n: nat, width: nat): (r: string)
    ensures width <= |r|
    ensures forall i :: 0 <= i < |r| ==> IsDigit(r[i])
  {
    var digits := NatToString(n);
    if width <= |digits| then digits else seq(width - |digits|, _ => '0') + digits
  }

  predicate AllDigits(s: string) {
    forall i :: 0 <= i < |s| ==> IsDigit(s[i])
  }

  /** `int(s)` for a string of decimal digits (the empty string reads as 0). */
  function DigitsValue(s: string): (n: nat)
    requires AllDigits(s)
  {
    if s == [] then 0 else DigitsValue(s[..|s| - 1]) * 10 + (s[|s| - 1] as int - '0' as int)
  }

  function Pow10(k: nat): (p: nat)
    ensures 1 <= p
  {
    if k == 0 then 1 else 10 * Pow10(k - 1)
  }

  /** Reading back the digits `str` writes gives the number. */
  lemma {:induction false} NatToStringValue(n: nat)
    ensures DigitsValue(NatToString(n)) == n
  {
    var r := NatToString(n);
    if n >= 10 {
      NatToStringValue(n / 10);
      assert r[..|r| - 1] == NatToString(n / 10);
    }
  }

  /** A number below `10^w` has at most `w` digits. */
  lemma {:induction false} NatToStringLength(n: nat, w: nat)
    requires 1 <= w && n < Pow10(w)
    ensures |NatToString(n)| <= w
  {
    if n >= 10 {
      assert n / 10 < Pow10(w - 1);
      NatToStringLength(n / 10, w - 1);
    }
  }

  lemma {:induction false} DigitsValueConcat(a: string, b: string)
    requires AllDigits(a) && AllDigits(b)
    ensures AllDigits(a + b)
    ensures DigitsValue(a + b) == DigitsValue(a) * Pow10(|b|) + DigitsValue(b)
  {
    if b == [] {
      assert a + b == a;
    } else {
      var p := b[..|b| - 1];
      assert (a + b)[..|a + b| - 1] == a + p;
      DigitsValueConcat(a, p);
      var x, y, d := DigitsValue(a), DigitsValue(p), b[|b| - 1] as int - '0' as int;
      assert DigitsValue(a + b) == DigitsValue(a + p) * 10 + d;
      assert Pow10(|b|) == Pow10(|p|) * 10;
      Distribute(x, Pow10(|p|), y, d);
    }
  }

  lemma Distribute(x: int, q: int, y: int, d: int)
    ensures (x * q + y) * 10 + d == x * (q * 10) + (y * 10 + d)
  {
  }

  lemma {:induction false} ZerosValue(k: nat)
    ensures AllDigits(seq(k, _ => '0')) && DigitsValue(seq(k, _ => '0')) == 0
  {
    if k > 0 {
      assert seq(k, _ => '0')[..k - 1] == seq(k - 1, _ => '0');
      ZerosValue(k - 1);
    }
  }

  /** Zero padding does not change the number the digits denote, and a number
      below `10^w` padded to `w` digits takes exactly `w` characters. */
  lemma ZeroPadValue(n: nat, w: nat)
    ensures DigitsValue(ZeroPad(n, w)) == n
    ensures 1 <= w && n < Pow10(w) ==> |ZeroPad(n, w)| == w
  {
    var digits := NatToString(n);
    NatToStringValue(n);
    if w > |digits| {
      ZerosValue(w - |digits|);
      DigitsValueConcat(seq(w - |digits|, _ => '0'), digits);
    }
    if 1 <= w && n < Pow10(w) {
      NatToStringLength(n, w);
    }
  }

  // ---------------------------------------------------------------------------
  // urllib.parse.quote(s) with its default safe='/'
  // ---------------------------------------------------------------------------

  /** Bytes `quote` never escapes: ASCII letters, digits, `_.-~` and `/`. */
  predicate IsSafeByte(b: int) {
    || ('A' as int <= b <= 'Z' as int) || ('a' as int <= b <= 'z' as int)
    || ('0' as int <= b <= '9' as int)
    || b == '_' as int || b == '.' as int || b == '-' as int || b == '~' as int
    || b == '/' as int
  }

  predicate IsHexUpper(c: char) { IsDigit(c) || 'A' <= c <= 'F' }

  /** Characters that can occur in the output of `quote`. */
  predicate IsQuotedChar(c: char) {
    IsSafeByte(c as int) || c == '%' || IsHexUpper(c)
  }

  function HexDigit(d: nat): (c: char)
    requires d < 16
    ensures IsHexUpper(c)
  {
    if d < 10 then DigitChar(d) else ('A' as int + d - 10) as char
  }

  /** The UTF-8 encoding of one character (a Unicode scalar value). */
  function Utf8(c: char): (bytes: seq<int>)
    ensures 1 <= |bytes| <= 4
    ensures forall i :: 0 <= i < |bytes| ==> 0 <= bytes[i] < 256
    ensures c as int < 0x80 <==> bytes == [c as int]
  {
    var cp := c as int;
    if cp < 0x80 then [cp]
    else if cp < 0x800 then [0xC0 + cp / 0x40, 0x80 + cp % 0x40]
    else if cp < 0x1_0000 then [0xE0 + cp / 0x1000, 0x80 + (cp / 0x40) % 0x40, 0x80 + cp % 0x40]
    else [0xF0 + cp / 0x4_0000, 0x80 + (cp / 0x1000) % 0x40, 0x80 + (cp / 0x40) % 0x40, 0x80 + cp % 0x40]
  }

  /** One byte as `quote` writes it: itself when safe, `%XX` otherwise. */
  function QuoteByte(b: int): (r: string)
    requires 0 <= b < 256
    ensures forall i :: 0 <= i < |r| ==> IsQuotedChar(r[i])
    ensures IsSafeByte(b) ==> r == [b as char]
    ensures !IsSafeByte(b) ==> |r| == 3 && r[0] == '%'
  {
    if IsSafeByte(b) then [b as char] else ['%', HexDigit(b / 16), HexDigit(b % 16)]
  }

  function QuoteBytes(bytes: seq<int>): (r: string)
    requires forall i :: 0 <= i < |bytes| ==> 0 <= bytes[i] < 256
    ensures forall i :: 0 <= i < |r| ==> IsQuotedChar(r[i])
  {
    if bytes == [] then [] else QuoteByte(bytes[0]) + QuoteBytes(bytes[1..])
  }

  /** `urllib.parse.quote(s)`: UTF-8 encode, then escape every unsafe byte. */
  function Quote(s: string): (r: string)
    ensures forall i :: 0 <= i < |r| ==> IsQuotedChar(r[i])
  {
    if s == [] then [] else QuoteBytes(Utf8(s[0])) + Quote(s[1..])
  }

  /** A string made only of safe characters comes out of `quote` unchanged. */
  lemma {:induction false} QuoteSafeUnchanged(s: string)
    requires forall i :: 0 <= i < |s| ==> IsSafeByte(s[i] as int)
    ensures Quote(s) == s
  {
    if s != [] {
      var c := s[0];
      assert c as int < 0x80;
      assert Utf8(c) == [c as int];
      assert QuoteBytes([c as int]) == [c] + QuoteBytes([]);
      QuoteSafeUnchanged(s[1..]);
    }
  }

  /** A quoted string can carry none of the characters that delimit a query
      string, so it cannot add or end a parameter. */
  lemma QuoteIsQueryValue(s: string)
    ensures '&' !in Quote(s) && '=' !in Quote(s) && '#' !in Quote(s) && ' ' !in Quote(s)
  {
  }

  // ---------------------------------------------------------------------------
  // Splitting and joining on one separator character
  // ---------------------------------------------------------------------------

  /** `sep.join(parts)` */
  function Join(parts: seq<string>, sep: char): string
  {
    if |parts| == 0 then ""
    else if |parts| == 1 then parts[0]
    else parts[0] + [sep] + Join(parts[1..], sep)
  }

  /** `s.split(sep)`: the pieces between separators, always at least one. */
  function Split(s: string, sep: char): (parts: seq<string>)
    ensures 1 <= |parts|
  {
    if s == [] then [""]
    else
      var rest := Split(s[1..], sep);
      if s[0] == sep then [""] + rest else [[s[0]] + rest[0]] + rest[1..]
  }

  lemma {:induction false} SplitNoSep(s: string, sep: char)
    requires sep !in s
    ensures Split(s, sep) == [s]
  {
    if s != [] {
      SplitNoSep(s[1..], sep);
      assert [s[0]] + s[1..] == s;
    }
  }

  lemma {:induction false} SplitAtSep(a: string, sep: char, b: string)
    requires sep !in a
    ensures Split(a + [sep] + b, sep) == [a] + Split(b, sep)
  {
    if a == [] {
      assert a + [sep] + b == [sep] + b;
      assert ([sep] + b)[1..] == b;
    } else {
      assert (a + [sep] + b)[1..] == a[1..] + [sep] + b;
      SplitAtSep(a[1..], sep, b);
      assert [a[0]] + a[1..] == a;
    }
  }

  /** Splitting undoes joining when no part holds the separator: a query string
      built by joining its parameters splits back into exactly those parameters. */
  lemma {:induction false} SplitJoin(parts: seq<string>, sep: char)
    requires 1 <= |parts|
    requires forall i :: 0 <= i < |parts| ==> sep !in parts[i]
    ensures Split(Join(parts, sep), sep) == parts
  {
    if |parts| == 1 {
      SplitNoSep(parts[0], sep);
    } else {
      SplitJoin(parts[1..], sep);
      SplitAtSep(parts[0], sep, Join(parts[1..], sep));
      assert [parts[0]] + parts[1..] == parts;
    }
  }

  /** Appending a part: the joined string grows by the separator and the part. */
  lemma {:induction false} JoinSnoc(parts: seq<string>, x: string, sep: char)
    requires 1 <= |parts|
    ensures Join(parts + [x], sep) == Join(parts, sep) + [sep] + x
  {
    if |parts| == 1 {
      assert (parts + [x])[1..] == [x];
    } else {
      assert (parts + [x])[1..] == parts[1..] + [x];
      JoinSnoc(parts[1..], x, sep);
      calc {
        Join(parts + [x], sep);
        parts[0] + [sep] + Join(parts[1..] + [x], sep);
        parts[0] + [sep] + (Join(parts[1..], sep) + [sep] + x);
        (parts[0] + [sep] + Join(parts[1..], sep)) + [sep] + x;
        Join(parts, sep) + [sep] + x;
      }
    }
  }

  /** Extending the last part extends the joined string. */
  lemma {:induction false} JoinExtendLast(parts: seq<string>, t: string, sep: char)
    requires 1 <= |parts|
    ensures Join(parts[..|parts| - 1] + [parts[|parts| - 1] + t], sep) == Join(parts, sep) + t
  {
    var n := |parts|;
    if n == 1 {
      assert parts[..0] + [parts[0] + t] == [parts[0] + t];
    } else {
      var init := parts[..n - 1];
      assert parts == init + [parts[n - 1]];
      JoinSnoc(init, parts[n - 1] + t, sep);
      JoinSnoc(init, parts[n - 1], sep);
    }
  }
}
