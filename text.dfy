/** String helpers with JavaScript's meaning: the `\s` / `trim()` whitespace set,
    ASCII decimal digits, parseInt on a digit string and Number#toString(16). */
module Text {

  /** ECMAScript WhiteSpace and LineTerminator code points: what `\s` matches
      and what String.prototype.trim removes. */
  predicate IsSpace(ch: char)
  {
    ch == '\t' || ch == '\n' || ch == '\U{000B}' || ch == '\U{000C}' || ch == '\r' || ch == ' '
    || ch == '\U{00A0}' || ch == '\U{1680}' || ('\U{2000}' <= ch <= '\U{200A}')
    || ch == '\U{2028}' || ch == '\U{2029}' || ch == '\U{202F}' || ch == '\U{205F}'
    || ch == '\U{3000}' || ch == '\U{FEFF}'
  }

  predicate AllSpaces(s: string) { forall i :: 0 <= i < |s| ==> IsSpace(s[i]) }

  /** `\d`: ASCII digits only. */
  predicate IsDigit(ch: char) { '0' <= ch <= '9' }

  predicate AllDigits(s: string) { forall i :: 0 <= i < |s| ==> IsDigit(s[i]) }

  /** A string with no whitespace at either end. */
  predicate Trimmed(s: string) { s == [] || (!IsSpace(s[0]) && !IsSpace(s[|s| - 1])) }

  /** Length of the longest prefix of s made of whitespace. */
  function SpaceRun(s: string): (k: nat)
    ensures k <= |s| && AllSpaces(s[..k]) && (k == |s| || !IsSpace(s[k]))
  {
    if s == [] || !IsSpace(s[0]) then 0 else 1 + SpaceRun(s[1..])
  }

  /** Length of the longest prefix of s made of digits. */
  function DigitRun(s: string): (k: nat)
    ensures k <= |s| && AllDigits(s[..k]) && (k == |s| || !IsDigit(s[k]))
  {
    if s == [] || !IsDigit(s[0]) then 0 else 1 + DigitRun(s[1..])
  }

  /** The greedy run is the whole of a whitespace block that is followed by a
      non-space: this is why `\s*` never has to backtrack in front of one. */
  lemma {:induction false} SpaceRunOf(g: string, t: string)
    requires AllSpaces(g) && (t == [] || !IsSpace(t[0]))
    ensures SpaceRun(g + t) == |g|
  {
    if g != [] {
      assert (g + t)[1..] == g[1..] + t;
      SpaceRunOf(g[1..], t);
    } else {
      assert g + t == t;
    }
  }

  lemma {:induction false} DigitRunOf(d: string, t: string)
    requires AllDigits(d) && (t == [] || !IsDigit(t[0]))
    ensures DigitRun(d + t) == |d|
  {
    if d != [] {
      assert (d + t)[1..] == d[1..] + t;
      DigitRunOf(d[1..], t);
    } else {
      assert d + t == t;
    }
  }

  /** Whitespace removed from the front. */
  function TrimStart(s: string): (r: string)
    ensures r == s[SpaceRun(s)..]
    ensures r == [] || !IsSpace(r[0])
  {
    s[SpaceRun(s)..]
  }

  /** Length of the longest suffix of s made of whitespace. */
  function TrailingSpaces(s: string): (k: nat)
    ensures k <= |s| && AllSpaces(s[|s| - k..]) && (k == |s| || !IsSpace(s[|s| - k - 1]))
  {
    if s == [] || !IsSpace(s[|s| - 1]) then 0
    else
      var k := TrailingSpaces(s[..|s| - 1]);
      assert s[..|s| - 1][|s| - 1 - k..] == s[|s| - 1 - k..|s| - 1];
      1 + k
  }

  /** String.prototype.trim. */
  function Trim(s: string): (r: string)
  {
    var t := TrimStart(s);
    t[..|t| - TrailingSpaces(t)]
  }

  /** Slicing a suffix is slicing the whole string further on. */
  lemma SliceOfSuffix(s: string, i: nat, j: nat)
    requires i <= |s| && j <= |s| - i
    ensures s[i..][..j] == s[i..i + j] && s[i..][j..] == s[i + j..]
  {
  }

  /** Cutting whitespace off the back of a string that starts with a
      non-space leaves no whitespace at either end. */
  lemma TrimmedPrefix(t: string, k: nat)
    requires k <= |t| && (t == [] || !IsSpace(t[0])) && (k == |t| || !IsSpace(t[|t| - k - 1]))
    ensures Trimmed(t[..|t| - k])
  {
    var r := t[..|t| - k];
    if r != [] {
      assert r[0] == t[0] && r[|r| - 1] == t[|t| - k - 1];
    }
  }

  /** trim() keeps a middle slice of its input, drops only whitespace around
      it and leaves no whitespace at either end. */
  lemma TrimShape(s: string)
    ensures var r, i := Trim(s), SpaceRun(s);
      i + |r| <= |s| && s[i..i + |r|] == r && AllSpaces(s[..i]) && AllSpaces(s[i + |r|..])
    ensures Trimmed(Trim(s))
  {
    var i := SpaceRun(s);
    var t := TrimStart(s);
    var k := TrailingSpaces(t);
    SliceOfSuffix(s, i, |t| - k);
    TrimmedPrefix(t, k);
  }

  /** trim() of a string with no outer whitespace is that string. */
  lemma TrimOfTrimmed(s: string)
    requires Trimmed(s)
    ensures Trim(s) == s
  {
  }

  lemma TrimIdempotent(s: string)
    ensures Trim(Trim(s)) == Trim(s)
  {
    TrimShape(s);
    TrimOfTrimmed(Trim(s));
  }

  /** A non-space-bounded middle surrounded by whitespace trims to the middle. */
  lemma TrimUnique(g: string, m: string, h: string)
    requires AllSpaces(g) && AllSpaces(h) && Trimmed(m)
    ensures Trim(g + m + h) == m
  {
    var s := g + m + h;
    if m == [] {
      assert s == g + h;
      assert AllSpaces(s);
      SpaceRunOf(s, []);
      assert s + [] == s;
    } else {
      SpaceRunOf(g, m + h);
      assert s == g + (m + h);
      assert TrimStart(s) == m + h;
      TrailingRunOf(m, h);
    }
  }

  lemma {:induction false} TrailingRunOf(t: string, h: string)
    requires AllSpaces(h) && (t == [] || !IsSpace(t[|t| - 1]))
    ensures TrailingSpaces(t + h) == |h|
  {
    if h != [] {
      var h' := h[..|h| - 1];
      assert (t + h)[..|t + h| - 1] == t + h';
      TrailingRunOf(t, h');
    } else {
      assert t + h == t;
    }
  }

  /** Whitespace followed by whitespace is whitespace. */
  lemma AllSpacesAppend(a: string, b: string)
    requires AllSpaces(a) && AllSpaces(b)
    ensures AllSpaces(a + b)
  {
  }

  /** A string is its front, a middle slice and its back. */
  lemma SplitAround(s: string, i: nat, n: nat)
    requires i + n <= |s|
    ensures s == s[..i] + s[i..i + n] + s[i + n..]
  {
  }

  /** A string with a middle picked out, padded on both sides, regrouped
      around that middle. */
  lemma Regroup(g: string, a: string, m: string, b: string, h: string)
    ensures g + (a + m + b) + h == (g + a) + m + (b + h)
  {
  }

  /** trim() gives the empty string exactly for blank strings. */
  lemma TrimEmpty(s: string)
    ensures Trim(s) == [] <==> AllSpaces(s)
  {
    if Trim(s) == [] {
      TrimShape(s);
      var i := SpaceRun(s);
      AllSpacesAppend(s[..i], s[i..]);
      assert s[..i] + s[i..] == s;
    }
    if AllSpaces(s) {
      assert s == s + [] + [];
      TrimUnique(s, [], []);
    }
  }

  /** trim() ignores whitespace added at either end. */
  lemma TrimPadded(g: string, s: string, h: string)
    requires AllSpaces(g) && AllSpaces(h)
    ensures Trim(g + s + h) == Trim(s)
  {
    TrimShape(s);
    var m, i := Trim(s), SpaceRun(s);
    var a, b := s[..i], s[i + |m|..];
    AllSpacesAppend(g, a);
    AllSpacesAppend(b, h);
    SplitAround(s, i, |m|);
    Regroup(g, a, m, b, h);
    TrimUnique(g + a, m, b + h);
  }

  /** Value of a decimal digit. */
  function DigitValue(ch: char): nat requires IsDigit(ch) { (ch as int - '0' as int) as nat }

  /** parseInt(d, 10) for a string of decimal digits (leading zeros allowed). */
  function DecimalValue(d: string): nat
    requires AllDigits(d)
  {
    if d == [] then 0 else DecimalValue(d[..|d| - 1]) * 10 + DigitValue(d[|d| - 1])
  }

  /** A lowercase hexadecimal digit character. */
  function HexDigit(n: nat): (ch: char)
    requires n < 16
  {
    if n < 10 then ('0' as int + n) as char else ('a' as int + n - 10) as char
  }

  predicate IsHexDigit(ch: char) { '0' <= ch <= '9' || 'a' <= ch <= 'f' }

  function HexDigitValue(ch: char): (n: nat)
    requires IsHexDigit(ch)
    ensures n < 16
  {
    if ch <= '9' then (ch as int - '0' as int) as nat else (ch as int - 'a' as int + 10) as nat
  }

  lemma HexDigitRoundTrip(n: nat)
    requires n < 16
    ensures IsHexDigit(HexDigit(n)) && HexDigitValue(HexDigit(n)) == n
  {
  }

  /** Number#toString(16) on a non-negative integer: lowercase, no leading zeros. */
  function Hex(n: nat): (h: string)
    ensures |h| >= 1 && (forall i :: 0 <= i < |h| ==> IsHexDigit(h[i]))
    ensures |h| > 1 ==> h[0] != '0'
    ensures h[|h| - 1] == HexDigit(n % 16)
  {
    if n < 16 then [HexDigit(n)] else Hex(n / 16) + [HexDigit(n % 16)]
  }

  /** Reading hexadecimal digits back. */
  function HexValue(h: string): nat
    requires forall i :: 0 <= i < |h| ==> IsHexDigit(h[i])
  {
    if h == [] then 0 else HexValue(h[..|h| - 1]) * 16 + HexDigitValue(h[|h| - 1])
  }

  /** toString(16) loses nothing. */
  lemma {:induction false} HexRoundTrip(n: nat)
    ensures HexValue(Hex(n)) == n
  {
    HexDigitRoundTrip(n % 16);
    if n >= 16 {
      HexRoundTrip(n / 16);
      var h := Hex(n);
      assert h[..|h| - 1] == Hex(n / 16);
    }
  }

  /** Exactly two hex digits for a byte value. */
  function Hex2(b: nat): (h: string)
    requires b < 256
    ensures |h| == 2
  {
    [HexDigit(b / 16), HexDigit(b % 16)]
  }

  lemma Hex2RoundTrip(b: nat)
    requires b < 256
    ensures forall i :: 0 <= i < 2 ==> IsHexDigit(Hex2(b)[i])
    ensures HexValue(Hex2(b)) == b
  {
    var h := Hex2(b);
    HexDigitRoundTrip(b / 16);
    HexDigitRoundTrip(b % 16);
    assert h[..1][..0] == [];
    assert h[..1] == [HexDigit(b / 16)];
    assert h[..|h| - 1] == h[..1];
    assert HexValue(h[..1]) == b / 16;
    assert HexValue(h) == (b / 16) * 16 + b % 16;
  }

  /** `("0" + s).slice(-2)`: the last two characters, or everything when shorter. */
  function LastTwo(t: string): (r: string)
  {
    if |t| >= 2 then t[|t| - 2..] else t
  }

  /** `("0" + n.toString(16)).slice(-2)` keeps the two lowest hex digits, that is
      the byte n mod 256 written with exactly two digits. */
  lemma ByteHex(n: nat)
    ensures LastTwo("0" + Hex(n)) == Hex2(n % 256)
  {
    if n < 16 {
      OneDigitByteHex(n);
    } else {
      ManyDigitByteHex(n);
    }
  }

  lemma OneDigitByteHex(n: nat)
    requires n < 16
    ensures LastTwo("0" + Hex(n)) == Hex2(n % 256)
  {
    assert n % 256 == n && n / 16 == 0 && n % 16 == n;
    assert Hex(n) == [HexDigit(n)];
    assert Hex2(n) == [HexDigit(0), HexDigit(n)];
  }

  lemma ManyDigitByteHex(n: nat)
    requires n >= 16
    ensures LastTwo("0" + Hex(n)) == Hex2(n % 256)
  {
    var q, lo := Hex(n / 16), HexDigit(n % 16);
    assert Hex(n) == q + [lo];
    LastTwoOf(q, lo);
    LowByte(n);
    var m := n % 256;
    assert Hex2(m) == [HexDigit(m / 16), HexDigit(m % 16)];
  }

  /** The last two characters once a digit is appended to a non-empty text. */
  lemma LastTwoOf(q: string, d: char)
    requires |q| >= 1
    ensures LastTwo("0" + (q + [d])) == [q[|q| - 1], d]
  {
    var t := "0" + (q + [d]);
    assert t[|t| - 2..] == [t[|t| - 2], t[|t| - 1]];
  }

  lemma LowByte(n: nat)
    ensures (n % 256) / 16 == (n / 16) % 16 && (n % 256) % 16 == n % 16
  {
    var a := n / 256;
    var b := n % 256;
    assert n == 256 * a + b;
    assert n / 16 == 16 * a + b / 16;
    assert n % 16 == b % 16;
  }

  /** `padStart(2, '0')`. */
  function PadTwo(s: string): (r: string)
    ensures |r| >= 2 && |r| >= |s|
  {
    if |s| >= 2 then s else seq(2 - |s|, _ => '0') + s
  }

  /** `n.toString(16).padStart(2, '0')` agrees with the two-digit form below 256
      and keeps every digit above it. */
  lemma PaddedHex(n: nat)
    ensures n < 256 ==> PadTwo(Hex(n)) == Hex2(n)
    ensures n >= 256 ==> PadTwo(Hex(n)) == Hex(n) && |Hex(n)| > 2
  {
    if n < 16 {
    } else if n < 256 {
      assert Hex(n / 16) == [HexDigit(n / 16)];
    } else {
      assert Hex(n / 16) == Hex(n / 16 / 16) + [HexDigit((n / 16) % 16)];
    }
  }
}
