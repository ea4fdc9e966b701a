/** The three `rgb2hex` helpers of the front end, and the regular expressions
    they match with, written as piece patterns read by one greedy matcher. */
module Colour {
  import opened Common
  import opened Text

  /** One piece of an anchored pattern: literal text, literal text whose ASCII
      letters match without regard to case (the `i` flag), `\s*`, or `(\d+)`. */
  datatype Piece = Lit(text: string) | Fold(text: string) | Gap | Num

  function Upper(ch: char): char
  {
    if 'a' <= ch <= 'z' then (ch as int - 32) as char else ch
  }

  /** t equals w with any of w's lowercase letters in upper case. */
  predicate FoldEqual(t: string, w: string)
  {
    |t| == |w| && forall i :: 0 <= i < |w| ==> t[i] == w[i] || t[i] == Upper(w[i])
  }

  /** Which texts a piece matches. */
  predicate Fits(p: Piece, t: string)
  {
    match p
    case Lit(w) => t == w
    case Fold(w) => FoldEqual(t, w)
    case Gap => AllSpaces(t)
    case Num => |t| > 0 && AllDigits(t)
  }

  predicate FitsAll(pat: seq<Piece>, parts: seq<string>)
  {
    |pat| == |parts| && forall i :: 0 <= i < |pat| ==> Fits(pat[i], parts[i])
  }

  function Concat(parts: seq<string>): string
  {
    if parts == [] then [] else parts[0] + Concat(parts[1..])
  }

  /** How many characters a piece takes from the front of s when it is tried:
      greedy for `\s*` and `\d+`. */
  function Take(p: Piece, s: string): nat
  {
    match p
    case Lit(w) => |w|
    case Fold(w) => |w|
    case Gap => SpaceRun(s)
    case Num => DigitRun(s)
  }

  /** Anchored match of a whole string against a pattern, piece by piece and
      without backtracking; on success, the text each piece matched. */
  function Match(pat: seq<Piece>, s: string): (r: Option<seq<string>>)
    ensures r.Some? ==> FitsAll(pat, r.value) && Concat(r.value) == s
    decreases |pat|
  {
    if pat == [] then (if s == [] then Some([]) else None)
    else
      var k := Take(pat[0], s);
      if k > |s| || !Fits(pat[0], s[..k]) then None
      else
        match Match(pat[1..], s[k..])
        case None => None
        case Some(rest) =>
          var r := [s[..k]] + rest;
          assert r[1..] == rest;
          assert s == s[..k] + s[k..];
          assert FitsAll(pat, r) by {
            forall i | 0 <= i < |pat| ensures Fits(pat[i], r[i]) {
              if i > 0 {
                assert Fits(pat[1..][i - 1], rest[i - 1]);
              }
            }
          }
          Some(r)
  }

  /** The piece after a `\s*` cannot begin with whitespace. */
  predicate NoSpaceStart(pat: seq<Piece>)
  {
    || pat == []
    || pat[0].Num?
    || ((pat[0].Lit? || pat[0].Fold?) && |pat[0].text| > 0
        && !IsSpace(pat[0].text[0]) && !IsSpace(Upper(pat[0].text[0])))
  }

  /** What follows a `\d+` cannot begin with a digit, looking through `\s*`. */
  predicate NoDigitStart(pat: seq<Piece>)
    decreases |pat|
  {
    || pat == []
    || ((pat[0].Lit? || pat[0].Fold?) && |pat[0].text| > 0
        && !IsDigit(pat[0].text[0]) && !IsDigit(Upper(pat[0].text[0])))
    || (pat[0].Gap? && NoDigitStart(pat[1..]))
  }

  /** A pattern in which no greedy piece can swallow what the next one needs:
      for such a pattern the greedy match is the regular-expression match. */
  predicate Deterministic(pat: seq<Piece>)
    decreases |pat|
  {
    pat == [] ||
    (Deterministic(pat[1..])
     && (pat[0].Gap? ==> NoSpaceStart(pat[1..]))
     && (pat[0].Num? ==> NoDigitStart(pat[1..])))
  }

  lemma {:induction false} StartsWithoutSpace(pat: seq<Piece>, parts: seq<string>)
    requires FitsAll(pat, parts) && NoSpaceStart(pat)
    ensures Concat(parts) == [] || !IsSpace(Concat(parts)[0])
  {
    if pat != [] {
      assert Fits(pat[0], parts[0]);
      assert Concat(parts)[0] == parts[0][0];
    }
  }

  lemma {:induction false} StartsWithoutDigit(pat: seq<Piece>, parts: seq<string>)
    requires FitsAll(pat, parts) && NoDigitStart(pat)
    ensures Concat(parts) == [] || !IsDigit(Concat(parts)[0])
    decreases |pat|
  {
    if pat != [] {
      assert Fits(pat[0], parts[0]);
      if parts[0] == [] {
        assert Concat(parts) == Concat(parts[1..]);
        assert FitsAll(pat[1..], parts[1..]) by {
          forall i | 0 <= i < |pat| - 1 ensures Fits(pat[1..][i], parts[1..][i]) {
            assert Fits(pat[i + 1], parts[i + 1]);
          }
        }
        StartsWithoutDigit(pat[1..], parts[1..]);
      } else {
        assert Concat(parts)[0] == parts[0][0];
      }
    }
  }

  /** Completeness: every way of writing s as pieces that fit a deterministic
      pattern is the one the matcher finds. With the soundness in Match's
      contract, the matcher accepts exactly the strings of the pattern. */
  lemma {:induction false} MatchComplete(pat: seq<Piece>, parts: seq<string>)
    requires FitsAll(pat, parts) && Deterministic(pat)
    ensures Match(pat, Concat(parts)) == Some(parts)
    decreases |pat|
  {
    if pat != [] {
      var s := Concat(parts);
      var head, tail := parts[0], Concat(parts[1..]);
      assert s == head + tail;
      assert FitsAll(pat[1..], parts[1..]) by {
        forall i | 0 <= i < |pat| - 1 ensures Fits(pat[1..][i], parts[1..][i]) {
          assert Fits(pat[i + 1], parts[i + 1]);
        }
      }
      assert Fits(pat[0], head);
      match pat[0] {
        case Lit(_) =>
        case Fold(_) =>
        case Gap =>
          StartsWithoutSpace(pat[1..], parts[1..]);
          SpaceRunOf(head, tail);
        case Num =>
          StartsWithoutDigit(pat[1..], parts[1..]);
          DigitRunOf(head, tail);
      }
      assert Take(pat[0], s) == |head|;
      assert s[..|head|] == head && s[|head|..] == tail;
      MatchComplete(pat[1..], parts[1..]);
      assert parts == [head] + parts[1..];
    }
  }

  /** `/^rgb\((\d+),\s*(\d+),\s*(\d+)\)$/`: the numbers are pieces 1, 4 and 7. */
  const StrictRgb: seq<Piece> := [Lit("rgb("), Num, Lit(","), Gap, Num, Lit(","), Gap, Num, Lit(")")]

  /** `/^rgb\s*\(\s*(\d+)\s*,\s*(\d+)\s*,\s*(\d+)\s*\)$/i`: numbers at 4, 8 and 12. */
  const LooseRgb: seq<Piece> :=
    [Fold("rgb"), Gap, Lit("("), Gap, Num, Gap, Lit(","), Gap, Num, Gap, Lit(","), Gap, Num, Gap, Lit(")")]

  /** A literal piece whose first character is neither whitespace nor a
      digit, in either case. */
  predicate Plain(x: Piece)
  {
    && (x.Lit? || x.Fold?) && |x.text| > 0
    && !IsSpace(x.text[0]) && !IsSpace(Upper(x.text[0]))
    && !IsDigit(x.text[0]) && !IsDigit(Upper(x.text[0]))
  }

  /** The neighbours of piece i are safe: a `\s*` is followed by a number or a
      plain literal, a `\d+` by a plain literal, possibly after one `\s*`. */
  predicate SafeAt(pat: seq<Piece>, i: nat)
    requires i < |pat|
  {
    && (pat[i].Gap? ==> i + 1 == |pat| || pat[i + 1].Num? || Plain(pat[i + 1]))
    && (pat[i].Num? ==>
          || i + 1 == |pat|
          || Plain(pat[i + 1])
          || (pat[i + 1].Gap? && (i + 2 == |pat| || Plain(pat[i + 2]))))
  }

  /** Local safety everywhere from k on makes the tail from k deterministic. */
  lemma {:induction false} DeterministicFrom(pat: seq<Piece>, k: nat)
    requires k <= |pat|
    requires forall i :: k <= i < |pat| ==> SafeAt(pat, i)
    ensures Deterministic(pat[k..])
    decreases |pat| - k
  {
    if k < |pat| {
      DeterministicFrom(pat, k + 1);
      var t := pat[k..];
      assert t[1..] == pat[k + 1..];
      assert SafeAt(pat, k);
      if k + 1 < |pat| {
        assert t[1..][0] == pat[k + 1];
        if pat[k].Num? && pat[k + 1].Gap? && k + 2 < |pat| {
          assert t[1..][1..] == pat[k + 2..];
          assert pat[k + 2..][0] == pat[k + 2];
        }
      }
    }
  }

  lemma StrictRgbDeterministic()
    ensures Deterministic(StrictRgb)
  {
    assert forall i :: 0 <= i < |StrictRgb| ==> SafeAt(StrictRgb, i);
    DeterministicFrom(StrictRgb, 0);
    assert StrictRgb[0..] == StrictRgb;
  }

  lemma LooseRgbDeterministic()
    ensures Deterministic(LooseRgb)
  {
    assert forall i :: 0 <= i < |LooseRgb| ==> SafeAt(LooseRgb, i);
    DeterministicFrom(LooseRgb, 0);
    assert LooseRgb[0..] == LooseRgb;
  }

  /** `("0" + parseInt(x).toString(16)).slice(-2)`. */
  function ByteText(d: string): string
    requires AllDigits(d)
  {
    LastTwo("0" + Hex(DecimalValue(d)))
  }

  predicate IsHexColour(r: string)
  {
    |r| == 7 && r[0] == '#' && forall i :: 1 <= i < 7 ==> IsHexDigit(r[i])
  }

  lemma ByteTextIsTwoDigits(d: string)
    requires AllDigits(d)
    ensures ByteText(d) == Hex2(DecimalValue(d) % 256)
    ensures IsHexDigit(ByteText(d)[0]) && IsHexDigit(ByteText(d)[1])
  {
    ByteHex(DecimalValue(d));
    Hex2RoundTrip(DecimalValue(d) % 256);
  }

  /** `"#" + hex(r) + hex(g) + hex(b)` with the two-character slice. */
  function HexColour(r: string, g: string, b: string): string
    requires AllDigits(r) && AllDigits(g) && AllDigits(b)
  {
    "#" + ByteText(r) + ByteText(g) + ByteText(b)
  }

  lemma HexColourShape(a: string, b: string, c: string)
    requires |a| == 2 && |b| == 2 && |c| == 2
    requires IsHexDigit(a[0]) && IsHexDigit(a[1]) && IsHexDigit(b[0]) && IsHexDigit(b[1])
    requires IsHexDigit(c[0]) && IsHexDigit(c[1])
    ensures IsHexColour("#" + a + b + c)
  {
    var h := "#" + a + b + c;
    assert h == ['#', a[0], a[1], b[0], b[1], c[0], c[1]];
  }

  lemma HexColourOf(r: string, g: string, b: string)
    requires AllDigits(r) && AllDigits(g) && AllDigits(b)
    ensures HexColour(r, g, b)
         == "#" + Hex2(DecimalValue(r) % 256) + Hex2(DecimalValue(g) % 256) + Hex2(DecimalValue(b) % 256)
    ensures IsHexColour(HexColour(r, g, b))
  {
    ByteTextIsTwoDigits(r);
    ByteTextIsTwoDigits(g);
    ByteTextIsTwoDigits(b);
    HexColourShape(ByteText(r), ByteText(g), ByteText(b));
  }

  /** rgb2hex of js/element.js. The argument is None for null; the empty string
      and strings starting with `#` come back unchanged; a strict `rgb(r,g,b)`
      becomes three two-digit lowercase pairs; anything else `#ffffff`. */
  function Rgb2HexMulti(rgb: Option<string>): (r: Option<string>)
    ensures rgb.None? ==> r.None?
    ensures rgb.Some? && (rgb.value == [] || rgb.value[0] == '#') ==> r == rgb
    ensures rgb.Some? && rgb.value != [] && rgb.value[0] != '#' ==> r.Some? && IsHexColour(r.value)
    ensures rgb.Some? && rgb.value != [] && rgb.value[0] != '#'
            && (forall parts :: FitsAll(StrictRgb, parts) ==> Concat(parts) != rgb.value)
            ==> r == Some("#ffffff")
  {
    match rgb
    case None => None
    case Some(s) =>
      if s == [] || s[0] == '#' then rgb
      else
        match Match(StrictRgb, s)
        case None => Some("#ffffff")
        case Some(p) =>
          assert Fits(StrictRgb[1], p[1]) && Fits(StrictRgb[4], p[4]) && Fits(StrictRgb[7], p[7]);
          HexColourOf(p[1], p[4], p[7]);
          Some(HexColour(p[1], p[4], p[7]))
  }

  /** rgb2hex of js/element-2.js: null, empty and `transparent` give `#ffffff`;
      `#...` comes back unchanged; a loose, case-insensitive `rgb( r , g , b )`
      becomes three two-digit pairs; anything else `#ffffff`. */
  function Rgb2HexSingle(rgb: Option<string>): (r: string)
    ensures rgb.Some? && rgb.value != [] && rgb.value[0] == '#' ==> r == rgb.value
    ensures !(rgb.Some? && rgb.value != [] && rgb.value[0] == '#') ==> IsHexColour(r)
    ensures rgb.None? || rgb.value == [] || rgb.value == "transparent" ==> r == "#ffffff"
    ensures rgb.Some? && rgb.value != [] && rgb.value[0] != '#'
            && (forall parts :: FitsAll(LooseRgb, parts) ==> Concat(parts) != rgb.value)
            ==> r == "#ffffff"
  {
    if rgb.None? || rgb.value == [] || rgb.value == "transparent" then "#ffffff"
    else if rgb.value[0] == '#' then rgb.value
    else
      match Match(LooseRgb, rgb.value)
      case None => "#ffffff"
      case Some(p) =>
        assert Fits(LooseRgb[4], p[4]) && Fits(LooseRgb[8], p[8]) && Fits(LooseRgb[12], p[12]);
        HexColourOf(p[4], p[8], p[12]);
        HexColour(p[4], p[8], p[12])
  }

  /** Any string of the strict form yields its three components, each reduced
      modulo 256 by the two-character slice. */
  lemma Rgb2HexMultiReads(parts: seq<string>)
    requires FitsAll(StrictRgb, parts)
    ensures AllDigits(parts[1]) && AllDigits(parts[4]) && AllDigits(parts[7])
    ensures Rgb2HexMulti(Some(Concat(parts)))
         == Some("#" + Hex2(DecimalValue(parts[1]) % 256) + Hex2(DecimalValue(parts[4]) % 256)
                     + Hex2(DecimalValue(parts[7]) % 256))
  {
    assert Fits(StrictRgb[1], parts[1]) && Fits(StrictRgb[4], parts[4]) && Fits(StrictRgb[7], parts[7]);
    assert Fits(StrictRgb[0], parts[0]);
    assert Concat(parts)[0] == 'r';
    StrictRgbDeterministic();
    MatchComplete(StrictRgb, parts);
    HexColourOf(parts[1], parts[4], parts[7]);
  }

  lemma Rgb2HexSingleReads(parts: seq<string>)
    requires FitsAll(LooseRgb, parts)
    ensures AllDigits(parts[4]) && AllDigits(parts[8]) && AllDigits(parts[12])
    ensures Rgb2HexSingle(Some(Concat(parts)))
         == "#" + Hex2(DecimalValue(parts[4]) % 256) + Hex2(DecimalValue(parts[8]) % 256)
                + Hex2(DecimalValue(parts[12]) % 256)
  {
    assert Fits(LooseRgb[4], parts[4]) && Fits(LooseRgb[8], parts[8]) && Fits(LooseRgb[12], parts[12]);
    assert Fits(LooseRgb[0], parts[0]);
    var s := Concat(parts);
    assert s[0] == parts[0][0];
    assert s != "transparent" by {
      assert parts[0][0] == 'r' || parts[0][0] == 'R';
    }
    LooseRgbDeterministic();
    MatchComplete(LooseRgb, parts);
    HexColourOf(parts[4], parts[8], parts[12]);
  }

  /** `str.match(/\d+/g)`: the maximal runs of digits, left to right. */
  function DigitRuns(s: string): (runs: seq<string>)
    ensures forall i :: 0 <= i < |runs| ==> |runs[i]| > 0 && AllDigits(runs[i])
    decreases |s|
  {
    if s == [] then []
    else if !IsDigit(s[0]) then DigitRuns(s[1..])
    else
      var k := DigitRun(s);
      [s[..k]] + DigitRuns(s[k..])
  }

  /** The runs are maximal: a block of digits with a non-digit or an end of
      the string on either side is one run, whole. With DigitRunsSkip this
      fixes the runs of every string. */
  lemma {:induction false} DigitRunsMaximal(t: string, d: string, u: string)
    requires |d| > 0 && AllDigits(d)
    requires t == [] || !IsDigit(t[|t| - 1])
    requires u == [] || !IsDigit(u[0])
    ensures DigitRuns(t + d + u) == DigitRuns(t) + [d] + DigitRuns(u)
    decreases |t|
  {
    if t == [] {
      assert t + d + u == d + u;
      DigitRunsFront(d, u);
    } else if !IsDigit(t[0]) {
      DigitRunsMaximal(t[1..], d, u);
      MaximalAfterSkip(t[0], t[1..], d, u);
      assert t == [t[0]] + t[1..];
    } else {
      var k := DigitRun(t);
      assert t == t[..k] + t[k..];
      DigitRunsMaximal(t[k..], d, u);
      MaximalAfterRun(t[..k], t[k..], d, u);
    }
  }

  lemma MaximalAfterSkip(c: char, rest: string, d: string, u: string)
    requires !IsDigit(c)
    requires DigitRuns(rest + d + u) == DigitRuns(rest) + [d] + DigitRuns(u)
    ensures DigitRuns([c] + rest + d + u) == DigitRuns([c] + rest) + [d] + DigitRuns(u)
  {
    assert [c] + rest + d + u == [c] + (rest + d + u);
    DigitRunsSkip([c], rest + d + u);
    DigitRunsSkip([c], rest);
  }

  lemma MaximalAfterRun(head: string, rest: string, d: string, u: string)
    requires |head| > 0 && AllDigits(head) && rest != [] && !IsDigit(rest[0])
    requires DigitRuns(rest + d + u) == DigitRuns(rest) + [d] + DigitRuns(u)
    ensures DigitRuns(head + rest + d + u) == DigitRuns(head + rest) + [d] + DigitRuns(u)
  {
    var x := rest + d + u;
    assert x[0] == rest[0];
    JoinFour(head, rest, d, u);
    DigitRunsFront(head, x);
    DigitRunsFront(head, rest);
  }

  lemma JoinFour(a: string, b: string, c: string, e: string)
    ensures a + b + c + e == a + (b + c + e)
  {
  }

  /** The digits of s, in order, with everything else dropped. */
  function DigitsOf(s: string): string
  {
    if s == [] then [] else (if IsDigit(s[0]) then [s[0]] else []) + DigitsOf(s[1..])
  }

  lemma {:induction false} DigitsOfAppend(a: string, b: string)
    ensures DigitsOf(a + b) == DigitsOf(a) + DigitsOf(b)
  {
    if a != [] {
      assert (a + b)[1..] == a[1..] + b;
      DigitsOfAppend(a[1..], b);
    } else {
      assert a + b == b;
    }
  }

  lemma {:induction false} DigitsOfDigits(d: string)
    requires AllDigits(d)
    ensures DigitsOf(d) == d
  {
    if d != [] { DigitsOfDigits(d[1..]); }
  }

  /** The runs lose no digit and add none: joined, they are the digits of s. */
  lemma {:induction false} DigitRunsKeepDigits(s: string)
    ensures Concat(DigitRuns(s)) == DigitsOf(s)
    decreases |s|
  {
    if s != [] {
      if !IsDigit(s[0]) {
        DigitRunsKeepDigits(s[1..]);
      } else {
        var k := DigitRun(s);
        DigitRunsKeepDigits(s[k..]);
        assert s == s[..k] + s[k..];
        DigitsOfAppend(s[..k], s[k..]);
        DigitsOfDigits(s[..k]);
        var runs := DigitRuns(s);
        assert runs == [s[..k]] + DigitRuns(s[k..]);
        assert runs[1..] == DigitRuns(s[k..]);
      }
    }
  }

  lemma {:induction false} DigitRunsSkip(t: string, s: string)
    requires forall i :: 0 <= i < |t| ==> !IsDigit(t[i])
    ensures DigitRuns(t + s) == DigitRuns(s)
  {
    if t != [] {
      assert (t + s)[1..] == t[1..] + s;
      DigitRunsSkip(t[1..], s);
    } else {
      assert t + s == s;
    }
  }

  lemma DigitRunsFront(d: string, s: string)
    requires |d| > 0 && AllDigits(d) && (s == [] || !IsDigit(s[0]))
    ensures DigitRuns(d + s) == [d] + DigitRuns(s)
  {
    DigitRunOf(d, s);
    assert (d + s)[..|d|] == d && (d + s)[|d|..] == s;
  }

  /** rgb2hex of js/textEditor.js: `#...` unchanged; otherwise `#` and every
      run of digits as lowercase hex padded to two digits. None where the
      source throws: a string without digits makes `match` return null, and
      `null.map` raises a TypeError. */
  function Rgb2HexEditor(rgb: string): (r: Option<string>)
    ensures |rgb| > 0 && rgb[0] == '#' ==> r == Some(rgb)
    ensures !(|rgb| > 0 && rgb[0] == '#') ==> (r.None? <==> DigitsOf(rgb) == [])
    ensures !(|rgb| > 0 && rgb[0] == '#') && r.Some? ==> r.value == "#" + PaddedHexAll(DigitRuns(rgb))
  {
    if |rgb| > 0 && rgb[0] == '#' then Some(rgb)
    else
      var runs := DigitRuns(rgb);
      DigitRunsKeepDigits(rgb);
      if runs == [] then None
      else
        assert |runs[0]| > 0 && Concat(runs) == runs[0] + Concat(runs[1..]);
        Some("#" + PaddedHexAll(runs))
  }

  /** `runs.map(x => parseInt(x).toString(16).padStart(2, '0')).join('')`. */
  function PaddedHexAll(runs: seq<string>): (r: string)
    requires forall i :: 0 <= i < |runs| ==> AllDigits(runs[i])
    ensures |r| >= 2 * |runs|
  {
    if runs == [] then [] else PadTwo(Hex(DecimalValue(runs[0]))) + PaddedHexAll(runs[1..])
  }

  /** Runs below 256 give two lowercase hex digits each, in order. */
  lemma {:induction false} PaddedHexAllBytes(runs: seq<string>)
    requires forall i :: 0 <= i < |runs| ==> AllDigits(runs[i]) && DecimalValue(runs[i]) < 256
    ensures |PaddedHexAll(runs)| == 2 * |runs|
    ensures forall i :: 0 <= i < |runs| ==> PaddedHexAll(runs)[2 * i..2 * i + 2] == Hex2(DecimalValue(runs[i]))
  {
    if runs != [] {
      var rest := runs[1..];
      PaddedHexAllBytes(rest);
      PaddedHex(DecimalValue(runs[0]));
      var h, t := Hex2(DecimalValue(runs[0])), PaddedHexAll(rest);
      assert PaddedHexAll(runs) == h + t;
      forall i | 0 <= i < |runs|
        ensures (h + t)[2 * i..2 * i + 2] == Hex2(DecimalValue(runs[i]))
      {
        if i == 0 {
          assert (h + t)[..2] == h;
        } else {
          assert runs[i] == rest[i - 1];
          BlockAfterPair(h, t, i);
        }
      }
    }
  }

  lemma BlockAfterPair(h: string, t: string, i: nat)
    requires |h| == 2 && 0 < i && 2 * i + 2 <= |h| + |t|
    ensures (h + t)[2 * i..2 * i + 2] == t[2 * (i - 1)..2 * (i - 1) + 2]
  {
  }

  /** The editor helper on any string with digits, every run below 256: `#`
      then two hex digits per run, in order. */
  lemma EditorReadsRuns(rgb: string)
    requires rgb == [] || rgb[0] != '#'
    requires DigitsOf(rgb) != []
    requires forall i :: 0 <= i < |DigitRuns(rgb)| ==> DecimalValue(DigitRuns(rgb)[i]) < 256
    ensures var runs := DigitRuns(rgb);
      && Rgb2HexEditor(rgb).Some? && |Rgb2HexEditor(rgb).value| == 1 + 2 * |runs|
      && Rgb2HexEditor(rgb).value[0] == '#'
      && forall i :: 0 <= i < |runs| ==> Rgb2HexEditor(rgb).value[1 + 2 * i..3 + 2 * i] == Hex2(DecimalValue(runs[i]))
  {
    var runs := DigitRuns(rgb);
    PaddedHexAllBytes(runs);
    var p := PaddedHexAll(runs);
    assert Rgb2HexEditor(rgb).value == "#" + p;
    forall i | 0 <= i < |runs|
      ensures ("#" + p)[1 + 2 * i..3 + 2 * i] == Hex2(DecimalValue(runs[i]))
    {
      assert ("#" + p)[1 + 2 * i..3 + 2 * i] == p[2 * i..2 * i + 2];
    }
  }

  /** The colour text a browser reports as a computed style: `rgb(r, g, b)`. */
  function ComputedRgb(r: string, g: string, b: string): string
  {
    Concat(["rgb(", r, ", ", g, ", ", b, ")"])
  }

  lemma ComputedRgbText(r: string, g: string, b: string)
    ensures ComputedRgb(r, g, b) == "rgb(" + (r + (", " + (g + (", " + (b + ")")))))
  {
    ConcatSeven(["rgb(", r, ", ", g, ", ", b, ")"]);
  }

  /** One step of Concat from position k on. */
  lemma ConcatFrom(xs: seq<string>, k: nat)
    requires k < |xs|
    ensures Concat(xs[k..]) == xs[k] + Concat(xs[k + 1..])
  {
    assert xs[k..][1..] == xs[k + 1..];
  }

  lemma ConcatSeven(xs: seq<string>)
    requires |xs| == 7
    ensures Concat(xs) == xs[0] + (xs[1] + (xs[2] + (xs[3] + (xs[4] + (xs[5] + xs[6])))))
  {
    assert xs[0..] == xs;
    ConcatFrom(xs, 0); ConcatFrom(xs, 1); ConcatFrom(xs, 2); ConcatFrom(xs, 3);
    ConcatFrom(xs, 4); ConcatFrom(xs, 5); ConcatFrom(xs, 6);
    assert xs[7..] == [];
  }

  lemma ConcatNine(xs: seq<string>)
    requires |xs| == 9
    ensures Concat(xs) == xs[0] + (xs[1] + (xs[2] + (xs[3] + (xs[4] + (xs[5] + (xs[6] + (xs[7] + xs[8])))))))
  {
    assert xs[0..] == xs;
    ConcatFrom(xs, 0); ConcatFrom(xs, 1); ConcatFrom(xs, 2); ConcatFrom(xs, 3); ConcatFrom(xs, 4);
    ConcatFrom(xs, 5); ConcatFrom(xs, 6); ConcatFrom(xs, 7); ConcatFrom(xs, 8);
    assert xs[9..] == [];
  }

  /** A comma and a space as two pieces read the same as one. */
  lemma CommaSpace(x: string)
    ensures "," + (" " + x) == ", " + x
  {
  }

  /** The computed colour text split along the strict pattern. */
  lemma StrictParts(r: string, g: string, b: string)
    requires |r| > 0 && |g| > 0 && |b| > 0 && AllDigits(r) && AllDigits(g) && AllDigits(b)
    ensures var parts := ["rgb(", r, ",", " ", g, ",", " ", b, ")"];
      FitsAll(StrictRgb, parts) && Concat(parts) == ComputedRgb(r, g, b)
  {
    var parts := ["rgb(", r, ",", " ", g, ",", " ", b, ")"];
    assert IsSpace(' ');
    assert AllSpaces(" ");
    ConcatNine(parts);
    ComputedRgbText(r, g, b);
    CommaSpace(b + ")");
    CommaSpace(g + (", " + (b + ")")));
  }

  /** The strict helper reads any computed colour, each component reduced
      modulo 256. */
  lemma MultiOnComputed(r: string, g: string, b: string)
    requires |r| > 0 && |g| > 0 && |b| > 0 && AllDigits(r) && AllDigits(g) && AllDigits(b)
    ensures Rgb2HexMulti(Some(ComputedRgb(r, g, b)))
         == Some("#" + Hex2(DecimalValue(r) % 256) + Hex2(DecimalValue(g) % 256) + Hex2(DecimalValue(b) % 256))
  {
    var parts := ["rgb(", r, ",", " ", g, ",", " ", b, ")"];
    StrictParts(r, g, b);
    Rgb2HexMultiReads(parts);
    assert parts[1] == r && parts[4] == g && parts[7] == b;
  }

  /** The padding helper gives the same text as the slicing ones (compare
      MultiOnComputed) on every computed colour with components below 256;
      above 255 it keeps every digit instead (see PaddedHex). */
  lemma EditorOnComputed(r: string, g: string, b: string)
    requires |r| > 0 && |g| > 0 && |b| > 0 && AllDigits(r) && AllDigits(g) && AllDigits(b)
    requires DecimalValue(r) < 256 && DecimalValue(g) < 256 && DecimalValue(b) < 256
    ensures Rgb2HexEditor(ComputedRgb(r, g, b))
         == Some("#" + Hex2(DecimalValue(r)) + Hex2(DecimalValue(g)) + Hex2(DecimalValue(b)))
  {
    var s := ComputedRgb(r, g, b);
    EditorRuns(r, g, b);
    ComputedRgbText(r, g, b);
    assert s[0] == 'r';
    PaddedThree(r, g, b);
    var x, y, z := Hex2(DecimalValue(r)), Hex2(DecimalValue(g)), Hex2(DecimalValue(b));
    assert "#" + (x + (y + z)) == "#" + x + y + z;
  }

  lemma PaddedThree(r: string, g: string, b: string)
    requires AllDigits(r) && AllDigits(g) && AllDigits(b)
    requires DecimalValue(r) < 256 && DecimalValue(g) < 256 && DecimalValue(b) < 256
    ensures PaddedHexAll([r, g, b]) == Hex2(DecimalValue(r)) + (Hex2(DecimalValue(g)) + Hex2(DecimalValue(b)))
  {
    PaddedHex(DecimalValue(r));
    PaddedHex(DecimalValue(g));
    PaddedHex(DecimalValue(b));
    assert [r, g, b][1..] == [g, b] && [g, b][1..] == [b];
    assert PaddedHexAll([b]) == Hex2(DecimalValue(b)) + [];
    assert Hex2(DecimalValue(b)) + [] == Hex2(DecimalValue(b));
  }

  lemma EditorRuns(r: string, g: string, b: string)
    requires |r| > 0 && |g| > 0 && |b| > 0 && AllDigits(r) && AllDigits(g) && AllDigits(b)
    ensures DigitRuns(ComputedRgb(r, g, b)) == [r, g, b]
  {
    var t := b + ")";
    DigitRunsSkip(")", []);
    assert ")" + [] == ")";
    DigitRunsFront(b, ")");
    DigitRunsSkip(", ", t);
    DigitRunsFront(g, ", " + t);
    var u := g + (", " + t);
    DigitRunsSkip(", ", u);
    DigitRunsFront(r, ", " + u);
    DigitRunsSkip("rgb(", r + (", " + u));
    ComputedRgbText(r, g, b);
  }

  /** The computed form of a colour with an alpha channel, as
      getComputedStyle reports it: `rgba(r, g, b, a)`. */
  function ComputedRgba(r: string, g: string, b: string, a: string): string
  {
    "rgba(" + (r + (", " + (g + (", " + (b + (", " + (a + ")")))))))
  }

  /** The first three digit runs of a computed `rgba(r, g, b, a)` colour
      are r, g and b; the alpha's digits come after them. */
  lemma RgbaRuns(r: string, g: string, b: string, a: string)
    requires |r| > 0 && |g| > 0 && |b| > 0 && AllDigits(r) && AllDigits(g) && AllDigits(b)
    ensures DigitRuns(ComputedRgba(r, g, b, a)) == [r, g, b] + DigitRuns(a + ")")
  {
    var t := ", " + (a + ")");
    DigitRunsSkip(", ", a + ")");
    DigitRunsFront(b, t);
    DigitRunsSkip(", ", b + t);
    var u := g + (", " + (b + t));
    DigitRunsFront(g, ", " + (b + t));
    DigitRunsSkip(", ", u);
    DigitRunsFront(r, ", " + u);
    DigitRunsSkip("rgba(", r + (", " + u));
  }
}
