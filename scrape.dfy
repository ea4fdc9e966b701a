/** The response shaping of the `/scrape` and `/stream-image` routes in
    tes-api/api/app.js: the url check, the article text and image list,
    the thumbnail, the cleaning of the model's reply and the choice of
    titles and body. The page is given already parsed and the model's
    reply as text. */
module Scrape {
  import opened Common
  import opened Text

  /** A carriage return or line feed: what `[\r\n]` matches. */
  predicate IsBreak(ch: char)
  {
    ch == '\r' || ch == '\n'
  }

  /** Index of the first break in `w`. */
  function FirstBreak(w: string): (r: Option<nat>)
    ensures r.Some? ==> r.value < |w| && IsBreak(w[r.value]) && forall i :: 0 <= i < r.value ==> !IsBreak(w[i])
    ensures r.None? ==> forall i :: 0 <= i < |w| ==> !IsBreak(w[i])
  {
    if w == [] then None
    else if IsBreak(w[0]) then Some(0)
    else
      var r := FirstBreak(w[1..]);
      if r.Some? then Some(r.value + 1) else None
  }

  /** Index of the last break in `w`. */
  function LastBreak(w: string): (r: Option<nat>)
    ensures r.Some? ==> r.value < |w| && IsBreak(w[r.value]) && forall i :: r.value < i < |w| ==> !IsBreak(w[i])
    ensures r.None? ==> forall i :: 0 <= i < |w| ==> !IsBreak(w[i])
  {
    if w == [] then None
    else if IsBreak(w[|w| - 1]) then Some(|w| - 1)
    else LastBreak(w[..|w| - 1])
  }

  /** How much of `w` the pattern `\s*[\r\n]+` takes from its front: the
      longest whitespace prefix that ends in a break, or 0 if none does. */
  function BreakCut(w: string): (n: nat)
    ensures n <= SpaceRun(w) && AllSpaces(w[..n])
    ensures n > 0 ==> IsBreak(w[n - 1])
    ensures forall i :: n <= i < SpaceRun(w) ==> !IsBreak(w[i])
  {
    var k := SpaceRun(w);
    var b := LastBreak(w[..k]);
    if b.Some? then b.value + 1 else 0
  }

  const Fence: string := "```"
  const FenceJson: string := "```json"

  predicate StartsWith(s: string, p: string)
  {
    |p| <= |s| && s[..|p|] == p
  }

  /** What `/^```(?:json)?\s*[\r\n]+/` removes from the front of `s`: the
      fence, `json` when it follows, and whitespace up to the last line
      break of the run; 0 when it does not match. */
  function OpeningFence(s: string): (n: nat)
    ensures n <= |s|
    ensures n > 0 ==> StartsWith(s, Fence) && IsBreak(s[n - 1])
    ensures !StartsWith(s, Fence) ==> n == 0
    ensures StartsWith(s, Fence) ==>
      var l := if StartsWith(s, FenceJson) then 7 else 3;
      && (n > 0 <==> exists i :: l <= i < l + SpaceRun(s[l..]) && IsBreak(s[i]))
      && (n > 0 ==> l < n && AllSpaces(s[l..n]))
      && forall i :: n <= i < l + SpaceRun(s[l..]) && l <= i ==> !IsBreak(s[i])
  {
    if StartsWith(s, Fence) then
      var l := if StartsWith(s, FenceJson) then 7 else 3;
      var c := BreakCut(s[l..]);
      OpeningAfter(s, l, c);
      if c > 0 then l + c else 0
    else 0
  }

  /** The cut taken after the fence (and tag), read back in `s`. */
  lemma OpeningAfter(s: string, l: nat, c: nat)
    requires l <= |s| && c == BreakCut(s[l..])
    ensures c > 0 ==> AllSpaces(s[l..l + c]) && IsBreak(s[l + c - 1])
    ensures c > 0 <==> exists i :: l <= i < l + SpaceRun(s[l..]) && IsBreak(s[i])
    ensures forall i :: (if c > 0 then l + c else 0) <= i < l + SpaceRun(s[l..]) && l <= i ==> !IsBreak(s[i])
  {
    var w := s[l..];
    assert w[..c] == s[l..l + c];
    if c > 0 {
      assert IsBreak(s[l + c - 1]);
    } else {
      forall i | l <= i < l + SpaceRun(w)
        ensures !IsBreak(s[i])
      {
        assert s[i] == w[i - l];
      }
    }
  }

  /** Where `/[\r\n]+\s*```$/` starts in `s`, or `|s|` when it does not
      match: the first break of the whitespace run in front of a closing
      fence. */
  function ClosingFence(s: string): (n: nat)
    ensures n <= |s|
    ensures n < |s| ==> n <= |s| - 3 && IsBreak(s[n]) && AllSpaces(s[n..|s| - 3]) && s[|s| - 3..] == Fence
    ensures !(|s| >= 3 && s[|s| - 3..] == Fence) ==> n == |s|
    ensures |s| >= 3 && s[|s| - 3..] == Fence ==>
      forall i :: 0 <= i < n && i <= |s| - 3 ==> !(IsBreak(s[i]) && AllSpaces(s[i..|s| - 3]))
  {
    if |s| >= 3 && s[|s| - 3..] == Fence then
      var body := s[..|s| - 3];
      var k := TrailingSpaces(body);
      var b := FirstBreak(body[|body| - k..]);
      var n := if b.Some? then |body| - k + b.value else |s|;
      ClosingAtBreak(s, k, b, n);
      ClosingFirst(s, k, b, n);
      n
    else |s|
  }

  lemma ClosingAtBreak(s: string, k: nat, b: Option<nat>, n: nat)
    requires |s| >= 3 && k == TrailingSpaces(s[..|s| - 3])
    requires b == FirstBreak(s[..|s| - 3][|s| - 3 - k..])
    requires n == if b.Some? then |s| - 3 - k + b.value else |s|
    ensures n < |s| ==> n <= |s| - 3 && IsBreak(s[n]) && AllSpaces(s[n..|s| - 3])
  {
    var body := s[..|s| - 3];
    if b.Some? {
      assert s[n..|s| - 3] == body[|body| - k..][b.value..];
    }
  }

  lemma ClosingFirst(s: string, k: nat, b: Option<nat>, n: nat)
    requires |s| >= 3 && s[|s| - 3..] == Fence && k == TrailingSpaces(s[..|s| - 3])
    requires b == FirstBreak(s[..|s| - 3][|s| - 3 - k..])
    requires n == if b.Some? then |s| - 3 - k + b.value else |s|
    ensures forall i :: 0 <= i < n && i <= |s| - 3 ==> !(IsBreak(s[i]) && AllSpaces(s[i..|s| - 3]))
  {
    var body := s[..|s| - 3];
    var tail := body[|body| - k..];
    forall i | 0 <= i < n && i <= |s| - 3
      ensures !(IsBreak(s[i]) && AllSpaces(s[i..|s| - 3]))
    {
      if i < |body| - k {
        var j := |body| - k - 1;
        assert s[i..|s| - 3][j - i] == body[j];
      } else if i < |body| {
        assert s[i] == tail[i - (|body| - k)];
      } else {
        assert s[i] == Fence[0];
      }
    }
  }

  /** The two fence removals and the second trim, on a reply that is
      already trimmed: they apply only when it starts with a fence. */
  function Unfence(t: string): (r: string)
    requires Trimmed(t)
    ensures Trimmed(r)
    ensures !StartsWith(t, Fence) ==> r == t
  {
    if StartsWith(t, Fence) then
      var a := t[OpeningFence(t)..];
      TrimShape(a[..ClosingFence(a)]);
      Trim(a[..ClosingFence(a)])
    else t
  }

  /** cleanJsonText: trimmed; a reply that starts with a fence also loses
      its opening fence line and its closing fence, and is trimmed again. */
  function CleanJsonText(text: string): (r: string)
    ensures Trimmed(r)
    ensures !StartsWith(Trim(text), Fence) ==> r == Trim(text)
  {
    TrimShape(text);
    Unfence(Trim(text))
  }

  /** The opening fence line in front of a body that starts with a
      non-space is the fence, the tag and the one line break. */
  lemma OpeningOfFenced(tag: string, rest: string)
    requires tag == "json" || tag == ""
    requires rest != [] && !IsSpace(rest[0])
    ensures OpeningFence(Fence + tag + "\n" + rest) == |tag| + 4
  {
    var t := Fence + tag + "\n" + rest;
    var w := "\n" + rest;
    CutAfterBreak(rest);
    if tag == "json" {
      assert t == FenceJson + w;
      assert t[..7] == FenceJson && t[7..] == w;
    } else {
      assert t == Fence + w;
      assert t[..3] == Fence && t[3..] == w;
      assert t[3] == '\n';
      assert !StartsWith(t, FenceJson) by {
        assert FenceJson[3] == 'j';
      }
    }
  }

  /** The whitespace-and-break run in front of a non-space is the one break. */
  lemma CutAfterBreak(rest: string)
    requires rest != [] && !IsSpace(rest[0])
    ensures BreakCut("\n" + rest) == 1
  {
    var w := "\n" + rest;
    SpaceRunOf("\n", rest);
    assert w[..1] == "\n";
    assert LastBreak("\n") == Some(0);
  }

  /** The closing fence after a body that ends with a non-space starts at
      the line break that follows the body. */
  lemma ClosingOfFenced(body: string)
    requires body != [] && !IsSpace(body[|body| - 1])
    ensures ClosingFence(body + "\n" + Fence) == |body|
  {
    var s := body + "\n" + Fence;
    var front := body + "\n";
    assert s[..|s| - 3] == front && s[|s| - 3..] == Fence;
    TrailingRunOf(body, "\n");
    assert front[|front| - 1..] == "\n";
    assert FirstBreak("\n") == Some(0);
  }

  /** A fenced body with no whitespace around it is cleaned to the body. */
  lemma CleanFenced(tag: string, body: string)
    requires tag == "json" || tag == ""
    requires body != [] && Trimmed(body)
    ensures CleanJsonText(Fence + tag + "\n" + body + "\n" + Fence) == body
  {
    var rest := body + "\n" + Fence;
    var t := Fence + tag + "\n" + rest;
    assert Fence + tag + "\n" + body + "\n" + Fence == t;
    OpeningOfFenced(tag, rest);
    ClosingOfFenced(body);
    CleanAround(t, |tag| + 4, body);
  }

  /** A trimmed reply whose opening fence line is `n` long and whose rest
      is the body, a line break and the closing fence is cleaned to the
      body. */
  lemma CleanAround(t: string, n: nat, body: string)
    requires n <= |t| && t[n..] == body + "\n" + Fence
    requires StartsWith(t, Fence) && t[|t| - 1] == '`' && OpeningFence(t) == n
    requires ClosingFence(body + "\n" + Fence) == |body| && Trimmed(body)
    ensures CleanJsonText(t) == body
  {
    FencedTrimmed(t);
    TrimOfTrimmed(t);
    UnfenceAround(t, n, body);
  }

  /** A reply that starts and ends with a backtick has no whitespace to trim. */
  lemma FencedTrimmed(t: string)
    requires StartsWith(t, Fence) && t[|t| - 1] == '`'
    ensures Trimmed(t)
  {
    assert |Fence| == 3 && Fence[0] == '`';
    assert t[..3] == Fence;
    assert t[0] == t[..3][0];
  }

  lemma UnfenceAround(t: string, n: nat, body: string)
    requires Trimmed(t)
    requires n <= |t| && t[n..] == body + "\n" + Fence
    requires StartsWith(t, Fence) && OpeningFence(t) == n
    requires ClosingFence(body + "\n" + Fence) == |body| && Trimmed(body)
    ensures Unfence(t) == body
  {
    var a := t[n..];
    assert a[..|body|] == body;
    TrimOfTrimmed(body);
  }

  /** The usual fenced reply, with `json` after the opening fence or not
      and whitespace around it, is cleaned to exactly its body. */
  lemma CleanFencedReply(g: string, tag: string, body: string, h: string)
    requires AllSpaces(g) && AllSpaces(h)
    requires tag == "json" || tag == ""
    requires body != [] && Trimmed(body)
    ensures CleanJsonText(g + (Fence + tag + "\n" + body + "\n" + Fence) + h) == body
  {
    var t := Fence + tag + "\n" + body + "\n" + Fence;
    TrimPadded(g, t, h);
    CleanFenced(tag, body);
  }

  /** Texts each followed by a line feed, in order. */
  function Lined(ts: seq<string>): string
  {
    if ts == [] then [] else ts[0] + "\n" + Lined(ts[1..])
  }

  lemma {:induction false} LinedAppend(ts: seq<string>, t: string)
    ensures Lined(ts + [t]) == Lined(ts) + t + "\n"
    decreases |ts|
  {
    if ts == [] {
      assert [] + [t] == [t];
      assert Lined([t]) == t + "\n" + Lined([]);
    } else {
      assert (ts + [t])[1..] == ts[1..] + [t];
      LinedAppend(ts[1..], t);
    }
  }

  /** The article text: each paragraph's text trimmed and followed by a
      line feed, in order. */
  function ContentOf(ps: seq<string>): string
  {
    Lined(TrimEach(ps))
  }

  lemma ContentAppend(ps: seq<string>, p: string)
    ensures ContentOf(ps + [p]) == ContentOf(ps) + Trim(p) + "\n"
  {
    assert TrimEach(ps + [p]) == TrimEach(ps) + [Trim(p)];
    LinedAppend(TrimEach(ps), Trim(p));
  }

  lemma TakeOneMore(xs: seq<string>, i: nat)
    requires i < |xs|
    ensures xs[..i + 1] == xs[..i] + [xs[i]]
  {
  }

  /** The `originalContent +=` loop over the article's paragraphs. */
  method CollectContent(paragraphs: seq<string>) returns (content: string)
    ensures content == ContentOf(paragraphs)
  {
    content := "";
    var i := 0;
    while i < |paragraphs|
      invariant 0 <= i <= |paragraphs|
      invariant content == ContentOf(paragraphs[..i])
    {
      TakeOneMore(paragraphs, i);
      ContentAppend(paragraphs[..i], paragraphs[i]);
      content := content + Trim(paragraphs[i]) + "\n";
      i := i + 1;
    }
    assert paragraphs[..i] == paragraphs;
  }

  /** Index of the first line feed in `s`. */
  function LineEnd(s: string): (r: Option<nat>)
    ensures r.Some? ==> r.value < |s| && s[r.value] == '\n' && '\n' !in s[..r.value]
    ensures r.None? ==> '\n' !in s
  {
    if s == [] then None
    else if s[0] == '\n' then Some(0)
    else
      var r := LineEnd(s[1..]);
      if r.Some? then
        assert s[..r.value + 1] == [s[0]] + s[1..][..r.value];
        Some(r.value + 1)
      else
        assert s == [s[0]] + s[1..];
        None
  }

  /** A text cut into the lines each line feed ends (a last line without
      one is kept as it is). */
  function Lines(s: string): seq<string>
    decreases |s|
  {
    var e := LineEnd(s);
    if s == [] then []
    else if e.None? then [s]
    else [s[..e.value]] + Lines(s[e.value + 1..])
  }

  function TrimEach(ps: seq<string>): (r: seq<string>)
    ensures |r| == |ps| && forall i :: 0 <= i < |ps| ==> r[i] == Trim(ps[i])
  {
    if ps == [] then [] else [Trim(ps[0])] + TrimEach(ps[1..])
  }

  /** Texts without line feeds of their own read back line by line. */
  lemma {:induction false} LinesOfLined(ts: seq<string>)
    requires forall i :: 0 <= i < |ts| ==> '\n' !in ts[i]
    ensures Lines(Lined(ts)) == ts
    decreases |ts|
  {
    if ts != [] {
      var t, rest := ts[0], Lined(ts[1..]);
      var s := t + "\n" + rest;
      assert Lined(ts) == s;
      assert s[|t|] == '\n' && s[..|t|] == t;
      assert LineEnd(s) == Some(|t|);
      assert s[|t| + 1..] == rest;
      LinesOfLined(ts[1..]);
      assert ts == [t] + ts[1..];
    }
  }

  /** The article text reads back, line by line, as the trimmed
      paragraphs, as long as no paragraph holds a line feed of its own. */
  lemma ContentLines(ps: seq<string>)
    requires forall i :: 0 <= i < |ps| ==> '\n' !in Trim(ps[i])
    ensures Lines(ContentOf(ps)) == TrimEach(ps)
  {
    LinesOfLined(TrimEach(ps));
  }

  /** An `img` element's `data-src` and `src` attributes (`None` when
      absent). */
  datatype Img = Img(dataSrc: Option<string>, src: Option<string>)

  /** `getAttribute('data-src') || getAttribute('src')`, kept only when it
      is a non-empty string. */
  function SrcOf(img: Img): (r: Option<string>)
    ensures r.Some? ==> r.value != []
    ensures r.Some? ==> r == img.dataSrc || r == img.src
    ensures img.dataSrc.Some? && img.dataSrc.value != [] ==> r == img.dataSrc
    ensures r.None? ==> (img.dataSrc.None? || img.dataSrc.value == []) && (img.src.None? || img.src.value == [])
  {
    if img.dataSrc.Some? && img.dataSrc.value != [] then img.dataSrc
    else if img.src.Some? && img.src.value != [] then img.src
    else None
  }

  /** The image list after the `push` loop over the first `|imgs|` images:
      a source is added when it is new. */
  function Kept(imgs: seq<Img>): seq<string>
  {
    if imgs == [] then []
    else
      var k := Kept(imgs[..|imgs| - 1]);
      var s := SrcOf(imgs[|imgs| - 1]);
      if s.Some? && s.value !in k then k + [s.value] else k
  }

  /** Some image of the list has source `s`. */
  predicate Occurs(imgs: seq<Img>, s: string)
  {
    exists i :: 0 <= i < |imgs| && SrcOf(imgs[i]) == Some(s)
  }

  /** The list holds exactly the sources that occur, each once. */
  lemma {:induction false} KeptExactlyOnce(imgs: seq<Img>)
    ensures forall s :: s in Kept(imgs) <==> Occurs(imgs, s)
    ensures forall i, j :: 0 <= i < j < |Kept(imgs)| ==> Kept(imgs)[i] != Kept(imgs)[j]
    decreases |imgs|
  {
    if imgs != [] {
      var front := imgs[..|imgs| - 1];
      KeptExactlyOnce(front);
      forall s
        ensures s in Kept(imgs) <==> Occurs(imgs, s)
      {
        if Occurs(imgs, s) {
          var i :| 0 <= i < |imgs| && SrcOf(imgs[i]) == Some(s);
          if i < |front| {
            assert front[i] == imgs[i];
          }
        }
        if Occurs(front, s) {
          var i :| 0 <= i < |front| && SrcOf(front[i]) == Some(s);
          assert imgs[i] == front[i];
        }
      }
    }
  }

  /** Position of the first image whose source is `s`. */
  function FirstAt(imgs: seq<Img>, s: string): (i: nat)
    requires Occurs(imgs, s)
    ensures i < |imgs| && SrcOf(imgs[i]) == Some(s)
    ensures forall j :: 0 <= j < i ==> SrcOf(imgs[j]) != Some(s)
  {
    if SrcOf(imgs[0]) == Some(s) then 0
    else
      var i :| 0 <= i < |imgs| && SrcOf(imgs[i]) == Some(s);
      assert imgs[1..][i - 1] == imgs[i];
      1 + FirstAt(imgs[1..], s)
  }

  lemma FirstAtFront(front: seq<Img>, last: Img, s: string)
    requires Occurs(front, s)
    ensures Occurs(front + [last], s) && FirstAt(front + [last], s) == FirstAt(front, s)
  {
    var imgs := front + [last];
    var i := FirstAt(front, s);
    assert imgs[i] == front[i];
  }

  /** The list is in the order in which sources first occur. */
  lemma {:induction false} KeptInFirstOrder(imgs: seq<Img>)
    ensures forall s :: s in Kept(imgs) ==> Occurs(imgs, s)
    ensures forall i, j :: 0 <= i < j < |Kept(imgs)| ==> FirstAt(imgs, Kept(imgs)[i]) < FirstAt(imgs, Kept(imgs)[j])
    decreases |imgs|
  {
    KeptExactlyOnce(imgs);
    if imgs != [] {
      var front := imgs[..|imgs| - 1];
      var last := imgs[|imgs| - 1];
      assert imgs == front + [last];
      KeptInFirstOrder(front);
      KeptExactlyOnce(front);
      var k := Kept(front);
      forall s | s in k
        ensures FirstAt(imgs, s) == FirstAt(front, s)
      {
        FirstAtFront(front, last, s);
      }
      var s := SrcOf(last);
      if s.Some? && s.value !in k {
        assert !Occurs(front, s.value);
        assert FirstAt(imgs, s.value) == |front|;
      }
    }
  }

  /** The `images.push` loop, with `includes` as the duplicate test. */
  method CollectImages(imgs: seq<Img>) returns (images: seq<string>)
    ensures images == Kept(imgs)
  {
    images := [];
    var i := 0;
    while i < |imgs|
      invariant 0 <= i <= |imgs|
      invariant images == Kept(imgs[..i])
    {
      assert imgs[..i + 1][..i] == imgs[..i];
      var src := SrcOf(imgs[i]);
      if src.Some? && src.value !in images {
        images := images + [src.value];
      }
      i := i + 1;
    }
    assert imgs[..i] == imgs;
  }

  /** The thumbnail: the source of the first `img` in the `a.mg-blog-thumb`
      anchor, or the empty string. `anchor` is `None` without the anchor and
      `Some(None)` for an anchor without an image. */
  function Thumbnail(anchor: Option<Option<Img>>): (r: string)
    ensures r != [] <==> anchor.Some? && anchor.value.Some? && SrcOf(anchor.value.value).Some?
    ensures r != [] ==> SrcOf(anchor.value.value) == Some(r)
  {
    if anchor.Some? && anchor.value.Some? && SrcOf(anchor.value.value).Some? then SrcOf(anchor.value.value).value
    else ""
  }

  /** A parsed JSON value. */
  datatype Json =
    | JNull
    | JBool(b: bool)
    | JNumber(n: real)
    | JString(s: string)
    | JArray(items: seq<Json>)
    | JObject(fields: map<string, Json>)

  /** JavaScript truthiness of a parsed value. */
  predicate Truthy(v: Json)
  {
    match v
    case JNull => false
    case JBool(b) => b
    case JNumber(n) => n != 0.0
    case JString(s) => s != []
    case JArray(_) => true
    case JObject(_) => true
  }

  /** What reading a property of a parsed value gives: a throw on `null`,
      `undefined` on a missing key or a value without properties. */
  datatype Read = Throws | Undefined | Has(v: Json)

  function Field(v: Json, key: string): (r: Read)
    ensures r.Throws? <==> v.JNull?
  {
    match v
    case JNull => Throws
    case JObject(f) => if key in f then Has(f[key]) else Undefined
    case _ => Undefined
  }

  /** `j.trim()` for every entry; `None` when an entry is not a string
      (its `trim` is not a function and the call throws). */
  function TrimStrings(items: seq<Json>): (r: Option<seq<string>>)
    ensures r.Some? <==> forall i :: 0 <= i < |items| ==> items[i].JString?
    ensures r.Some? ==> |r.value| == |items| && forall i :: 0 <= i < |items| ==> r.value[i] == Trim(items[i].s)
  {
    if items == [] then Some([])
    else if !items[0].JString? then None
    else
      var rest := TrimStrings(items[1..]);
      if rest.None? then None
      else
        ConsIndex(Trim(items[0].s), rest.value);
        Some([Trim(items[0].s)] + rest.value)
  }

  /** Past the head, a consed sequence reads as its tail. */
  lemma ConsIndex<T>(x: T, xs: seq<T>)
    ensures forall i :: 1 <= i <= |xs| ==> ([x] + xs)[i] == xs[i - 1]
  {
  }

  /** `filter(j => j.length > 0)`. */
  function NonEmpty(xs: seq<string>): (r: seq<string>)
    ensures |r| <= |xs|
    ensures |r| == |xs| <==> forall i :: 0 <= i < |xs| ==> xs[i] != []
    ensures |r| == |xs| ==> r == xs
  {
    if xs == [] then []
    else if xs[0] == [] then NonEmpty(xs[1..])
    else [xs[0]] + NonEmpty(xs[1..])
  }

  /** The title candidates from the parsed reply; `None` when computing
      them throws. */
  function ChooseTitles(parsed: Json, originalTitle: string): Option<seq<string>>
  {
    var j := Field(parsed, "judul");
    if j.Throws? then None
    else if j.Has? && j.v.JArray? && |j.v.items| == 3 then
      var ts := TrimStrings(j.v.items);
      if ts.None? then None
      else
        var kept := NonEmpty(ts.value);
        Some(if |kept| != 3 then [originalTitle] else kept)
    else if j.Has? && j.v.JString? && Trim(j.v.s) != [] then Some([Trim(j.v.s)])
    else Some([originalTitle])
  }

  /** The body from the parsed reply; `None` when computing it throws. */
  function ChooseIsi(parsed: Json, originalContent: string): Option<string>
  {
    var i := Field(parsed, "isi");
    if i.Throws? then None
    else if !(i.Has? && Truthy(i.v)) then Some(originalContent)
    else if !i.v.JString? then None
    else if Trim(i.v.s) != [] then Some(i.v.s)
    else Some(originalContent)
  }

  /** The `judul` and `isi` of the response. */
  datatype Shaped = Shaped(judul: seq<string>, isi: string)

  /** The parse, title and body steps inside their `try`: any throw, a
      failed parse included, gives the original title and an empty body. */
  function Shape(parsed: Option<Json>, originalTitle: string, originalContent: string): (r: Shaped)
    ensures |r.judul| == 1 || |r.judul| == 3
    ensures r.judul == [originalTitle] || forall i :: 0 <= i < |r.judul| ==> r.judul[i] != [] && Trimmed(r.judul[i])
    ensures r.isi == originalContent || r.isi == [] || (parsed.Some? && Field(parsed.value, "isi") == Has(JString(r.isi)))
  {
    if parsed.None? then Shaped([originalTitle], "")
    else
      var t := ChooseTitles(parsed.value, originalTitle);
      var i := ChooseIsi(parsed.value, originalContent);
      if t.None? || i.None? then Shaped([originalTitle], "")
      else
        ShapedTitles(parsed.value, originalTitle);
        Shaped(t.value, i.value)
  }

  lemma ShapedTitles(parsed: Json, originalTitle: string)
    requires ChooseTitles(parsed, originalTitle).Some?
    ensures var t := ChooseTitles(parsed, originalTitle).value;
      && (|t| == 1 || |t| == 3)
      && (t == [originalTitle] || forall i :: 0 <= i < |t| ==> t[i] != [] && Trimmed(t[i]))
  {
    var j := Field(parsed, "judul");
    if j.Has? && j.v.JArray? && |j.v.items| == 3 {
      var ts := TrimStrings(j.v.items).value;
      forall i | 0 <= i < |ts|
        ensures Trimmed(ts[i])
      {
        TrimShape(j.v.items[i].s);
      }
    } else if j.Has? && j.v.JString? && Trim(j.v.s) != [] {
      TrimShape(j.v.s);
    }
  }

  /** The titles chosen from a three-entry `judul` array of strings. */
  lemma ArrayTitles(parsed: Json, items: seq<Json>, ts: seq<string>, originalTitle: string)
    requires Field(parsed, "judul") == Has(JArray(items)) && |items| == 3
    requires TrimStrings(items) == Some(ts)
    ensures NonEmpty(ts) == ts ==> ChooseTitles(parsed, originalTitle) == Some(ts)
    ensures |NonEmpty(ts)| != 3 ==> ChooseTitles(parsed, originalTitle) == Some([originalTitle])
  {
  }

  /** Three strings read as the three trimmed titles. */
  lemma TrimThree(a: string, b: string, c: string)
    ensures TrimStrings([JString(a), JString(b), JString(c)]) == Some([Trim(a), Trim(b), Trim(c)])
  {
    var items := [JString(a), JString(b), JString(c)];
    assert items[0].s == a && items[1].s == b && items[2].s == c;
    var r := TrimStrings(items);
    assert r.Some?;
    assert r.value == [Trim(a), Trim(b), Trim(c)];
  }

  /** Three string titles that are not blank give those titles, trimmed. */
  lemma ThreeTitles(fields: map<string, Json>, a: string, b: string, c: string, originalTitle: string, originalContent: string)
    requires "judul" in fields && fields["judul"] == JArray([JString(a), JString(b), JString(c)])
    requires Trim(a) != [] && Trim(b) != [] && Trim(c) != []
    requires ChooseIsi(JObject(fields), originalContent).Some?
    ensures Shape(Some(JObject(fields)), originalTitle, originalContent).judul == [Trim(a), Trim(b), Trim(c)]
  {
    var items, ts := [JString(a), JString(b), JString(c)], [Trim(a), Trim(b), Trim(c)];
    TrimThree(a, b, c);
    assert Field(JObject(fields), "judul") == Has(JArray(items));
    assert NonEmpty(ts) == ts;
    ArrayTitles(JObject(fields), items, ts, originalTitle);
  }

  /** Three strings with a blank one among them give the original title. */
  lemma BlankTitle(fields: map<string, Json>, a: string, b: string, c: string, originalTitle: string, originalContent: string)
    requires "judul" in fields && fields["judul"] == JArray([JString(a), JString(b), JString(c)])
    requires Trim(a) == [] || Trim(b) == [] || Trim(c) == []
    ensures Shape(Some(JObject(fields)), originalTitle, originalContent).judul == [originalTitle]
  {
    var items, ts := [JString(a), JString(b), JString(c)], [Trim(a), Trim(b), Trim(c)];
    TrimThree(a, b, c);
    assert Field(JObject(fields), "judul") == Has(JArray(items));
    assert ts[0] == [] || ts[1] == [] || ts[2] == [];
    assert |NonEmpty(ts)| != 3;
    ArrayTitles(JObject(fields), items, ts, originalTitle);
    OriginalTitleShaped(JObject(fields), originalTitle, originalContent);
  }

  /** When the titles fall back to the original one, so does the reply,
      whatever happens to the body. */
  lemma OriginalTitleShaped(parsed: Json, originalTitle: string, originalContent: string)
    requires ChooseTitles(parsed, originalTitle) == Some([originalTitle])
    ensures Shape(Some(parsed), originalTitle, originalContent).judul == [originalTitle]
  {
  }

  /** A single title that is not blank gives that title, trimmed. */
  lemma OneTitle(fields: map<string, Json>, a: string, originalTitle: string, originalContent: string)
    requires "judul" in fields && fields["judul"] == JString(a) && Trim(a) != []
    requires ChooseIsi(JObject(fields), originalContent).Some?
    ensures Shape(Some(JObject(fields)), originalTitle, originalContent).judul == [Trim(a)]
  {
  }

  /** A reply that does not parse gives the original title and no body. */
  lemma Unparsable(originalTitle: string, originalContent: string)
    ensures Shape(None, originalTitle, originalContent) == Shaped([originalTitle], "")
  {
  }

  /** A non-blank string body is used as it is, untrimmed; a missing, empty
      or blank one gives the article text. */
  lemma BodyChoice(fields: map<string, Json>, body: string, originalContent: string)
    requires "isi" in fields && fields["isi"] == JString(body)
    ensures Trim(body) != [] ==> ChooseIsi(JObject(fields), originalContent) == Some(body)
    ensures Trim(body) == [] ==> ChooseIsi(JObject(fields), originalContent) == Some(originalContent)
  {
  }

  /** The parsed page: the `h1` text, the article's paragraphs and images
      (when there is an `article`), and the thumbnail anchor. */
  datatype Article = Article(paragraphs: seq<string>, images: seq<Img>)
  datatype Page = Page(h1: Option<string>, article: Option<Article>, thumb: Option<Option<Img>>)

  /** What `fetch(url)` gives: a throw, a response that is not ok, or the
      page. */
  datatype Fetch = FetchThrows | NotOk | Fetched(page: Page)

  /** The route's answer. A 500 carries its body when the route writes a
      fixed text, and None where the body is the thrown error's text. */
  datatype Response =
    | BadRequest(error: string)
    | ServerError(body: Option<string>)
    | Scraped(judul: seq<string>, isi: string, gambar: seq<string>, thumbnail: string)
    | Streamed(contentType: string)

  const UrlRequired: string := "Parameter 'url' wajib disertakan."
  const FetchFailed: string := "Gagal mengambil konten dari URL tersebut."
  const DownloadFailed: string := "Gagal mengunduh gambar"

  /** `!url`: the query parameter is absent or empty. */
  predicate Missing(url: Option<string>)
  {
    url.None? || url.value == []
  }

  /** The `/stream-image` route: `download` is the upstream content type,
      or `None` when the download fails. */
  function StreamImage(url: Option<string>, download: Option<string>): (r: Response)
    ensures r == BadRequest(UrlRequired) <==> Missing(url)
    ensures !Missing(url) ==> (r.ServerError? <==> download.None?)
    ensures !Missing(url) && download.None? ==> r == ServerError(Some(DownloadFailed))
    ensures !Missing(url) && download.Some? ==> r == Streamed(download.value)
  {
    if Missing(url) then BadRequest(UrlRequired)
    else if download.None? then ServerError(Some(DownloadFailed))
    else Streamed(download.value)
  }

  /** The `/scrape` route. `reply` is the model's message text (`None` when
      the call or its `choices` fail) and `parse` is `JSON.parse` (`None`
      on a syntax error). */
  method ScrapeRoute(url: Option<string>, fetched: Fetch, reply: Option<string>, parse: string -> Option<Json>)
    returns (res: Response)
    ensures Missing(url) <==> res == BadRequest(UrlRequired)
    ensures !Missing(url) && fetched.NotOk? ==> res == BadRequest(FetchFailed)
    ensures !Missing(url) && (fetched.FetchThrows? || (fetched.Fetched? && reply.None?)) ==> res == ServerError(None)
    ensures !Missing(url) && fetched.Fetched? && reply.Some? ==>
      var page := fetched.page;
      var title := if page.h1.Some? then Trim(page.h1.value) else "";
      var content := if page.article.Some? then ContentOf(page.article.value.paragraphs) else "";
      var shaped := Shape(parse(CleanJsonText(reply.value)), title, content);
      && res.Scraped?
      && res.judul == shaped.judul && res.isi == shaped.isi
      && res.gambar == (if page.article.Some? then Kept(page.article.value.images) else [])
      && res.thumbnail == Thumbnail(page.thumb)
  {
    if Missing(url) {
      return BadRequest(UrlRequired);
    }
    if fetched.FetchThrows? {
      return ServerError(None);
    }
    if fetched.NotOk? {
      return BadRequest(FetchFailed);
    }
    var page := fetched.page;
    var originalTitle := if page.h1.Some? then Trim(page.h1.value) else "";
    var originalContent := "";
    if page.article.Some? {
      originalContent := CollectContent(page.article.value.paragraphs);
    }
    var images := [];
    if page.article.Some? {
      images := CollectImages(page.article.value.images);
    }
    var thumbnail := Thumbnail(page.thumb);
    if reply.None? {
      return ServerError(None);
    }
    var shaped := Shape(parse(CleanJsonText(reply.value)), originalTitle, originalContent);
    res := Scraped(shaped.judul, shaped.isi, images, thumbnail);
  }
}
