/** The `type/map` grammar: the brace-map literal `{:key value ...}` that
    the regular expression `^\{\s*(:\w+\s+\w+\s*)*\}$` accepts, and the
    object the validator then builds from it by splitting the inner text at
    whitespace runs. */
module MapSyntax {

  import opened Results
  import opened JsText
  import opened JsObject

  /** `s[..m]` is one pair `:\w+\s+\w+\s*`: the key runs from 1 to `i`, the
      separating whitespace to `j`, the value to `l` and the trailing
      whitespace to `m`. */
  predicate PairShape(s: string, i: int, j: int, l: int, m: int) {
    |s| > 0 && s[0] == ':' && 1 < i < j < l <= m <= |s|
    && AllWord(s, 1, i) && AllSpace(s, i, j) && AllWord(s, j, l) && AllSpace(s, l, m)
  }

  /** The language of `(:\w+\s+\w+\s*)*`, stated as the regular expression
      reads: empty, or one pair followed by more pairs. */
  ghost predicate PairsLang(s: string)
    decreases |s|
  {
    |s| == 0 || exists i, j, l, m :: PairShape(s, i, j, l, m) && PairsLang(s[m..])
  }

  /** The language of the whole map regular expression. */
  ghost predicate MapLang(s: string) {
    |s| >= 2 && s[0] == '{' && s[|s| - 1] == '}' &&
    var inner := s[1..|s| - 1];
    exists b :: AllSpace(inner, 0, b) && PairsLang(inner[b..])
  }

  /** The greedy reading of one pair at the start of `s`. Greedy runs are
      the only possible reading: a word run must be followed by whitespace,
      `:` or the end, and a whitespace run by a word or `:`. */
  function GreedyPair(s: string): (r: Option<(int, int, int, int)>)
    ensures r.Some? ==> PairShape(s, r.value.0, r.value.1, r.value.2, r.value.3)
  {
    if |s| == 0 || s[0] != ':' then None
    else
      var i := WordEnd(s, 1);
      var j := SpaceEnd(s, i);
      var l := WordEnd(s, j);
      var m := SpaceEnd(s, l);
      if 1 < i < j < l then Some((i, j, l, m)) else None
  }

  /** The deterministic reading of `(:\w+\s+\w+\s*)*`: greedy pairs until
      the text is used up. */
  predicate PairsOk(s: string)
    decreases |s|
  {
    if |s| == 0 then true
    else
      var g := GreedyPair(s);
      g.Some? && PairsOk(s[g.value.3..])
  }

  /** `/^\{\s*(:\w+\s+\w+\s*)*\}$/.test(s)`. */
  predicate MapLiteralOk(s: string) {
    |s| >= 2 && s[0] == '{' && s[|s| - 1] == '}' &&
    var inner := s[1..|s| - 1];
    PairsOk(inner[SpaceEnd(inner, 0)..])
  }

  /** A pair that is followed by the end or by a `:` is the one the greedy
      reading finds. */
  lemma GreedyPairUnique(s: string, i: int, j: int, l: int, m: int)
    requires PairShape(s, i, j, l, m)
    requires m == |s| || s[m] == ':'
    ensures GreedyPair(s) == Some((i, j, l, m))
  {
    assert IsSpace(s[i]);
    WordCharNotSpace(s[j]);
    WordEndAt(s, 1, i);
    SpaceEndAt(s, i, j);
    if l < m {
      assert IsSpace(s[l]);
    }
    WordEndAt(s, j, l);
    SpaceEndAt(s, l, m);
  }

  /** The greedy recognizer accepts exactly the pair language. */
  lemma {:induction false} PairsOkIff(s: string)
    ensures PairsOk(s) <==> PairsLang(s)
    decreases |s|
  {
    if |s| > 0 {
      if PairsOk(s) {
        var g := GreedyPair(s).value;
        PairsOkIff(s[g.3..]);
        assert PairShape(s, g.0, g.1, g.2, g.3);
      }
      if PairsLang(s) {
        var i, j, l, m :| PairShape(s, i, j, l, m) && PairsLang(s[m..]);
        assert m < |s| ==> s[m..][0] == s[m];
        GreedyPairUnique(s, i, j, l, m);
        PairsOkIff(s[m..]);
      }
    }
  }

  /** The greedy recognizer decides the map regular expression. */
  lemma MapLiteralOkIff(s: string)
    ensures MapLiteralOk(s) <==> MapLang(s)
  {
    if |s| >= 2 && s[0] == '{' && s[|s| - 1] == '}' {
      var inner := s[1..|s| - 1];
      var b := SpaceEnd(inner, 0);
      PairsOkIff(inner[b..]);
      if MapLang(s) {
        var b' :| AllSpace(inner, 0, b') && PairsLang(inner[b'..]);
        if b' < |inner| {
          assert inner[b'..][0] == inner[b'];
        }
        SpaceEndAt(inner, 0, b');
      }
    }
  }

  /** `s.split(/\s+/)` (`needColon` false) or `s.split(/\s+(?=:)/)`
      (`needColon` true). The scan meets every maximal whitespace run at its
      first character; it cuts there, removing the run, unless a colon is
      needed and does not follow the run, in which case the run stays inside
      its piece. */
  function SplitRuns(s: string, needColon: bool): (r: seq<string>)
    ensures |r| >= 1
    decreases |s|, 1
  {
    if |s| == 0 then [""]
    else if IsSpace(s[0]) then SplitAtRun(s, needColon)
    else Glue([s[0]], SplitRuns(s[1..], needColon))
  }

  /** `SplitRuns` at a whitespace run that starts the text. */
  function SplitAtRun(s: string, needColon: bool): (r: seq<string>)
    requires |s| > 0 && IsSpace(s[0])
    ensures |r| >= 1
    decreases |s|, 0
  {
    var n := SpaceEnd(s, 0);
    if !needColon || (n < |s| && s[n] == ':') then [""] + SplitRuns(s[n..], needColon)
    else Glue(s[..n], SplitRuns(s[n..], needColon))
  }

  /** `x` prefixed to the first piece of `r`. */
  function Glue(x: string, r: seq<string>): (g: seq<string>)
    requires |r| >= 1
    ensures |g| == |r| && g[0] == x + r[0] && g[1..] == r[1..]
  {
    [x + r[0]] + r[1..]
  }

  predicate NoSpace(x: string) {
    forall i :: 0 <= i < |x| ==> !IsSpace(x[i])
  }

  lemma GlueEmpty(r: seq<string>)
    requires |r| >= 1
    ensures Glue("", r) == r
  {
    assert "" + r[0] == r[0];
    assert [r[0]] + r[1..] == r;
  }

  lemma GlueCut(x: string, r: seq<string>)
    ensures Glue(x, [""] + r) == [x] + r
  {
    assert x + "" == x;
  }

  lemma GlueGlue(x: string, r: seq<string>)
    requires |x| > 0 && |r| >= 1
    ensures Glue([x[0]], Glue(x[1..], r)) == Glue(x, r)
  {
    assert [x[0]] + (x[1..] + r[0]) == x + r[0];
  }

  lemma SplitRunsSolidStep(s: string, needColon: bool)
    requires |s| > 0 && !IsSpace(s[0])
    ensures SplitRuns(s, needColon) == Glue([s[0]], SplitRuns(s[1..], needColon))
  {
  }

  lemma SolidHead(x: string, y: string, needColon: bool)
    requires NoSpace(x) && |x| > 0
    ensures NoSpace(x[1..])
    ensures SplitRuns(x + y, needColon) == Glue([x[0]], SplitRuns(x[1..] + y, needColon))
  {
    assert (x + y)[0] == x[0] && !IsSpace(x[0]);
    assert (x + y)[1..] == x[1..] + y;
    SplitRunsSolidStep(x + y, needColon);
  }

  /** Text without whitespace is never cut: it goes to the front of the
      first piece. */
  lemma {:induction false} SplitRunsSolid(x: string, y: string, needColon: bool)
    requires NoSpace(x)
    ensures SplitRuns(x + y, needColon) == Glue(x, SplitRuns(y, needColon))
  {
    if |x| == 0 {
      assert x + y == y;
      GlueEmpty(SplitRuns(y, needColon));
    } else {
      SolidHead(x, y, needColon);
      SplitRunsSolid(x[1..], y, needColon);
      GlueGlue(x, SplitRuns(y, needColon));
    }
  }

  /** A single space before a non-blank text is cut when the split may cut
      there. */
  lemma SplitRunsCut(y: string, needColon: bool)
    requires |y| > 0 && !IsSpace(y[0]) && (!needColon || y[0] == ':')
    ensures SplitRuns(" " + y, needColon) == [""] + SplitRuns(y, needColon)
  {
    var s := " " + y;
    SpaceEndAt(s, 0, 1);
    assert s[1..] == y;
  }

  /** A single space before text that does not start with `:` stays inside
      its piece when the split needs a colon. */
  lemma SplitRunsKeep(y: string)
    requires |y| > 0 && !IsSpace(y[0]) && y[0] != ':'
    ensures SplitRuns(" " + y, true) == Glue(" ", SplitRuns(y, true))
  {
    var s := " " + y;
    SpaceEndAt(s, 0, 1);
    assert s[1..] == y;
    assert s[..1] == " ";
  }

  /** One `(:key value)` entry: `pair.trim().split(/\s+/)` gives the key
      (its leading `:` dropped) and the value, `undefined` when missing;
      further pieces are ignored. */
  function PairEntry(pair: string): (string, Value) {
    var parts := SplitRuns(Trim(pair), false);
    (DropFirst(parts[0]), if |parts| > 1 then Some(parts[1]) else None)
  }

  /** The object the `type/map` validator builds from a literal: the inner
      text trimmed, split before every `:` that follows whitespace, and each
      pair written into a fresh object in order. */
  function ParseMap(s: string): (d: Dict)
    ensures WellFormed(d)
    ensures |d| >= 1
  {
    var entries := PairEntries(SplitRuns(Trim(SliceInner(s)), true));
    FromPairsSpec(entries);
    assert entries[0].0 in Keys(entries);
    FromPairs(entries)
  }

  function PairEntries(pairs: seq<string>): (es: seq<(string, Value)>)
    ensures |es| == |pairs|
    ensures forall i :: 0 <= i < |pairs| ==> es[i] == PairEntry(pairs[i])
  {
    seq(|pairs|, i requires 0 <= i < |pairs| => PairEntry(pairs[i]))
  }

  /** Text with non-blank ends is its own `trim`. */
  lemma TrimKeeps(x: string)
    requires |x| == 0 || (!IsSpace(x[0]) && !IsSpace(x[|x| - 1]))
    ensures Trim(x) == x
  {
  }

  /** Key-value pairs of words. */
  predicate WordPairs(ps: seq<(string, string)>) {
    forall i :: 0 <= i < |ps| ==> IsWord(ps[i].0) && IsWord(ps[i].1)
  }

  /** The literal text of one pair. */
  function PairText(k: string, v: string): string {
    ":" + k + " " + v
  }

  /** The pairs written out with single spaces: `:k1 v1 :k2 v2 ...`. */
  function Render(ps: seq<(string, string)>): string {
    if |ps| == 0 then ""
    else if |ps| == 1 then PairText(ps[0].0, ps[0].1)
    else PairText(ps[0].0, ps[0].1) + " " + Render(ps[1..])
  }

  function PairTexts(ps: seq<(string, string)>): seq<string> {
    seq(|ps|, i requires 0 <= i < |ps| => PairText(ps[i].0, ps[i].1))
  }

  /** The entries the pairs stand for, each value defined. */
  function AsEntries(ps: seq<(string, string)>): seq<(string, Value)> {
    seq(|ps|, i requires 0 <= i < |ps| => (ps[i].0, Some(ps[i].1)))
  }

  lemma WordNoSpace(w: string)
    requires IsWord(w)
    ensures NoSpace(w) && NoSpace(":" + w)
  {
    forall i | 0 <= i < |w| ensures !IsSpace(w[i]) {
      WordCharNotSpace(w[i]);
    }
    forall i | 0 <= i < |":" + w| ensures !IsSpace((":" + w)[i]) {
      if i > 0 {
        assert (":" + w)[i] == w[i - 1];
        WordCharNotSpace(w[i - 1]);
      }
    }
  }

  lemma GlueThree(a: string, b: string, r: seq<string>)
    requires |r| >= 1
    ensures Glue(a, Glue(b, r)) == Glue(a + b, r)
  {
    assert a + (b + r[0]) == a + b + r[0];
  }

  /** One pair followed by `tail` splits as the pair, then whatever `tail`
      gives. */
  lemma SplitPair(k: string, v: string, tail: string)
    requires IsWord(k) && IsWord(v)
    ensures SplitRuns(PairText(k, v) + tail, true) == Glue(PairText(k, v), SplitRuns(tail, true))
  {
    WordNoSpace(k);
    WordNoSpace(v);
    WordCharNotSpace(v[0]);
    var t := v + tail;
    assert PairText(k, v) + tail == (":" + k) + (" " + t);
    SplitRunsSolid(":" + k, " " + t, true);
    SplitRunsKeep(t);
    SplitRunsSolid(v, tail, true);
    var r := SplitRuns(tail, true);
    GlueThree(" ", v, r);
    GlueThree(":" + k, " " + v, r);
    assert (":" + k) + (" " + v) == PairText(k, v);
  }

  /** The rendered pairs split back into one text per pair. */
  lemma {:induction false} SplitRender(ps: seq<(string, string)>)
    requires |ps| > 0 && WordPairs(ps)
    ensures SplitRuns(Render(ps), true) == PairTexts(ps)
  {
    var k, v := ps[0].0, ps[0].1;
    if |ps| == 1 {
      SplitPair(k, v, "");
      assert PairText(k, v) + "" == PairText(k, v);
      assert Glue(PairText(k, v), [""]) == [PairText(k, v)];
    } else {
      var rest := Render(ps[1..]);
      SplitRender(ps[1..]);
      assert rest[0] == ':';
      var p := PairText(k, v);
      var x := SplitRuns(rest, true);
      SplitRunsCut(rest, true);
      assert SplitRuns(" " + rest, true) == [""] + x;
      SplitPair(k, v, " " + rest);
      assert p + " " + rest == p + (" " + rest);
      assert SplitRuns(Render(ps), true) == Glue(p, [""] + x);
      assert p + "" == p;
      assert Glue(p, [""] + x) == [p] + x;
      assert PairTexts(ps) == [p] + PairTexts(ps[1..]);
    }
  }

  /** The greedy reading of a rendered pair followed by `tail`, which is
      empty or a space and a further pair. */
  lemma GreedyPairText(k: string, v: string, tail: string)
    requires IsWord(k) && IsWord(v)
    requires tail == "" || (|tail| >= 2 && tail[0] == ' ' && tail[1] == ':')
    ensures var s := PairText(k, v) + tail;
            var n := |PairText(k, v)|;
            GreedyPair(s) == Some((1 + |k|, 2 + |k|, n, if tail == "" then n else n + 1))
  {
    var s := PairText(k, v) + tail;
    var n := |PairText(k, v)|;
    var m := if tail == "" then n else n + 1;
    forall q | 1 <= q < 1 + |k| ensures IsWordChar(s[q]) {
      assert s[q] == k[q - 1];
    }
    assert s[1 + |k|] == ' ';
    forall q | 2 + |k| <= q < n ensures IsWordChar(s[q]) {
      assert s[q] == v[q - 2 - |k|];
    }
    assert tail != "" ==> s[n] == ' ' && s[n + 1] == ':';
    assert PairShape(s, 1 + |k|, 2 + |k|, n, m);
    GreedyPairUnique(s, 1 + |k|, 2 + |k|, n, m);
  }

  /** The rendered pairs are accepted by the recognizer. */
  lemma {:induction false} PairsOkRender(ps: seq<(string, string)>)
    requires WordPairs(ps)
    ensures PairsOk(Render(ps))
  {
    if |ps| > 0 {
      var k, v := ps[0].0, ps[0].1;
      var s := Render(ps);
      if |ps| == 1 {
        GreedyPairText(k, v, "");
        assert PairText(k, v) + "" == s;
        assert s[|s|..] == "";
      } else {
        var rest := Render(ps[1..]);
        assert rest[0] == ':';
        GreedyPairText(k, v, " " + rest);
        assert PairText(k, v) + (" " + rest) == s;
        assert s[|PairText(k, v)| + 1..] == rest;
        PairsOkRender(ps[1..]);
      }
    }
  }

  /** Text without whitespace is one piece. */
  lemma SplitSolid(v: string)
    requires NoSpace(v)
    ensures SplitRuns(v, false) == [v]
  {
    SplitRunsSolid(v, "", false);
    assert v + "" == v;
    assert SplitRuns("", false) == [""];
  }

  /** `:k v` is cut at its one space into `:k` and `v`. */
  lemma SplitPairText(k: string, v: string)
    requires NoSpace(":" + k) && NoSpace(v) && |v| > 0
    ensures SplitRuns(":" + k + " " + v, false) == [":" + k, v]
  {
    assert !IsSpace(v[0]);
    SplitSolid(v);
    SplitRunsCut(v, false);
    SplitRunsSolid(":" + k, " " + v, false);
    GlueCut(":" + k, [v]);
    assert ":" + k + " " + v == (":" + k) + (" " + v);
  }

  /** Each rendered pair reads back as its key and its value. */
  lemma PairEntryText(k: string, v: string)
    requires IsWord(k) && IsWord(v)
    ensures PairEntry(PairText(k, v)) == (k, Some(v))
  {
    var p := PairText(k, v);
    WordNoSpace(k);
    WordNoSpace(v);
    WordCharNotSpace(v[|v| - 1]);
    assert p[|p| - 1] == v[|v| - 1];
    TrimKeeps(p);
    SplitPairText(k, v);
    assert DropFirst(":" + k) == k;
  }

  /** A rendering ends in the last value's last character. */
  lemma {:induction false} RenderLast(ps: seq<(string, string)>)
    requires |ps| > 0 && WordPairs(ps)
    ensures |Render(ps)| > 0 && !IsSpace(Render(ps)[|Render(ps)| - 1])
  {
    if |ps| == 1 {
      var v := ps[0].1;
      WordCharNotSpace(v[|v| - 1]);
      assert Render(ps)[|Render(ps)| - 1] == v[|v| - 1];
    } else {
      RenderLast(ps[1..]);
      var r := Render(ps[1..]);
      assert Render(ps)[|Render(ps)| - 1] == r[|r| - 1];
    }
  }

  /** A literal of word pairs is accepted, and the validator's object maps
      each key to the value of its last pair, listing keys in order of first
      appearance. */
  lemma ParseRender(ps: seq<(string, string)>)
    requires |ps| > 0 && WordPairs(ps)
    ensures MapLiteralOk("{" + Render(ps) + "}")
    ensures ParseMap("{" + Render(ps) + "}") == FromPairs(AsEntries(ps))
  {
    var inner := Render(ps);
    SliceBraces(inner);
    RenderAccepted(ps);
    RenderSplit(ps);
    assert PairEntries(PairTexts(ps)) == AsEntries(ps) by {
      forall i | 0 <= i < |ps| ensures PairEntry(PairTexts(ps)[i]) == AsEntries(ps)[i] {
        PairEntryText(ps[i].0, ps[i].1);
      }
    }
  }

  lemma RenderAccepted(ps: seq<(string, string)>)
    requires |ps| > 0 && WordPairs(ps)
    ensures PairsOk(Render(ps)[SpaceEnd(Render(ps), 0)..])
  {
    var inner := Render(ps);
    PairsOkRender(ps);
    assert inner[0] == ':';
    SpaceEndAt(inner, 0, 0);
    assert inner[0..] == inner;
  }

  lemma RenderSplit(ps: seq<(string, string)>)
    requires |ps| > 0 && WordPairs(ps)
    ensures SplitRuns(Trim(SliceInner("{" + Render(ps) + "}")), true) == PairTexts(ps)
  {
    var inner := Render(ps);
    var s := "{" + inner + "}";
    SliceBraces(inner);
    assert inner[0] == ':';
    WordCharNotSpace(ps[0].0[0]);
    RenderLast(ps);
    TrimKeeps(inner);
    SplitRender(ps);
  }

  /** A brace map with only whitespace inside is accepted and builds an
      object with the single key `""`, whose value is `undefined`. */
  lemma EmptyMapLiteral(b: string)
    requires IsBlank(b)
    ensures MapLiteralOk("{" + b + "}")
    ensures ParseMap("{" + b + "}") == [("", None)]
  {
    var s := "{" + b + "}";
    SliceBraces(b);
    SpaceEndAt(b, 0, |b|);
    assert b[|b|..] == "";
    assert Trim(b) == "";
    EmptyInner();
  }

  /** Nothing between the braces is one empty pair: the key `""` with an
      undefined value. */
  lemma EmptyInner()
    ensures SplitRuns("", true) == [""]
    ensures PairEntries([""]) == [("", None)]
    ensures FromPairs([("", None)]) == [("", None)]
  {
    assert Trim("") == "";
    assert SplitRuns("", false) == [""];
    assert PairEntry("") == ("", None);
    FromPairsOne(("", None));
  }

  /** A pair glued to the previous value (`{:a b:c d}`) is accepted, yet
      the split finds no whitespace before its `:`: the object holds only
      the first key, whose value is the glued text `b:c`. */
  lemma GluedPairs(a: string, b: string, c: string, d: string)
    requires IsWord(a) && IsWord(b) && IsWord(c) && IsWord(d)
    ensures MapLiteralOk("{" + (PairText(a, b) + PairText(c, d)) + "}")
    ensures ParseMap("{" + (PairText(a, b) + PairText(c, d)) + "}") == [(a, Some(b + ":" + c))]
  {
    var inner := PairText(a, b) + PairText(c, d);
    var s := "{" + inner + "}";
    SliceBraces(inner);
    GluedAccepted(a, b, c, d);
    assert inner[0..] == inner;
    GluedSplit(a, b, c, d);
    ParseMapVia(s, [inner]);
    SingleEntry(inner, (a, Some(b + ":" + c)));
  }

  /** `ParseMap` once the split of the inner text is known. */
  lemma ParseMapVia(s: string, pairs: seq<string>)
    requires SplitRuns(Trim(SliceInner(s)), true) == pairs
    ensures ParseMap(s) == FromPairs(PairEntries(pairs))
  {
  }

  lemma SingleEntry(pair: string, e: (string, Value))
    requires PairEntry(pair) == e
    ensures FromPairs(PairEntries([pair])) == [e]
  {
    var es := PairEntries([pair]);
    assert es[0] == e;
    assert es == [e];
    FromPairsOne(e);
  }

  lemma GluedAccepted(a: string, b: string, c: string, d: string)
    requires IsWord(a) && IsWord(b) && IsWord(c) && IsWord(d)
    ensures PairsOk(PairText(a, b) + PairText(c, d))
    ensures SpaceEnd(PairText(a, b) + PairText(c, d), 0) == 0
  {
    var first := PairText(a, b);
    var second := PairText(c, d);
    var inner := first + second;
    var n := |first|;
    forall q | 1 <= q < 1 + |a| ensures IsWordChar(inner[q]) {
      assert inner[q] == a[q - 1];
    }
    assert inner[1 + |a|] == ' ';
    forall q | 2 + |a| <= q < n ensures IsWordChar(inner[q]) {
      assert inner[q] == b[q - 2 - |a|];
    }
    assert inner[n] == ':';
    GreedyPairUnique(inner, 1 + |a|, 2 + |a|, n, n);
    assert inner[n..] == second;
    PairsOkRender([(c, d)]);
    assert Render([(c, d)]) == second;
    SpaceEndAt(inner, 0, 0);
  }

  lemma GluedSplit(a: string, b: string, c: string, d: string)
    requires IsWord(a) && IsWord(b) && IsWord(c) && IsWord(d)
    ensures SplitRuns(Trim(PairText(a, b) + PairText(c, d)), true) == [PairText(a, b) + PairText(c, d)]
    ensures PairEntry(PairText(a, b) + PairText(c, d)) == (a, Some(b + ":" + c))
  {
    GluedOnePiece(a, b, c, d);
    GluedThreeWords(a, b, c, d);
    GluedEntry(a, b, c, d);
  }

  lemma GluedOnePiece(a: string, b: string, c: string, d: string)
    requires IsWord(a) && IsWord(b) && IsWord(c) && IsWord(d)
    ensures SplitRuns(Trim(PairText(a, b) + PairText(c, d)), true) == [PairText(a, b) + PairText(c, d)]
  {
    GluedTrim(a, b, c, d);
    GluedText(a, b, c, d);
    GluedNoSpace(a, b, c, d);
    GluedKeep(a, b + ":" + c, d);
  }

  lemma GluedThreeWords(a: string, b: string, c: string, d: string)
    requires IsWord(a) && IsWord(b) && IsWord(c) && IsWord(d)
    ensures SplitRuns(Trim(PairText(a, b) + PairText(c, d)), false) == [":" + a, b + ":" + c, d]
  {
    GluedTrim(a, b, c, d);
    GluedText(a, b, c, d);
    GluedNoSpace(a, b, c, d);
    GluedWords(a, b + ":" + c, d);
  }

  lemma GluedEntry(a: string, b: string, c: string, d: string)
    requires SplitRuns(Trim(PairText(a, b) + PairText(c, d)), false) == [":" + a, b + ":" + c, d]
    ensures PairEntry(PairText(a, b) + PairText(c, d)) == (a, Some(b + ":" + c))
  {
    assert DropFirst(":" + a) == a;
  }

  lemma GluedTrim(a: string, b: string, c: string, d: string)
    requires IsWord(d)
    ensures Trim(PairText(a, b) + PairText(c, d)) == PairText(a, b) + PairText(c, d)
  {
    var inner := PairText(a, b) + PairText(c, d);
    WordCharNotSpace(d[|d| - 1]);
    assert inner[|inner| - 1] == d[|d| - 1];
    assert inner[0] == ':';
    TrimKeeps(inner);
  }

  lemma GluedText(a: string, b: string, c: string, d: string)
    ensures PairText(a, b) + PairText(c, d) == (":" + a) + (" " + ((b + ":" + c) + (" " + d)))
  {
  }

  lemma GluedNoSpace(a: string, b: string, c: string, d: string)
    requires IsWord(a) && IsWord(b) && IsWord(c) && IsWord(d)
    ensures NoSpace(":" + a) && NoSpace(b + ":" + c) && NoSpace(d)
    ensures !IsSpace((b + ":" + c)[0]) && (b + ":" + c)[0] != ':'
    ensures !IsSpace(d[0]) && d[0] != ':'
  {
    WordNoSpace(a);
    WordNoSpace(d);
    WordCharNotSpace(b[0]);
    WordCharNotSpace(d[0]);
    var bc := b + ":" + c;
    forall i | 0 <= i < |bc| ensures !IsSpace(bc[i]) {
      if i < |b| {
        assert bc[i] == b[i];
        WordCharNotSpace(b[i]);
      } else if i > |b| {
        assert bc[i] == c[i - |b| - 1];
        WordCharNotSpace(c[i - |b| - 1]);
      }
    }
  }

  /** Splitting before colons finds no cut in `:a bc d`. */
  lemma GluedKeep(a: string, bc: string, d: string)
    requires NoSpace(":" + a) && NoSpace(bc) && NoSpace(d)
    requires |bc| > 0 && !IsSpace(bc[0]) && bc[0] != ':'
    requires |d| > 0 && !IsSpace(d[0]) && d[0] != ':'
    ensures SplitRuns((":" + a) + (" " + (bc + (" " + d))), true) == [(":" + a) + (" " + (bc + (" " + d)))]
  {
    SplitRunsSolid(d, "", true);
    assert d + "" == d;
    assert SplitRuns("", true) == [""];
    var r := SplitRuns(d, true);
    assert r == [d];
    SplitRunsKeep(d);
    assert SplitRuns(" " + d, true) == [" " + d];
    SplitRunsSolid(bc, " " + d, true);
    assert SplitRuns(bc + (" " + d), true) == [bc + (" " + d)];
    SplitRunsKeep(bc + (" " + d));
    assert SplitRuns(" " + (bc + (" " + d)), true) == [" " + (bc + (" " + d))];
    SplitRunsSolid(":" + a, " " + (bc + (" " + d)), true);
  }

  /** Splitting at every whitespace run cuts `:a bc d` into its three
      words. */
  lemma GluedWords(a: string, bc: string, d: string)
    requires NoSpace(":" + a) && NoSpace(bc) && NoSpace(d)
    requires |bc| > 0 && !IsSpace(bc[0])
    requires |d| > 0 && !IsSpace(d[0])
    ensures SplitRuns((":" + a) + (" " + (bc + (" " + d))), false) == [":" + a, bc, d]
  {
    SolidWord(d, false);
    SplitRunsCut(d, false);
    SplitRunsSolid(bc, " " + d, false);
    GlueCut(bc, [d]);
    SplitRunsCut(bc + (" " + d), false);
    SplitRunsSolid(":" + a, " " + (bc + (" " + d)), false);
    GlueCut(":" + a, [bc, d]);
  }

  /** Text without whitespace is one piece. */
  lemma SolidWord(x: string, needColon: bool)
    requires NoSpace(x)
    ensures SplitRuns(x, needColon) == [x]
  {
    SplitRunsSolid(x, "", needColon);
    assert x + "" == x;
    assert SplitRuns("", needColon) == [""];
  }

}
