/** The `type/url` grammar: the shape check `checkIfTheSyntaxAValidUrl` and
    the `:name` placeholders the URL validator scans with `/:(\w+)/g`. */
module UrlSyntax {

  import opened JsText

  /** `checkIfTheSyntaxAValidUrl`: the token starts with `/`, and if it has
      a `?`, every `&`-separated piece of the text between the first `?` and
      the next one starts with `:`. */
  predicate ValidUrlShape(s: string) {
    StartsWith(s, "/") &&
    var pieces := SplitOn(s, '?');
    |pieces| < 2 || forall p :: p in SplitOn(pieces[1], '&') ==> StartsWith(p, ":")
  }

  /** Every `&` in `q` is directly followed by a `:`. */
  predicate ColonAfterEachAmp(q: string) {
    forall i :: 0 <= i < |q| && q[i] == '&' ==> i + 1 < |q| && q[i + 1] == ':'
  }

  /** The first piece of `SplitOn(q, c)` is empty exactly when `q` is empty
      or starts with `c`, and otherwise starts with `q`'s first character. */
  lemma FirstPieceStart(q: string, c: char)
    ensures |q| == 0 || q[0] == c ==> SplitOn(q, c)[0] == ""
    ensures |q| > 0 && q[0] != c ==> |SplitOn(q, c)[0]| > 0 && SplitOn(q, c)[0][0] == q[0]
  {
  }

  /** Every piece after the first starts with `:`. */
  predicate LaterColons(r: seq<string>) {
    forall k :: 1 <= k < |r| ==> StartsWith(r[k], ":")
  }

  /** One step of `SplitOn`, with the tail named. */
  lemma SplitOnStepAt(q: string, c: char, t: string)
    requires |q| > 0 && q[1..] == t
    ensures q[0] == c ==> SplitOn(q, c) == [""] + SplitOn(t, c)
    ensures q[0] != c ==> SplitOn(q, c) == [[q[0]] + SplitOn(t, c)[0]] + SplitOn(t, c)[1..]
  {
  }

  /** A cut in front: the old first piece becomes a later one. */
  lemma LaterAfterCut(rest: seq<string>)
    requires |rest| >= 1
    ensures LaterColons([""] + rest) <==> StartsWith(rest[0], ":") && LaterColons(rest)
  {
    var r := [""] + rest;
    if LaterColons(r) {
      assert r[1] == rest[0];
      forall k | 1 <= k < |rest| ensures StartsWith(rest[k], ":") {
        assert r[k + 1] == rest[k];
      }
    }
    if StartsWith(rest[0], ":") && LaterColons(rest) {
      forall k | 1 <= k < |r| ensures StartsWith(r[k], ":") {
        assert r[k] == rest[k - 1];
      }
    }
  }

  /** A character glued to the first piece leaves the later pieces alone. */
  lemma LaterAfterGlue(x: char, rest: seq<string>)
    requires |rest| >= 1
    ensures LaterColons([[x] + rest[0]] + rest[1..]) <==> LaterColons(rest)
  {
    var r := [[x] + rest[0]] + rest[1..];
    assert forall k :: 1 <= k < |r| ==> r[k] == rest[k];
  }

  /** `ColonAfterEachAmp` looked at one character at a time. */
  lemma AmpStep(q: string)
    requires |q| > 0
    ensures ColonAfterEachAmp(q) <==> (q[0] == '&' ==> StartsWith(q[1..], ":")) && ColonAfterEachAmp(q[1..])
  {
    var t := q[1..];
    if ColonAfterEachAmp(q) {
      forall i | 0 <= i < |t| && t[i] == '&' ensures i + 1 < |t| && t[i + 1] == ':' {
        assert q[i + 1] == '&';
      }
    }
    if (q[0] == '&' ==> StartsWith(t, ":")) && ColonAfterEachAmp(t) {
      forall i | 0 <= i < |q| && q[i] == '&' ensures i + 1 < |q| && q[i + 1] == ':' {
        if i > 0 {
          assert t[i - 1] == '&';
        } else {
          assert t[..1] == ":";
        }
      }
    }
  }

  /** The first `&`-piece starts with `:` exactly when the text does. */
  lemma FirstColon(t: string)
    ensures StartsWith(SplitOn(t, '&')[0], ":") <==> StartsWith(t, ":")
  {
    var p := SplitOn(t, '&')[0];
    FirstPieceStart(t, '&');
    if |p| > 0 {
      assert p[..1] == [p[0]];
    }
    if |t| > 0 {
      assert t[..1] == [t[0]];
    }
  }

  /** The pieces after the first start with `:` exactly when every `&` is
      followed by a `:`. */
  lemma {:induction false} LaterPiecesIff(q: string)
    ensures LaterColons(SplitOn(q, '&')) <==> ColonAfterEachAmp(q)
  {
    if |q| > 0 {
      var t := q[1..];
      var rest := SplitOn(t, '&');
      LaterPiecesIff(t);
      SplitOnStepAt(q, '&', t);
      AmpStep(q);
      if q[0] == '&' {
        LaterAfterCut(rest);
        FirstColon(t);
      } else {
        LaterAfterGlue(q[0], rest);
      }
    }
  }

  /** Every `&`-piece of `q` starts with `:` exactly when `q` starts with `:`
      and every `&` in it is followed by a `:`. In particular an empty query
      (`"/a?"`) is rejected. */
  lemma QueryPiecesIff(q: string)
    ensures (forall p :: p in SplitOn(q, '&') ==> StartsWith(p, ":"))
            <==> StartsWith(q, ":") && ColonAfterEachAmp(q)
  {
    var r := SplitOn(q, '&');
    LaterPiecesIff(q);
    FirstPieceStart(q, '&');
    if forall p :: p in r ==> StartsWith(p, ":") {
      assert r[0] in r;
      forall k | 1 <= k < |r| ensures StartsWith(r[k], ":") {
        assert r[k] in r;
      }
    }
    if StartsWith(q, ":") && ColonAfterEachAmp(q) {
      forall p | p in r ensures StartsWith(p, ":") {
        var k :| 0 <= k < |r| && r[k] == p;
        if k == 0 {
          assert r[0][0] == ':';
        }
      }
    }
  }

  /** Text without the separator is one piece. */
  lemma {:induction false} SplitOnNone(a: string, c: char)
    requires c !in a
    ensures SplitOn(a, c) == [a]
  {
    if |a| > 0 {
      SplitOnNone(a[1..], c);
      assert a == [a[0]] + a[1..];
    }
  }

  /** The first separator ends the first piece. */
  lemma {:induction false} SplitOnFirst(a: string, c: char, b: string)
    requires c !in a
    ensures SplitOn(a + [c] + b, c) == [a] + SplitOn(b, c)
  {
    var s := a + [c] + b;
    if |a| == 0 {
      assert s == [c] + b;
      assert s[1..] == b;
    } else {
      assert s[1..] == a[1..] + [c] + b;
      SplitOnFirst(a[1..], c, b);
      assert a == [a[0]] + a[1..];
    }
  }

  /** The piece at the front of `q + rest` is `q` when `q` has no separator
      and `rest` is empty or starts with one. */
  lemma {:induction false} SplitOnLeading(q: string, c: char, rest: string)
    requires c !in q && (rest == "" || rest[0] == c)
    ensures SplitOn(q + rest, c)[0] == q
  {
    if |q| == 0 {
      assert q + rest == rest;
    } else {
      assert (q + rest)[1..] == q[1..] + rest;
      SplitOnLeading(q[1..], c, rest);
      assert q == [q[0]] + q[1..];
    }
  }

  /** A URL without `?` is accepted exactly when it starts with `/`. */
  lemma UrlWithoutQuery(s: string)
    requires '?' !in s
    ensures ValidUrlShape(s) <==> StartsWith(s, "/")
  {
    SplitOnNone(s, '?');
  }

  /** A URL `a?q...` whose query `q` runs up to the second `?` (or the end)
      is accepted exactly when `a` starts with `/`, `q` starts with `:` and
      every `&` in `q` is followed by `:`; what follows a second `?` is never
      looked at. */
  lemma UrlWithQuery(a: string, q: string, rest: string)
    requires '?' !in a && '?' !in q && (rest == "" || rest[0] == '?')
    ensures ValidUrlShape(a + "?" + q + rest)
            <==> StartsWith(a, "/") && StartsWith(q, ":") && ColonAfterEachAmp(q)
  {
    var s := a + "?" + q + rest;
    assert s == a + ['?'] + (q + rest);
    SplitOnFirst(a, '?', q + rest);
    SplitOnLeading(q, '?', rest);
    QueryPiecesIff(q);
    if |a| > 0 {
      assert s[..1] == a[..1];
    } else {
      assert s[0] == '?';
    }
  }

  /** A `:` followed by a word character. */
  predicate PlaceholderAt(s: string, i: int) {
    0 <= i && i + 1 < |s| && s[i] == ':' && IsWordChar(s[i + 1])
  }

  /** The captures of `/:(\w+)/g` over `s`, in order: a `:` followed by a
      word character starts a match, which takes the whole word run after the
      colon; the scan resumes after the match. */
  function Placeholders(s: string): (r: seq<string>)
    ensures forall k :: 0 <= k < |r| ==> IsWord(r[k])
    decreases |s|
  {
    if |s| == 0 then []
    else if PlaceholderAt(s, 0) then
      var e := WordEnd(s, 1);
      [s[1..e]] + Placeholders(s[e..])
    else Placeholders(s[1..])
  }

  /** The scan finds nothing exactly when no `:` is followed by a word
      character. */
  lemma {:induction false} PlaceholdersEmpty(s: string)
    ensures Placeholders(s) == [] <==> forall i :: !PlaceholderAt(s, i)
    decreases |s|
  {
    if |s| > 0 && !PlaceholderAt(s, 0) {
      PlaceholdersEmpty(s[1..]);
      forall i | PlaceholderAt(s, i) ensures PlaceholderAt(s[1..], i - 1) {
        assert i > 0;
      }
      forall i | PlaceholderAt(s[1..], i) ensures PlaceholderAt(s, i + 1) { }
    }
  }

  /** Text that starts with a non-word character cuts the scan in two: the
      matches of the two halves, in order. */
  lemma {:induction false} PlaceholdersConcat(a: string, t: string)
    requires |t| > 0 && !IsWordChar(t[0])
    ensures Placeholders(a + t) == Placeholders(a) + Placeholders(t)
    decreases |a|
  {
    var s := a + t;
    if |a| == 0 {
      assert s == t;
    } else if PlaceholderAt(a, 0) {
      assert PlaceholderAt(s, 0);
      WordEndConcat(a, t, 1);
      var e := WordEnd(a, 1);
      assert s[1..e] == a[1..e];
      assert s[e..] == a[e..] + t;
      PlaceholdersConcat(a[e..], t);
    } else {
      assert !PlaceholderAt(s, 0);
      assert s[1..] == a[1..] + t;
      PlaceholdersConcat(a[1..], t);
    }
  }

  /** `:w` followed by the end or a non-word character is one match. */
  lemma PlaceholderOne(w: string, b: string)
    requires IsWord(w)
    requires b == "" || !IsWordChar(b[0])
    ensures Placeholders(":" + w + b) == [w] + Placeholders(b)
  {
    var s := ":" + w + b;
    var e := 1 + |w|;
    assert s[1..e] == w;
    assert AllWord(s, 1, e);
    assert e < |s| ==> s[e] == b[0];
    WordEndAt(s, 1, e);
    assert PlaceholderAt(s, 0);
    assert s[e..] == b;
  }
}
