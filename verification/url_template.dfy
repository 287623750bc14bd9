/** `formatUrl` over many mapping keys at once. A URL template is read as a
    list of literal text and `:name` placeholders; when no placeholder name
    is a prefix of another key and the inserted texts carry no `:` or `$`,
    the key-by-key `replace` of `formatUrl` fills every placeholder a
    mapping key names, each in its own place, and leaves the rest. */
module UrlTemplate {

  import opened Results
  import opened JsText
  import opened JsObject
  import opened Resolver

  /** A piece of a URL template: literal text, or a `:name` placeholder. */
  datatype Piece = Text(t: string) | Hole(name: string)

  function RenderPiece(x: Piece): string {
    match x
    case Text(t) => t
    case Hole(n) => Placeholder(n)
  }

  /** The template written out. */
  function Render(ps: seq<Piece>): string {
    if |ps| == 0 then "" else RenderPiece(ps[0]) + Render(ps[1..])
  }

  /** What `formatUrl` puts in place of `:key`: the payload text in the
      path, `key=` and the payload text in the query. */
  function Rep(key: string, p: Payload, inQuery: bool): string {
    if inQuery then key + "=" + PayloadText(p, key) else PayloadText(p, key)
  }

  function FillPiece(x: Piece, keys: seq<string>, p: Payload, inQuery: bool): Piece {
    if x.Hole? && x.name in keys then Text(Rep(x.name, p, inQuery)) else x
  }

  /** Every placeholder a key names replaced by its text; everything else
      kept. */
  function Filled(ps: seq<Piece>, keys: seq<string>, p: Payload, inQuery: bool): (r: seq<Piece>)
    ensures |r| == |ps|
    ensures forall i :: 0 <= i < |ps| ==> r[i] == FillPiece(ps[i], keys, p, inQuery)
  {
    seq(|ps|, i requires 0 <= i < |ps| => FillPiece(ps[i], keys, p, inQuery))
  }

  /** `:k` cannot be read at the start of `:n` unless `k` is `n`. */
  predicate Separate(k: string, n: string) {
    k == n || (!StartsWith(n, k) && !StartsWith(k, n))
  }

  /** The pieces hold no `:` apart from the one that opens each
      placeholder. */
  predicate PieceClear(x: Piece) {
    match x
    case Text(t) => ':' !in t
    case Hole(n) => ':' !in n
  }

  /** No two placeholders share a name. */
  predicate DistinctHoles(ps: seq<Piece>) {
    forall i, j :: 0 <= i < j < |ps| && ps[i].Hole? && ps[j].Hole? ==> ps[i].name != ps[j].name
  }

  /** The conditions under which the key-by-key `replace` fills the
      template in place: clear pieces with distinct placeholder names, no
      key that can be read inside another placeholder, and inserted texts
      without `:` (which a later key could match) or `$` (which `replace`
      would expand). */
  predicate TemplateOk(ps: seq<Piece>, keys: seq<string>, p: Payload, inQuery: bool) {
    (forall i :: 0 <= i < |ps| ==> PieceClear(ps[i])) &&
    DistinctHoles(ps) &&
    (forall i, k :: 0 <= i < |ps| && ps[i].Hole? && k in keys ==> Separate(k, ps[i].name)) &&
    (forall k :: k in keys ==> ':' !in Rep(k, p, inQuery) && '$' !in Rep(k, p, inQuery))
  }

  // ---------------------------------------------------------------------
  // Rendering
  // ---------------------------------------------------------------------

  lemma {:induction false} RenderAppend(a: seq<Piece>, b: seq<Piece>)
    ensures Render(a + b) == Render(a) + Render(b)
  {
    if |a| == 0 {
      assert a + b == b;
    } else {
      assert (a + b)[0] == a[0];
      assert (a + b)[1..] == a[1..] + b;
      RenderAppend(a[1..], b);
      ConcatAssoc(RenderPiece(a[0]), Render(a[1..]), Render(b));
    }
  }

  /** A character in no piece is in no rendering. */
  lemma {:induction false} CharNotInRender(ps: seq<Piece>, c: char)
    requires c != ':'
    requires forall i :: 0 <= i < |ps| ==> (ps[i].Text? ==> c !in ps[i].t) && (ps[i].Hole? ==> c !in ps[i].name)
    ensures c !in Render(ps)
  {
    if |ps| > 0 {
      CharNotInRender(ps[1..], c);
      assert c !in RenderPiece(ps[0]);
    }
  }

  /** Filling never shortens a query: `key=` is longer than `:key`. */
  lemma {:induction false} QueryFillLonger(qs: seq<Piece>, keys: seq<string>, p: Payload)
    ensures |Render(Filled(qs, keys, p, true))| >= |Render(qs)|
  {
    if |qs| > 0 {
      var f := Filled(qs, keys, p, true);
      assert f[1..] == Filled(qs[1..], keys, p, true);
      QueryFillLonger(qs[1..], keys, p);
    }
  }

  // ---------------------------------------------------------------------
  // Where `:k` can occur
  // ---------------------------------------------------------------------

  lemma OccursShift(a: string, s: string, pat: string, i: nat)
    ensures OccursAt(a + s, pat, |a| + i) <==> OccursAt(s, pat, i)
  {
    if |a| + i + |pat| <= |a + s| {
      assert (a + s)[|a| + i..|a| + i + |pat|] == s[i..i + |pat|];
    }
  }

  /** `:k` occurs nowhere inside one clear piece other than `:k` itself,
      whatever follows the piece. */
  lemma PieceNoMatch(x: Piece, tail: string, k: string, j: nat)
    requires PieceClear(x) && j < |RenderPiece(x)|
    requires x.Hole? ==> x.name != k && Separate(k, x.name)
    ensures !OccursAt(RenderPiece(x) + tail, Placeholder(k), j)
  {
    var s := RenderPiece(x) + tail;
    var pat := Placeholder(k);
    match x
    case Text(t) =>
      NotColonAt(s, pat, j, t[j]);
    case Hole(n) =>
      if j > 0 {
        NotColonAt(s, pat, j, n[j - 1]);
      } else if |k| <= |n| {
        HoleHead(n, tail, k);
      } else {
        HoleShort(n, tail, k);
      }
  }

  /** `:k` cannot start where the text holds a character other than `:`. */
  lemma NotColonAt(s: string, pat: string, j: nat, c: char)
    requires j < |s| && s[j] == c && c != ':'
    requires |pat| > 0 && pat[0] == ':'
    ensures !OccursAt(s, pat, j)
  {
    if j + |pat| <= |s| {
      assert s[j..j + |pat|][0] == c;
    }
  }

  /** `:k` is not read at the start of `:n` when `k` is no prefix of `n`
      and not longer. */
  lemma HoleHead(n: string, tail: string, k: string)
    requires |k| <= |n| && !StartsWith(n, k)
    ensures !OccursAt(Placeholder(n) + tail, Placeholder(k), 0)
  {
    var s := Placeholder(n) + tail;
    assert s[1..1 + |k|] == n[..|k|];
    assert Placeholder(k)[1..] == k;
  }

  /** `:k` is not read at the start of `:n` when `n` is no prefix of the
      longer `k`. */
  lemma HoleShort(n: string, tail: string, k: string)
    requires |k| > |n| && !StartsWith(k, n)
    ensures !OccursAt(Placeholder(n) + tail, Placeholder(k), 0)
  {
    var s := Placeholder(n) + tail;
    var pat := Placeholder(k);
    if |pat| <= |s| {
      assert s[1..1 + |n|] == n;
      assert pat[1..1 + |n|] == k[..|n|];
      assert s[..|pat|][1..1 + |n|] == s[1..1 + |n|];
      assert pat[..|pat|][1..1 + |n|] == pat[1..1 + |n|];
    }
  }

  /** `:k` does not start inside pieces that are not placeholder `k`. */
  lemma {:induction false} NoEarlyMatch(pre: seq<Piece>, rest: string, k: string)
    requires forall i :: 0 <= i < |pre| ==> PieceClear(pre[i])
    requires forall i :: 0 <= i < |pre| && pre[i].Hole? ==> pre[i].name != k && Separate(k, pre[i].name)
    ensures forall j :: 0 <= j < |Render(pre)| ==> !OccursAt(Render(pre) + rest, Placeholder(k), j)
  {
    if |pre| > 0 {
      var x := pre[0];
      var r' := Render(pre[1..]);
      NoEarlyMatch(pre[1..], rest, k);
      ConcatAssoc(RenderPiece(x), r', rest);
      forall j | 0 <= j < |Render(pre)| ensures !OccursAt(Render(pre) + rest, Placeholder(k), j) {
        if j < |RenderPiece(x)| {
          PieceNoMatch(x, r' + rest, k, j);
        } else {
          OccursShift(RenderPiece(x), r' + rest, Placeholder(k), j - |RenderPiece(x)|);
        }
      }
    }
  }

  // ---------------------------------------------------------------------
  // One key
  // ---------------------------------------------------------------------

  /** Without placeholder `k`, filling `k` changes nothing and `:k` is
      absent. */
  lemma NoHole(ps: seq<Piece>, k: string, p: Payload, inQuery: bool)
    requires forall i :: 0 <= i < |ps| ==> PieceClear(ps[i])
    requires forall i :: 0 <= i < |ps| && ps[i].Hole? ==> ps[i].name != k && Separate(k, ps[i].name)
    ensures Absent(Render(ps), Placeholder(k))
    ensures Filled(ps, [k], p, inQuery) == ps
  {
    NoMatchAnywhere(ps, k);
    NothingToFill(ps, k, p, inQuery);
  }

  lemma NothingToFill(ps: seq<Piece>, k: string, p: Payload, inQuery: bool)
    requires forall i :: 0 <= i < |ps| && ps[i].Hole? ==> ps[i].name != k
    ensures Filled(ps, [k], p, inQuery) == ps
  {
  }

  lemma NoMatchAnywhere(ps: seq<Piece>, k: string)
    requires forall i :: 0 <= i < |ps| ==> PieceClear(ps[i])
    requires forall i :: 0 <= i < |ps| && ps[i].Hole? ==> ps[i].name != k && Separate(k, ps[i].name)
    ensures Absent(Render(ps), Placeholder(k))
  {
    var r := Render(ps);
    NoEarlyMatch(ps, "", k);
    assert r + "" == r;
    forall j | 0 <= j ensures !OccursAt(r, Placeholder(k), j) {
      if j < |r| {
        assert !OccursAt(r + "", Placeholder(k), j);
      }
    }
  }

  /** One round of the `forEach`: `replace(":" + k, text)` fills exactly
      placeholder `k`. */
  lemma ReplaceHole(ps: seq<Piece>, k: string, p: Payload, inQuery: bool)
    requires TemplateOk(ps, [k], p, inQuery)
    ensures ReplaceFirst(Render(ps), Placeholder(k), Rep(k, p, inQuery)) == Render(Filled(ps, [k], p, inQuery))
  {
    if i :| 0 <= i < |ps| && ps[i] == Hole(k) {
      HoleSplit(ps, i, k, p, inQuery);
      ReplaceAtHole(ps[..i], ps[i + 1..], k, Rep(k, p, inQuery));
    } else {
      assert k in [k];
      forall j | 0 <= j < |ps| && ps[j].Hole? ensures ps[j].name != k && Separate(k, ps[j].name) {
        assert ps[j] != Hole(k);
      }
      NoHole(ps, k, p, inQuery);
    }
  }

  lemma RenderAround(pre: seq<Piece>, x: Piece, post: seq<Piece>)
    ensures Render(pre + [x] + post) == Render(pre) + (RenderPiece(x) + Render(post))
  {
    RenderAppend(pre + [x], post);
    RenderAppend(pre, [x]);
    assert Render([x]) == RenderPiece(x) + Render([]);
    ConcatAssoc(Render(pre), RenderPiece(x), Render(post));
  }

  /** Replacing `:k` where placeholder `k` is the first piece that can hold
      it. */
  lemma ReplaceAtHole(pre: seq<Piece>, post: seq<Piece>, k: string, w: string)
    requires forall i :: 0 <= i < |pre| ==> PieceClear(pre[i])
    requires forall i :: 0 <= i < |pre| && pre[i].Hole? ==> pre[i].name != k && Separate(k, pre[i].name)
    requires '$' !in w
    ensures ReplaceFirst(Render(pre + [Hole(k)] + post), Placeholder(k), w) == Render(pre + [Text(w)] + post)
  {
    var a, pat, b := Render(pre), Placeholder(k), Render(post);
    NoEarlyMatch(pre, pat + b, k);
    RenderAround(pre, Hole(k), post);
    RenderAround(pre, Text(w), post);
    ConcatAssoc(a, pat, b);
    ConcatAssoc(a, w, b);
    ReplaceAt(a, pat, b, w);
  }

  /** A template with placeholder `k` at `i`: the pieces around it do not
      name `k`, and filling `k` replaces just that piece. */
  lemma HoleSplit(ps: seq<Piece>, i: nat, k: string, p: Payload, inQuery: bool)
    requires TemplateOk(ps, [k], p, inQuery)
    requires i < |ps| && ps[i] == Hole(k)
    ensures ps == ps[..i] + [Hole(k)] + ps[i + 1..]
    ensures forall j :: 0 <= j < i ==> PieceClear(ps[..i][j])
    ensures forall j :: 0 <= j < i && ps[..i][j].Hole? ==> ps[..i][j].name != k && Separate(k, ps[..i][j].name)
    ensures '$' !in Rep(k, p, inQuery)
    ensures Filled(ps, [k], p, inQuery) == ps[..i] + [Text(Rep(k, p, inQuery))] + ps[i + 1..]
  {
    assert k in [k];
    var f := Filled(ps, [k], p, inQuery);
    forall j | 0 <= j < |ps| && j != i ensures f[j] == ps[j] {
      if ps[j].Hole? {
        assert ps[j].name != k by {
          if j < i { assert ps[j].name != ps[i].name; }
          else { assert ps[i].name != ps[j].name; }
        }
      }
    }
    assert f == ps[..i] + [Text(Rep(k, p, inQuery))] + ps[i + 1..];
    forall j | 0 <= j < i && ps[..i][j].Hole? ensures ps[..i][j].name != k {
      assert ps[..i][j] == ps[j];
      assert ps[j].name != ps[i].name;
    }
  }

  /** Filling the first key, then the rest, fills them all. */
  lemma FillCompose(ps: seq<Piece>, keys: seq<string>, p: Payload, inQuery: bool)
    requires |keys| > 0
    ensures Filled(Filled(ps, [keys[0]], p, inQuery), keys[1..], p, inQuery) == Filled(ps, keys, p, inQuery)
  {
    assert keys == [keys[0]] + keys[1..];
  }

  /** The conditions survive filling the first key. */
  lemma FillKeepsOk(ps: seq<Piece>, keys: seq<string>, p: Payload, inQuery: bool)
    requires |keys| > 0 && TemplateOk(ps, keys, p, inQuery)
    ensures TemplateOk(ps, [keys[0]], p, inQuery)
    ensures TemplateOk(Filled(ps, [keys[0]], p, inQuery), keys[1..], p, inQuery)
  {
    var f := Filled(ps, [keys[0]], p, inQuery);
    assert keys[0] in keys;
    forall i | 0 <= i < |f| ensures PieceClear(f[i]) {
      if ps[i].Hole? && ps[i].name == keys[0] {
        assert f[i] == Text(Rep(keys[0], p, inQuery));
      }
    }
    forall k | k in keys[1..] ensures k in keys { }
  }

  // ---------------------------------------------------------------------
  // All keys
  // ---------------------------------------------------------------------

  /** The whole `forEach`: the path and (when there is one) the query come
      out with every placeholder a key names filled. */
  lemma {:induction false} SubstituteTemplate(keys: seq<string>, ps: seq<Piece>, qs: seq<Piece>, p: Payload)
    requires TemplateOk(ps, keys, p, false) && TemplateOk(qs, keys, p, true)
    ensures Substitute(keys, Render(ps), Render(qs), p) ==
            (Render(Filled(ps, keys, p, false)), if Render(qs) == "" then "" else Render(Filled(qs, keys, p, true)))
    decreases |keys|
  {
    if |keys| == 0 {
      assert Filled(ps, keys, p, false) == ps;
      assert Filled(qs, keys, p, true) == qs;
    } else {
      var k := keys[0];
      FillKeepsOk(ps, keys, p, false);
      FillKeepsOk(qs, keys, p, true);
      ReplaceHole(ps, k, p, false);
      FillCompose(ps, keys, p, false);
      var ps1 := Filled(ps, [k], p, false);
      if Render(qs) == "" {
        assert SubstituteKey(k, Render(ps), Render(qs), p) == (Render(ps1), Render([]));
        SubstituteTemplate(keys[1..], ps1, [], p);
      } else {
        ReplaceHole(qs, k, p, true);
        FillCompose(qs, keys, p, true);
        var qs1 := Filled(qs, [k], p, true);
        QueryFillLonger(qs, [k], p);
        assert SubstituteKey(k, Render(ps), Render(qs), p) == (Render(ps1), Render(qs1));
        SubstituteTemplate(keys[1..], ps1, qs1, p);
      }
    }
  }

  /** `formatUrl` on a URL written from templates: the path and query come
      back with every placeholder a mapping key names replaced by the
      payload text (`key=` and the text in the query), every other piece in
      place, and the `?` dropped with an empty query. */
  lemma FormatUrlTemplate(ps: seq<Piece>, qs: seq<Piece>, m: Option<Dict>, p: Payload)
    requires TemplateOk(ps, MappingKeys(m), p, false) && TemplateOk(qs, MappingKeys(m), p, true)
    requires forall i :: 0 <= i < |ps| ==> (ps[i].Text? ==> '?' !in ps[i].t) && (ps[i].Hole? ==> '?' !in ps[i].name)
    requires forall i :: 0 <= i < |qs| ==> (qs[i].Text? ==> '?' !in qs[i].t) && (qs[i].Hole? ==> '?' !in qs[i].name)
    ensures FormatUrl(Some(Render(ps)), m, p) == Success(Render(Filled(ps, MappingKeys(m), p, false)))
    ensures FormatUrl(Some(Render(ps) + "?" + Render(qs)), m, p) ==
            Success(if Render(qs) == "" then Render(Filled(ps, MappingKeys(m), p, false))
                    else Render(Filled(ps, MappingKeys(m), p, false)) + "?" + Render(Filled(qs, MappingKeys(m), p, true)))
  {
    var keys := MappingKeys(m);
    CharNotInRender(ps, '?');
    CharNotInRender(qs, '?');
    UrlPiecesNoQuery(Render(ps));
    UrlPiecesQuery(Render(ps), Render(qs), "");
    assert Render(ps) + "?" + Render(qs) + "" == Render(ps) + "?" + Render(qs);
    SubstituteTemplate(keys, ps, qs, p);
    assert Render([]) == "";
    SubstituteTemplate(keys, ps, [], p);
    QueryFillLonger(qs, keys, p);
  }
}
