/** `lspToArray`: a declaration `(keyword arg1 ... argN)` loses its first
    and last character, is split on single spaces that are not inside a
    brace map, and its blank pieces are dropped.

    The split regular expression is `/ (?![^{]*})/`: a space is a separator
    unless the text after it reaches a `}` before any `{`. */
module Tokenizer {

  import opened JsText

  /** The lookahead `(?=[^{]*})`: reading `s` from its start, a `}` comes
      before any `{`. */
  predicate CloseAhead(s: string) {
    if |s| == 0 then false
    else if s[0] == '}' then true
    else if s[0] == '{' then false
    else CloseAhead(s[1..])
  }

  /** The split regular expression matches at index `p` of `s`. */
  predicate IsSeparator(s: string, p: int) {
    0 <= p < |s| && s[p] == ' ' && !CloseAhead(s[p + 1..])
  }

  /** The pieces of `s` between separators, empty ones included. Joining
      them with a space gives back `s`. */
  function Split(s: string): (r: seq<string>)
    ensures |r| >= 1
    ensures Join(r, " ") == s
  {
    if |s| == 0 then [""]
    else
      var rest := Split(s[1..]);
      assert s == [s[0]] + s[1..];
      if IsSeparator(s, 0) then
        assert Join([""] + rest, " ") == " " + Join(rest, " ") by {
          assert ([""] + rest)[1..] == rest;
        }
        [""] + rest
      else
        JoinPrepend(s[0], rest, " ");
        [[s[0]] + rest[0]] + rest[1..]
  }

  /** Every space joining two consecutive pieces of `r` is a separator of
      the joined text. */
  predicate JoinedAtSeparators(r: seq<string>) {
    forall k :: 1 <= k < |r| ==> !CloseAhead(Join(r[k..], " "))
  }

  /** No space inside a piece of `r` is a separator of the joined text: each
      is followed by a `}` before any `{`. */
  predicate InnerSpacesKept(r: seq<string>) {
    forall k, j :: 0 <= k < |r| && 0 <= j < |r[k]| && r[k][j] == ' ' ==>
      CloseAhead(Join(r[k..], " ")[j + 1..])
  }

  /** The spaces `Split` cuts at are exactly the separators. */
  lemma {:induction false} SplitCutsAtSeparators(s: string)
    ensures JoinedAtSeparators(Split(s))
    ensures InnerSpacesKept(Split(s))
  {
    if |s| > 0 {
      var t := s[1..];
      var rest := Split(t);
      SplitCutsAtSeparators(t);
      SplitStepAt(s, s[0], t);
      if IsSeparator(s, 0) {
        JoinedAfterCut(t, rest);
        KeptAfterCut(rest);
      } else {
        JoinedAfterGlue(s[0], rest);
        KeptAfterGlue(s[0], t, rest);
      }
    }
  }

  /** A cut at the front keeps every joining space a separator. */
  lemma JoinedAfterCut(t: string, rest: seq<string>)
    requires !CloseAhead(t) && |rest| >= 1 && Join(rest, " ") == t
    requires JoinedAtSeparators(rest)
    ensures JoinedAtSeparators([""] + rest)
  {
    var r := [""] + rest;
    forall k | 1 <= k < |r| ensures !CloseAhead(Join(r[k..], " ")) {
      assert r[k..] == rest[k - 1..];
      if k == 1 {
        assert rest[0..] == rest;
      }
    }
  }

  /** A cut at the front keeps every inner space kept. */
  lemma KeptAfterCut(rest: seq<string>)
    requires InnerSpacesKept(rest)
    ensures InnerSpacesKept([""] + rest)
  {
    var r := [""] + rest;
    forall k, j | 0 <= k < |r| && 0 <= j < |r[k]| && r[k][j] == ' '
      ensures CloseAhead(Join(r[k..], " ")[j + 1..])
    {
      assert k >= 1;
      assert r[k..] == rest[k - 1..];
      assert r[k] == rest[k - 1];
    }
  }

  /** A character glued to the first piece keeps every joining space a
      separator. */
  lemma JoinedAfterGlue(c: char, rest: seq<string>)
    requires |rest| >= 1 && JoinedAtSeparators(rest)
    ensures JoinedAtSeparators([[c] + rest[0]] + rest[1..])
  {
    var r := [[c] + rest[0]] + rest[1..];
    forall k | 1 <= k < |r| ensures !CloseAhead(Join(r[k..], " ")) {
      assert r[k..] == rest[k..];
    }
  }

  /** A character that is not a separator, glued to the first piece, keeps
      every inner space kept. */
  lemma KeptAfterGlue(c: char, t: string, rest: seq<string>)
    requires !(c == ' ' && !CloseAhead(t))
    requires |rest| >= 1 && Join(rest, " ") == t && InnerSpacesKept(rest)
    ensures InnerSpacesKept([[c] + rest[0]] + rest[1..])
  {
    var r := [[c] + rest[0]] + rest[1..];
    JoinPrepend(c, rest, " ");
    assert r[0..] == r;
    assert rest[0..] == rest;
    forall k, j | 0 <= k < |r| && 0 <= j < |r[k]| && r[k][j] == ' '
      ensures CloseAhead(Join(r[k..], " ")[j + 1..])
    {
      if k >= 1 {
        assert r[k..] == rest[k..];
        assert r[k] == rest[k];
      } else if j > 0 {
        assert r[0][j] == rest[0][j - 1];
        assert Join(r, " ")[j + 1..] == t[j..];
      } else {
        assert Join(r, " ")[1..] == t;
      }
    }
  }

  /** `lspToArray(lsp)`: the non-blank pieces of the declaration without its
      outer characters, in order. */
  function Tokens(lsp: string): (r: seq<string>)
    ensures forall t :: t in r ==> !IsBlank(t)
    ensures forall t :: t in r <==> t in Split(SliceInner(lsp)) && !IsBlank(t)
  {
    NonBlank(Split(SliceInner(lsp)))
  }

  /** `pieces.filter(str => str.trim().length > 0)`. */
  function NonBlank(pieces: seq<string>): (r: seq<string>)
    ensures |r| <= |pieces|
    ensures forall t :: t in r <==> t in pieces && Trim(t) != ""
  {
    if |pieces| == 0 then []
    else
      var rest := NonBlank(pieces[1..]);
      assert pieces == [pieces[0]] + pieces[1..];
      if Trim(pieces[0]) != "" then [pieces[0]] + rest else rest
  }

  /** A brace map `{...}` with no brace inside it. */
  predicate IsBraceGroup(m: string) {
    |m| >= 2 && m[0] == '{' && m[|m| - 1] == '}' && '{' !in m[1..|m| - 1] && '}' !in m[1..|m| - 1]
  }

  /** Text whose first brace is `{` does not change the lookahead of what
      precedes it. */
  lemma {:induction false} CloseAheadAppend(a: string, b: string)
    requires !CloseAhead(b)
    ensures CloseAhead(a + b) == CloseAhead(a)
  {
    if |a| == 0 {
      assert a + b == b;
    } else {
      assert (a + b)[1..] == a[1..] + b;
      CloseAheadAppend(a[1..], b);
    }
  }

  /** A separator whose following text opens with `{` (or has no brace)
      splits the text into independent halves. */
  lemma {:induction false} SplitAppend(a: string, b: string)
    requires !CloseAhead(b)
    ensures Split(a + " " + b) == Split(a) + Split(b)
  {
    if |a| == 0 {
      SplitAppendEmpty(b);
    } else {
      SplitAppend(a[1..], b);
      SplitAppendCons(a, b);
    }
  }

  lemma SplitAppendEmpty(b: string)
    requires !CloseAhead(b)
    ensures Split("" + " " + b) == Split("") + Split(b)
  {
    var s := "" + " " + b;
    assert s[1..] == b;
    SplitStep(s);
  }

  /** The step of `SplitAppend` for a non-empty left half. */
  lemma SplitAppendCons(a: string, b: string)
    requires |a| > 0 && !CloseAhead(b)
    requires Split(a[1..] + " " + b) == Split(a[1..]) + Split(b)
    ensures Split(a + " " + b) == Split(a) + Split(b)
  {
    var r := Split(a[1..]);
    var q := Split(b);
    SplitConsShape(a, b, r + q);
    SplitStep(a);
    if IsSeparator(a, 0) {
      ConcatAssoc([""], r, q);
    } else {
      JoinFirstPiece([a[0]], r, q);
    }
  }

  /** The split of `a + " " + b` from the split of what follows its first
      character. */
  lemma SplitConsShape(a: string, b: string, rest: seq<string>)
    requires |a| > 0 && !CloseAhead(b)
    requires Split(a[1..] + " " + b) == rest
    ensures |rest| >= 1
    ensures Split(a + " " + b) == if IsSeparator(a, 0) then [""] + rest else [[a[0]] + rest[0]] + rest[1..]
  {
    SeparatorAppend(a, b);
    SpaceJoinCons(a, b);
    SplitStepAt(a + " " + b, a[0], a[1..] + " " + b);
  }

  lemma SpaceJoinCons(a: string, b: string)
    requires |a| > 0
    ensures (a + " " + b)[0] == a[0]
    ensures (a + " " + b)[1..] == a[1..] + " " + b
  {
  }

  lemma SplitStepAt(s: string, c: char, t: string)
    requires |s| > 0 && s[0] == c && s[1..] == t
    ensures Split(s) == if IsSeparator(s, 0) then [""] + Split(t) else [[c] + Split(t)[0]] + Split(t)[1..]
  {
  }

  /** The first character of `a` is a separator of `a + " " + b` exactly
      when it is one of `a`. */
  lemma SeparatorAppend(a: string, b: string)
    requires |a| > 0 && !CloseAhead(b)
    ensures IsSeparator(a + " " + b, 0) == IsSeparator(a, 0)
  {
    var s := a + " " + b;
    assert s[1..] == a[1..] + (" " + b);
    assert (" " + b)[1..] == b;
    CloseAheadAppend(a[1..], " " + b);
  }

  lemma JoinFirstPiece(x: string, r: seq<string>, q: seq<string>)
    requires |r| >= 1
    ensures [x + (r + q)[0]] + (r + q)[1..] == ([x + r[0]] + r[1..]) + q
  {
    assert (r + q)[1..] == r[1..] + q;
  }

  /** One step of the split: the first character either is a separator or
      joins the first piece of the rest. */
  lemma SplitStep(s: string)
    requires |s| > 0
    ensures Split(s) == if IsSeparator(s, 0) then [""] + Split(s[1..])
                        else [[s[0]] + Split(s[1..])[0]] + Split(s[1..])[1..]
  {
  }

  /** Text in which every space is followed by a `}` before any `{` is one
      piece. */
  lemma {:induction false} SplitWhole(s: string)
    requires forall j :: 0 <= j < |s| && s[j] == ' ' ==> CloseAhead(s[j + 1..])
    ensures Split(s) == [s]
  {
    if |s| > 0 {
      forall j | 0 <= j < |s[1..]| && s[1..][j] == ' ' ensures CloseAhead(s[1..][j + 1..]) {
        assert s[1..][j + 1..] == s[j + 2..];
      }
      SplitWhole(s[1..]);
    }
  }

  /** A brace map stays one piece whatever spaces it holds. */
  lemma BraceGroupWhole(m: string)
    requires IsBraceGroup(m)
    ensures Split(m) == [m]
  {
    forall j | 0 <= j < |m| && m[j] == ' ' ensures CloseAhead(m[j + 1..]) {
      assert 0 < j < |m| - 1;
      BraceGroupTail(m, j + 1);
    }
    SplitWhole(m);
  }

  lemma {:induction false} BraceGroupTail(m: string, i: nat)
    requires IsBraceGroup(m) && 1 <= i < |m|
    ensures CloseAhead(m[i..])
    decreases |m| - i
  {
    if i < |m| - 1 {
      assert m[i] == m[1..|m| - 1][i - 1];
      assert m[i..][1..] == m[i + 1..];
      BraceGroupTail(m, i + 1);
    }
  }

  /** `lspToArray` keeps a brace map at the end of the text whole: it comes
      out as exactly one piece. */
  lemma BraceMapAtEnd(head: string, m: string)
    requires IsBraceGroup(m)
    ensures Split(head + " " + m) == Split(head) + [m]
  {
    BraceGroupWhole(m);
    OpensWithBrace(m, "");
    assert m + "" == m;
    SplitAppend(head, m);
  }

  /** `lspToArray` keeps a brace map followed by a further separator whole:
      it comes out as exactly one piece between the pieces around it. */
  lemma BraceMapKeptWhole(head: string, m: string, tail: string)
    requires IsBraceGroup(m)
    requires !CloseAhead(tail)
    ensures Split(head + " " + m + " " + tail) == Split(head) + [m] + Split(tail)
  {
    BraceGroupWhole(m);
    SplitAppend(m, tail);
    assert Split(m + " " + tail) == [m] + Split(tail);
    SplitAppendAssoc(head, m, tail);
    assert Split(head + " " + m + " " + tail) == Split(head) + ([m] + Split(tail));
  }

  /** `filter` keeps one piece exactly when it is not blank. */
  lemma NonBlankOne(t: string)
    ensures NonBlank([t]) == if Trim(t) != "" then [t] else []
  {
    assert [t][1..] == [];
  }

  /** `filter` works piece by piece: it keeps the order and the
      multiplicity of the pieces it keeps. */
  lemma {:induction false} NonBlankAppend(a: seq<string>, b: seq<string>)
    ensures NonBlank(a + b) == NonBlank(a) + NonBlank(b)
  {
    if |a| == 0 {
      assert a + b == b;
    } else {
      assert (a + b)[0] == a[0];
      assert (a + b)[1..] == a[1..] + b;
      NonBlankAppend(a[1..], b);
    }
  }

  /** A brace group is never blank. */
  lemma BraceGroupNotBlank(m: string)
    requires IsBraceGroup(m)
    ensures Trim(m) != ""
  {
    assert !IsSpace(m[0]);
  }

  /** `lspToArray` keeps a brace map followed by a further separator as one
      token, between the tokens of the text around it. */
  lemma TokensBraceMap(lsp: string, head: string, m: string, tail: string)
    requires SliceInner(lsp) == head + " " + m + " " + tail
    requires IsBraceGroup(m)
    requires !CloseAhead(tail)
    ensures Tokens(lsp) == NonBlank(Split(head)) + [m] + NonBlank(Split(tail))
  {
    BraceMapKeptWhole(head, m, tail);
    NonBlankAppend(Split(head) + [m], Split(tail));
    NonBlankAppend(Split(head), [m]);
    BraceGroupNotBlank(m);
    NonBlankOne(m);
  }

  /** A brace map at the end of a declaration is its last token. */
  lemma TokensBraceMapAtEnd(lsp: string, head: string, m: string)
    requires SliceInner(lsp) == head + " " + m
    requires IsBraceGroup(m)
    ensures Tokens(lsp) == NonBlank(Split(head)) + [m]
  {
    BraceMapAtEnd(head, m);
    NonBlankAppend(Split(head), [m]);
    BraceGroupNotBlank(m);
    NonBlankOne(m);
  }

  lemma OpensWithBrace(m: string, rest: string)
    requires |m| > 0 && m[0] == '{'
    ensures !CloseAhead(m + rest)
  {
    assert (m + rest)[0] == '{';
  }

  lemma SplitAppendAssoc(head: string, m: string, tail: string)
    requires |m| > 0 && m[0] == '{'
    ensures Split(head + " " + m + " " + tail) == Split(head) + Split(m + " " + tail)
  {
    var mt := m + " " + tail;
    OpensWithBrace(m, " " + tail);
    assert mt == m + (" " + tail);
    assert head + " " + m + " " + tail == head + " " + mt;
    SplitAppend(head, mt);
  }
}
