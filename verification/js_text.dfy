/** The JavaScript string built-ins the library leans on, over `string`
    (a sequence of Unicode scalar values): `\s` and `trim`, `\w`,
    `split` with a one-character separator, `indexOf`, `replace` with a
    string pattern (first occurrence only, `$` patterns expanded) and the
    decimal rendering of a non-negative integer. */
module JsText {

  import opened Results

  /** A character `\s` matches and `String.prototype.trim` removes:
      the ECMAScript WhiteSpace and LineTerminator characters. */
  predicate IsSpace(c: char) {
    var n := c as int;
    || n == 0x20 || 0x09 <= n <= 0x0D
    || n == 0xA0 || n == 0x1680 || 0x2000 <= n <= 0x200A
    || n == 0x2028 || n == 0x2029 || n == 0x202F || n == 0x205F
    || n == 0x3000 || n == 0xFEFF
  }

  /** A character `\w` matches: ASCII letters, digits and underscore. */
  predicate IsWordChar(c: char) {
    ('a' <= c <= 'z') || ('A' <= c <= 'Z') || ('0' <= c <= '9') || c == '_'
  }

  predicate IsBlank(s: string) {
    forall i :: 0 <= i < |s| ==> IsSpace(s[i])
  }

  predicate IsWord(s: string) {
    |s| > 0 && forall i :: 0 <= i < |s| ==> IsWordChar(s[i])
  }

  predicate StartsWith(s: string, prefix: string) {
    |prefix| <= |s| && s[..|prefix|] == prefix
  }

  /** Every character of `s[p..e]` is a `\w` character. */
  predicate AllWord(s: string, p: int, e: int) {
    0 <= p <= e <= |s| && forall q :: p <= q < e ==> IsWordChar(s[q])
  }

  /** Every character of `s[p..e]` is whitespace. */
  predicate AllSpace(s: string, p: int, e: int) {
    0 <= p <= e <= |s| && forall q :: p <= q < e ==> IsSpace(s[q])
  }

  /** Where a greedy `\w*` starting at `p` stops. */
  function WordEnd(s: string, p: nat): (e: nat)
    requires p <= |s|
    ensures AllWord(s, p, e)
    ensures e < |s| ==> !IsWordChar(s[e])
    decreases |s| - p
  {
    if p < |s| && IsWordChar(s[p]) then WordEnd(s, p + 1) else p
  }

  /** Where a greedy `\s*` starting at `p` stops. */
  function SpaceEnd(s: string, p: nat): (e: nat)
    requires p <= |s|
    ensures AllSpace(s, p, e)
    ensures e < |s| ==> !IsSpace(s[e])
    decreases |s| - p
  {
    if p < |s| && IsSpace(s[p]) then SpaceEnd(s, p + 1) else p
  }

  /** A word run followed by the end or a non-word character is the run a
      greedy `\w*` takes. */
  lemma WordEndAt(s: string, p: nat, e: nat)
    requires AllWord(s, p, e)
    requires e == |s| || !IsWordChar(s[e])
    ensures WordEnd(s, p) == e
  {
  }

  /** A whitespace run followed by the end or a non-space character is the
      run a greedy `\s*` takes. */
  lemma SpaceEndAt(s: string, p: nat, e: nat)
    requires AllSpace(s, p, e)
    requires e == |s| || !IsSpace(s[e])
    ensures SpaceEnd(s, p) == e
  {
  }

  /** A word run inside `x` ends the same way when text starting with a
      non-word character follows. */
  lemma WordEndConcat(x: string, t: string, p: nat)
    requires p <= |x|
    requires |t| > 0 && !IsWordChar(t[0])
    ensures WordEnd(x + t, p) == WordEnd(x, p)
  {
    var e := WordEnd(x, p);
    assert (x + t)[e] == if e < |x| then x[e] else t[0];
    WordEndAt(x + t, p, e);
  }

  lemma WordCharNotSpace(c: char)
    requires IsWordChar(c)
    ensures !IsSpace(c)
  {
  }

  /** `s.slice(1, -1)`: drops the first and the last character; a string
      shorter than two characters becomes empty. */
  function SliceInner(s: string): (r: string)
    ensures |s| >= 2 ==> s == [s[0]] + r + [s[|s| - 1]]
    ensures |s| < 2 ==> r == ""
  {
    if |s| < 2 then "" else s[1..|s| - 1]
  }

  /** Slicing a braced text gives back what is between the braces. */
  lemma SliceBraces(inner: string)
    ensures SliceInner("{" + inner + "}") == inner
  {
    var s := "{" + inner + "}";
    assert s[1..|s| - 1] == inner;
  }

  /** `s.slice(1)`: drops the first character, if any. */
  function DropFirst(s: string): (r: string)
    ensures |s| > 0 ==> s == [s[0]] + r
    ensures |s| == 0 ==> r == ""
  {
    if |s| == 0 then "" else s[1..]
  }

  /** Leading whitespace removed. */
  function TrimStart(s: string): (r: string)
    ensures |r| <= |s| && r == s[|s| - |r|..]
    ensures IsBlank(s[..|s| - |r|])
    ensures |r| > 0 ==> !IsSpace(r[0])
  {
    if |s| > 0 && IsSpace(s[0]) then TrimStart(s[1..]) else s
  }

  /** Trailing whitespace removed. */
  function TrimEnd(s: string): (r: string)
    ensures |r| <= |s| && r == s[..|r|]
    ensures IsBlank(s[|r|..])
    ensures |r| > 0 ==> !IsSpace(r[|r| - 1])
  {
    if |s| > 0 && IsSpace(s[|s| - 1]) then TrimEnd(s[..|s| - 1]) else s
  }

  /** `r` is what is left of `s` once `i` blank characters are cut from its
      start and the blank rest after `r` from its end. */
  predicate CutsTo(s: string, r: string, i: int) {
    0 <= i <= |s| - |r| && r == s[i..i + |r|] && IsBlank(s[..i]) && IsBlank(s[i + |r|..])
  }

  /** `String.prototype.trim`: the result is the infix of `s` that remains
      once the whitespace at both ends is cut off. */
  function Trim(s: string): (r: string)
    ensures exists i :: CutsTo(s, r, i)
    ensures |r| > 0 ==> !IsSpace(r[0]) && !IsSpace(r[|r| - 1])
    ensures r == "" <==> IsBlank(s)
  {
    TrimInfix(s);
    TrimBlank(s);
    TrimEnd(TrimStart(s))
  }

  lemma TrimInfix(s: string)
    ensures exists i :: CutsTo(s, TrimEnd(TrimStart(s)), i)
  {
    var t := TrimStart(s);
    var r := TrimEnd(t);
    var i := |s| - |t|;
    assert r == s[i..i + |r|];
    assert IsBlank(s[i + |r|..]) by {
      assert s[i + |r|..] == t[|r|..];
    }
    assert CutsTo(s, r, i);
  }

  lemma TrimBlank(s: string)
    ensures TrimEnd(TrimStart(s)) == "" <==> IsBlank(s)
  {
    var t := TrimStart(s);
    var r := TrimEnd(t);
    var i := |s| - |t|;
    if r == "" {
      assert t == "";
      forall k | 0 <= k < |s| ensures IsSpace(s[k]) {
        assert s[k] == s[..i][k];
      }
    }
  }

  lemma BlankConcat(x: string, y: string)
    ensures IsBlank(x + y) <==> IsBlank(x) && IsBlank(y)
  {
    if IsBlank(x) && IsBlank(y) {
      forall k | 0 <= k < |x + y| ensures IsSpace((x + y)[k]) {
        if k >= |x| { assert (x + y)[k] == y[k - |x|]; }
      }
    }
    if IsBlank(x + y) {
      forall k | 0 <= k < |x| ensures IsSpace(x[k]) {
        assert (x + y)[k] == x[k];
      }
      forall k | 0 <= k < |y| ensures IsSpace(y[k]) {
        assert (x + y)[|x| + k] == y[k];
      }
    }
  }

  /** `parts.join(sep)`. */
  function Join(parts: seq<string>, sep: string): (r: string)
    ensures |parts| == 1 ==> r == parts[0]
  {
    if |parts| == 0 then ""
    else if |parts| == 1 then parts[0]
    else parts[0] + sep + Join(parts[1..], sep)
  }

  /** `s.split(c)` for a one-character separator: the pieces between the
      occurrences of `c`, so there is always at least one piece. Joining
      the pieces with `c` gives back `s`, and no piece contains `c`. */
  function SplitOn(s: string, c: char): (r: seq<string>)
    ensures |r| >= 1
    ensures Join(r, [c]) == s
    ensures forall k :: 0 <= k < |r| ==> c !in r[k]
  {
    if |s| == 0 then [""]
    else
      var rest := SplitOn(s[1..], c);
      if s[0] == c then
        assert s == [c] + s[1..];
        [""] + rest
      else
        JoinPrepend(s[0], rest, [c]);
        assert s == [s[0]] + s[1..];
        [[s[0]] + rest[0]] + rest[1..]
  }

  lemma JoinPrepend(x: char, parts: seq<string>, sep: string)
    requires |parts| >= 1
    ensures Join([[x] + parts[0]] + parts[1..], sep) == [x] + Join(parts, sep)
  {
    var q := [[x] + parts[0]] + parts[1..];
    assert q[1..] == parts[1..];
  }

  /** `pat` occurs in `s` starting at index `i`. */
  predicate OccursAt(s: string, pat: string, i: int) {
    0 <= i && i + |pat| <= |s| && s[i..i + |pat|] == pat
  }

  /** `s.indexOf(pat)`, with `None` for -1: the first index at which
      `pat` occurs. */
  function IndexOf(s: string, pat: string): (r: Option<nat>)
    ensures r.Some? ==> OccursAt(s, pat, r.value)
    ensures r.Some? ==> forall j :: 0 <= j < r.value ==> !OccursAt(s, pat, j)
    ensures r.None? ==> forall j :: !OccursAt(s, pat, j)
  {
    IndexOfFrom(s, pat, 0)
  }

  function IndexOfFrom(s: string, pat: string, i: nat): (r: Option<nat>)
    requires i <= |s|
    ensures r.Some? ==> i <= r.value && OccursAt(s, pat, r.value)
    ensures r.Some? ==> forall j :: i <= j < r.value ==> !OccursAt(s, pat, j)
    ensures r.None? ==> forall j :: i <= j ==> !OccursAt(s, pat, j)
    decreases |s| - i
  {
    if OccursAt(s, pat, i) then Some(i)
    else if i == |s| then None
    else IndexOfFrom(s, pat, i + 1)
  }

  /** The replacement text `String.prototype.replace` inserts for a string
      pattern (GetSubstitution without captures): `$$` is `$`, `$&` the
      matched text, `` $` `` the text before the match, `$'` the text after
      it; every other character, `$` included, stands for itself. */
  function Expand(rep: string, matched: string, before: string, after: string): (r: string)
    ensures '$' !in rep ==> r == rep
  {
    if |rep| == 0 then ""
    else if rep[0] == '$' && |rep| >= 2 && rep[1] in "$&`'" then
      var piece :=
        if rep[1] == '$' then "$"
        else if rep[1] == '&' then matched
        else if rep[1] == '`' then before
        else after;
      piece + Expand(rep[2..], matched, before, after)
    else
      assert '$' !in rep ==> '$' !in rep[1..];
      assert rep == [rep[0]] + rep[1..];
      [rep[0]] + Expand(rep[1..], matched, before, after)
  }

  /** `s.replace(pat, rep)` with a string pattern: only the FIRST
      occurrence of `pat` is replaced; without one, `s` is unchanged. */
  function ReplaceFirst(s: string, pat: string, rep: string): (r: string)
    ensures (forall j :: !OccursAt(s, pat, j)) ==> r == s
    ensures forall a, b :: s == a + pat + b && (forall j :: 0 <= j < |a| ==> !OccursAt(s, pat, j))
                           ==> r == a + Expand(rep, pat, a, b) + b
  {
    match IndexOf(s, pat)
    case None =>
      OccursInConcat(pat);
      s
    case Some(i) =>
      FirstOccurrenceSplit(s, pat, i);
      s[..i] + Expand(rep, pat, s[..i], s[i + |pat|..]) + s[i + |pat|..]
  }

  lemma OccursInConcat(pat: string)
    ensures forall a, b :: OccursAt(a + pat + b, pat, |a|)
  {
    forall a, b ensures OccursAt(a + pat + b, pat, |a|) {
      assert (a + pat + b)[|a|..|a| + |pat|] == pat;
    }
  }

  /** A first occurrence determines the text before and after it. */
  lemma FirstOccurrenceSplit(s: string, pat: string, i: nat)
    requires OccursAt(s, pat, i)
    requires forall j :: 0 <= j < i ==> !OccursAt(s, pat, j)
    ensures s == s[..i] + pat + s[i + |pat|..]
    ensures forall a, b :: s == a + pat + b && (forall j :: 0 <= j < |a| ==> !OccursAt(s, pat, j))
                           ==> a == s[..i] && b == s[i + |pat|..]
  {
    assert s == s[..i] + pat + s[i + |pat|..];
    forall a, b | s == a + pat + b && (forall j :: 0 <= j < |a| ==> !OccursAt(s, pat, j))
      ensures a == s[..i] && b == s[i + |pat|..]
    {
      assert OccursAt(s, pat, |a|) by {
        assert s[|a|..|a| + |pat|] == pat;
      }
      assert |a| == i;
      assert a == s[..i];
      assert b == s[i + |pat|..];
    }
  }

  /** The decimal digits of `n`, as JavaScript renders a non-negative
      integer in a template literal. */
  function NatToString(n: nat): (r: string)
    ensures |r| >= 1
    ensures forall i :: 0 <= i < |r| ==> '0' <= r[i] <= '9'
    ensures r[0] == '0' ==> n == 0 && r == "0"
  {
    if n < 10 then [DigitChar(n)]
    else NatToString(n / 10) + [DigitChar(n % 10)]
  }

  function DigitChar(d: nat): (c: char)
    requires d < 10
    ensures '0' <= c <= '9' && (c as int) - ('0' as int) == d
  {
    ('0' as int + d) as char
  }

  /** The value of a string of decimal digits. */
  function DigitsValue(s: string): nat
    requires forall i :: 0 <= i < |s| ==> '0' <= s[i] <= '9'
  {
    if |s| == 0 then 0
    else 10 * DigitsValue(s[..|s| - 1]) + ((s[|s| - 1] as int) - ('0' as int))
  }

  /** Reading the rendered digits back gives the number. */
  lemma {:induction false} NatToStringRoundTrip(n: nat)
    ensures DigitsValue(NatToString(n)) == n
  {
    var r := NatToString(n);
    if n >= 10 {
      NatToStringRoundTrip(n / 10);
      assert r[..|r| - 1] == NatToString(n / 10);
    }
  }

  /** Concatenation regroups freely. */
  lemma ConcatAssoc<T>(x: seq<T>, y: seq<T>, z: seq<T>)
    ensures x + (y + z) == (x + y) + z
  {
  }
}
