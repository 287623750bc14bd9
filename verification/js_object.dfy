/** Plain JavaScript objects used as string dictionaries, and the
    insertion order a JavaScript `Set` iterates in.

    An object is its list of own properties in insertion order, which is
    the order `Object.keys` reports them in for non-numeric keys. A value
    is a string or `undefined` (`None`). */
module JsObject {

  import opened Results

  type Value = Option<string>

  type Dict = seq<(string, Value)>

  predicate Distinct(xs: seq<string>) {
    forall i, j :: 0 <= i < j < |xs| ==> xs[i] != xs[j]
  }

  /** `Object.keys(d)`. */
  function Keys(d: Dict): (ks: seq<string>)
    ensures |ks| == |d|
    ensures forall i :: 0 <= i < |d| ==> ks[i] == d[i].0
  {
    seq(|d|, i requires 0 <= i < |d| => d[i].0)
  }

  /** No key is listed twice, as in every real object. */
  predicate WellFormed(d: Dict) {
    Distinct(Keys(d))
  }

  /** The own property `k`: `None` when there is none, `Some(v)` when there
      is one with value `v` (which may itself be `undefined`). */
  function Get(d: Dict, k: string): (r: Option<Value>)
    ensures r.None? <==> k !in Keys(d)
    ensures r.Some? ==> (k, r.value) in d
  {
    if k in Keys(d) then Some(d[FirstIndex(Keys(d), k)].1) else None
  }

  /** `d[k]` as the source tests it with `== null`: a missing property and
      an `undefined` one both read as `None`. */
  function Lookup(d: Dict, k: string): Value {
    match Get(d, k)
    case Some(v) => v
    case None => None
  }

  /** `d[k] = v`: an existing property keeps its position and takes the new
      value, a new one is appended. */
  function Put(d: Dict, k: string, v: Value): (r: Dict)
    ensures Keys(r) == if k in Keys(d) then Keys(d) else Keys(d) + [k]
    ensures Get(r, k) == Some(v)
    ensures forall k' :: k' != k ==> Get(r, k') == Get(d, k')
    ensures WellFormed(d) ==> WellFormed(r)
  {
    if k in Keys(d) then
      var r := d[FirstIndex(Keys(d), k) := (k, v)];
      assert Keys(r) == Keys(d);
      r
    else
      var r := d + [(k, v)];
      assert Keys(r) == Keys(d) + [k];
      forall k' | k' in Keys(d) ensures FirstIndex(Keys(r), k') == FirstIndex(Keys(d), k') {
        FirstIndexAppend(Keys(d), k, k');
      }
      FirstIndexAppend(Keys(d), k, k);
      r
  }

  /** The value of the LAST pair whose key is `k`, searching from the end. */
  function LastValue(ps: seq<(string, Value)>, k: string): Option<Value> {
    if |ps| == 0 then None
    else if ps[|ps| - 1].0 == k then Some(ps[|ps| - 1].1)
    else LastValue(ps[..|ps| - 1], k)
  }

  /** The object built by writing the pairs one after another, as a loop of
      `o[key] = value` or a `reduce` does. */
  function FromPairs(ps: seq<(string, Value)>): (r: Dict)
    ensures WellFormed(r)
  {
    if |ps| == 0 then []
    else Put(FromPairs(ps[..|ps| - 1]), ps[|ps| - 1].0, ps[|ps| - 1].1)
  }

  /** One pair makes an object of that one property. */
  lemma FromPairsOne(e: (string, Value))
    ensures FromPairs([e]) == [e]
  {
    assert [e][..0] == [];
    assert Keys([]) == [];
    assert Put([], e.0, e.1) == [] + [e];
  }

  /** Writing pairs in order leaves each key with the value of its last pair
      (later duplicates win), and lists each key once, at the position of its
      first pair. */
  lemma {:induction false} FromPairsSpec(ps: seq<(string, Value)>)
    ensures forall k :: Get(FromPairs(ps), k) == LastValue(ps, k)
    ensures Keys(FromPairs(ps)) == Dedup(Keys(ps))
  {
    if |ps| > 0 {
      var init := ps[..|ps| - 1];
      FromPairsSpec(init);
      assert Keys(ps)[..|ps| - 1] == Keys(init);
    }
  }

  /** The keys `xs` as a JavaScript `Set` holds them: each once, in the order
      of its first `add`. */
  function Dedup(xs: seq<string>): (r: seq<string>)
    ensures Distinct(r)
    ensures forall x :: x in r <==> x in xs
  {
    if |xs| == 0 then []
    else
      var d := Dedup(xs[..|xs| - 1]);
      var x := xs[|xs| - 1];
      assert xs == xs[..|xs| - 1] + [x];
      if x in d then d else d + [x]
  }

  /** The index of the first occurrence of `x` in `xs`. */
  function FirstIndex(xs: seq<string>, x: string): (i: nat)
    requires x in xs
    ensures i < |xs| && xs[i] == x && x !in xs[..i]
  {
    if xs[0] == x then 0
    else
      var i := FirstIndex(xs[1..], x);
      assert xs[..i + 1] == [xs[0]] + xs[1..][..i];
      1 + i
  }

  /** `Dedup` lists the distinct elements in the order of their first
      occurrence. */
  lemma {:induction false} DedupOrder(xs: seq<string>)
    ensures forall i, j :: 0 <= i < j < |Dedup(xs)| ==>
      FirstIndex(xs, Dedup(xs)[i]) < FirstIndex(xs, Dedup(xs)[j])
  {
    if |xs| > 0 {
      var init := xs[..|xs| - 1];
      var x := xs[|xs| - 1];
      DedupOrder(init);
      var d := Dedup(init);
      assert xs == init + [x];
      forall y | y in init ensures FirstIndex(xs, y) == FirstIndex(init, y) {
        FirstIndexAppend(init, x, y);
      }
      if x !in d {
        assert x !in init;
        FirstIndexAppend(init, x, x);
        forall i | 0 <= i < |d| ensures FirstIndex(xs, d[i]) < FirstIndex(xs, x) {
          assert d[i] in init;
        }
      }
    }
  }

  lemma FirstIndexAppend(xs: seq<string>, x: string, y: string)
    requires y in xs + [x]
    ensures y in xs ==> FirstIndex(xs + [x], y) == FirstIndex(xs, y)
    ensures y !in xs ==> FirstIndex(xs + [x], y) == |xs|
    ensures x !in xs && Distinct(xs) ==> Distinct(xs + [x])
  {
    var i := FirstIndex(xs + [x], y);
    if y in xs {
      var j := FirstIndex(xs, y);
      assert (xs + [x])[j] == y;
      assert (xs + [x])[..j] == xs[..j];
    }
  }

  /** The object `reqDataKeys.reduce((rs, key) => { rs[key] = key; ... }, {})`
      builds: every key mapped to itself. */
  function Identity(keys: seq<string>): (r: Dict)
    ensures WellFormed(r)
  {
    FromPairs(seq(|keys|, i requires 0 <= i < |keys| => (keys[i], Some(keys[i]))))
  }

  /** The identity object maps exactly the given keys, each to itself, and
      lists them in order of first occurrence. */
  lemma IdentitySpec(keys: seq<string>)
    ensures forall k :: Lookup(Identity(keys), k) == if k in keys then Some(k) else None
    ensures forall k :: k in keys <==> k in Keys(Identity(keys))
    ensures Keys(Identity(keys)) == Dedup(keys)
  {
    var ps := seq(|keys|, i requires 0 <= i < |keys| => (keys[i], Some(keys[i])));
    FromPairsSpec(ps);
    assert Keys(ps) == keys;
    forall k ensures Lookup(Identity(keys), k) == if k in keys then Some(k) else None {
      LastValueIdentity(ps, keys, k);
    }
  }

  lemma {:induction false} LastValueIdentity(ps: seq<(string, Value)>, keys: seq<string>, k: string)
    requires |ps| == |keys|
    requires forall i :: 0 <= i < |ps| ==> ps[i] == (keys[i], Some(keys[i]))
    ensures LastValue(ps, k) == if k in keys then Some(Some(k)) else None
  {
    if |ps| > 0 {
      var n := |ps| - 1;
      LastValueIdentity(ps[..n], keys[..n], k);
      assert keys == keys[..n] + [keys[n]];
    }
  }
}
