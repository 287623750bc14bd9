/** The run-time half (`src/eval.ts`): a compiled declaration and a request
    payload become a data-access request. REST keywords fill the URL
    template's `:key` placeholders from the payload and, for writes, project
    the payload onto the body mappings; local-storage keywords read or write
    one key. `EvalApi` stops at the action it would hand to the caller's
    request sender or storage manager. */
module Resolver {

  import opened Results
  import opened JsText
  import opened JsObject
  import opened UrlSyntax
  import opened Grammar
  import opened Validators
  import opened Compiler

  /** A request payload: `None` is an `undefined` payload; each value is
      the text JavaScript would make of it when it is put into a string. */
  type Payload = Option<map<string, string>>

  const UrlNullMessage := "The url should not be null"
  const KeyNullMessage := "The key should not be null."
  const DataNullMessage := "Data should not be null on store operation."
  const SetupMessage := "Did you forget to setup the LocalStorageManager and RestRequestSender and lspMetadata? If so, Add the compileAll to your entrypoint."
  /** What calling an undefined resolver throws. */
  const NoResolverMessage := "resolver is not a function"
  /** The stand-in `formatUrl` uses when the payload is undefined. */
  const NoDataText := "no-related-data-in-request"

  /** `${val}` in `formatUrl`: the stand-in text for an undefined payload,
      `undefined` for a key the payload lacks. */
  function PayloadText(p: Payload, key: string): (t: string)
    ensures p.Some? && key in p.value ==> t == p.value[key]
    ensures p.None? ==> t == NoDataText
  {
    if p.None? then NoDataText
    else if key in p.value then p.value[key]
    else "undefined"
  }

  /** `reqData?.[key]`. */
  function PayloadValue(p: Payload, key: string): (v: Value)
    ensures v.Some? <==> p.Some? && key in p.value
    ensures v.Some? ==> v.value == p.value[key]
  {
    if p.Some? && key in p.value then Some(p.value[key]) else None
  }

  /** `Object.keys(m ? m : {})`. */
  function MappingKeys(m: Option<Dict>): seq<string> {
    if m.None? then [] else Keys(m.value)
  }

  function Placeholder(key: string): string {
    ":" + key
  }

  /** `pat` occurs nowhere in `s`. */
  ghost predicate Absent(s: string, pat: string) {
    forall j :: !OccursAt(s, pat, j)
  }

  // ---------------------------------------------------------------------
  // formatUrl
  // ---------------------------------------------------------------------

  /** `let [path, query] = url.split("?")`: the text before the first `?`
      and the text between it and the next one, `""` standing for an
      undefined (and so falsy) query. */
  function UrlPieces(url: string): (string, string) {
    var pieces := SplitOn(url, '?');
    (pieces[0], if |pieces| >= 2 then pieces[1] else "")
  }

  /** One round of the `forEach`: the first `:key` of the path becomes the
      payload text, and, when the query is non-empty, the first `:key` of
      the query becomes `key=` and the payload text. */
  function SubstituteKey(key: string, path: string, query: string, p: Payload): (string, string) {
    var val := PayloadText(p, key);
    (ReplaceFirst(path, Placeholder(key), val),
     if query != "" then ReplaceFirst(query, Placeholder(key), key + "=" + val) else query)
  }

  /** The `forEach` over the mapping keys, in order. */
  function Substitute(keys: seq<string>, path: string, query: string, p: Payload): (string, string) {
    if |keys| == 0 then (path, query)
    else
      var step := SubstituteKey(keys[0], path, query, p);
      Substitute(keys[1..], step.0, step.1, p)
  }

  /** `formatUrl(url, urlFormattingMappings, reqData)`: the payload is read
      by the mapping's KEYS (its values are never looked at). */
  function FormatUrl(url: Option<string>, m: Option<Dict>, p: Payload): (r: Result<string>)
    ensures r.Failure? <==> url.None?
    ensures url.None? ==> r == Failure(UrlNullMessage)
  {
    if url.None? then Failure(UrlNullMessage)
    else
      var pieces := UrlPieces(url.value);
      var done := Substitute(MappingKeys(m), pieces.0, pieces.1, p);
      Success(if done.1 != "" then done.0 + "?" + done.1 else done.0)
  }

  lemma UrlPiecesNoQuery(a: string)
    requires '?' !in a
    ensures UrlPieces(a) == (a, "")
  {
    SplitOnNone(a, '?');
  }

  lemma UrlPiecesQuery(a: string, q: string, rest: string)
    requires '?' !in a && '?' !in q && (rest == "" || rest[0] == '?')
    ensures UrlPieces(a + "?" + q + rest) == (a, q)
  {
    assert a + "?" + q + rest == a + ['?'] + (q + rest);
    SplitOnFirst(a, '?', q + rest);
    SplitOnLeading(q, '?', rest);
  }

  /** Keys whose placeholder occurs in neither part change nothing. */
  lemma {:induction false} SubstituteUntouched(keys: seq<string>, path: string, query: string, p: Payload)
    requires forall i :: 0 <= i < |keys| ==> Absent(path, Placeholder(keys[i])) && Absent(query, Placeholder(keys[i]))
    ensures Substitute(keys, path, query, p) == (path, query)
  {
    if |keys| > 0 {
      assert Absent(path, Placeholder(keys[0])) && Absent(query, Placeholder(keys[0]));
      SubstituteUntouched(keys[1..], path, query, p);
    }
  }

  /** Whatever follows a second `?` is dropped from the URL. */
  lemma FormatUrlDropsSecondQuery(a: string, q: string, rest: string, m: Option<Dict>, p: Payload)
    requires '?' !in a && '?' !in q && |rest| > 0 && rest[0] == '?'
    ensures FormatUrl(Some(a + "?" + q + rest), m, p) == FormatUrl(Some(a + "?" + q), m, p)
  {
    UrlPiecesQuery(a, q, rest);
    UrlPiecesQuery(a, q, "");
    assert a + "?" + q + "" == a + "?" + q;
  }

  /** A URL without placeholders of the mapping keys comes back as it is,
      except that an empty query loses its `?`. */
  lemma FormatUrlVerbatim(a: string, q: string, m: Option<Dict>, p: Payload)
    requires '?' !in a && '?' !in q
    requires forall i :: 0 <= i < |MappingKeys(m)| ==> Absent(a, Placeholder(MappingKeys(m)[i])) && Absent(q, Placeholder(MappingKeys(m)[i]))
    ensures FormatUrl(Some(a), m, p) == Success(a)
    ensures FormatUrl(Some(a + "?" + q), m, p) == Success(if q == "" then a else a + "?" + q)
  {
    UrlPiecesNoQuery(a);
    UrlPiecesQuery(a, q, "");
    assert a + "?" + q + "" == a + "?" + q;
    SubstituteUntouched(MappingKeys(m), a, "", p);
    SubstituteUntouched(MappingKeys(m), a, q, p);
  }

  /** `s.replace(pat, rep)` at the first occurrence `a + pat + b`. */
  lemma ReplaceAt(a: string, pat: string, b: string, rep: string)
    requires forall j :: 0 <= j < |a| ==> !OccursAt(a + pat + b, pat, j)
    ensures ReplaceFirst(a + pat + b, pat, rep) == a + Expand(rep, pat, a, b) + b
  {
  }

  /** A single key rewrites each part once. */
  lemma SubstituteOne(key: string, path: string, query: string, p: Payload)
    ensures Substitute([key], path, query, p) == SubstituteKey(key, path, query, p)
  {
    assert [key][1..] == [];
  }

  /** In a path, only the FIRST `:key` is replaced, by the payload's value
      under the mapping key (as `String.prototype.replace` inserts it). */
  lemma FormatUrlFirstInPath(a: string, key: string, b: string, target: Value, p: Payload)
    requires '?' !in a && '?' !in key && '?' !in b
    requires forall j :: 0 <= j < |a| ==> !OccursAt(a + Placeholder(key) + b, Placeholder(key), j)
    ensures FormatUrl(Some(a + Placeholder(key) + b), Some([(key, target)]), p)
            == Success(a + Expand(PayloadText(p, key), Placeholder(key), a, b) + b)
  {
    var u := a + Placeholder(key) + b;
    assert '?' !in u by {
      assert u == a + [':'] + key + b;
    }
    UrlPiecesNoQuery(u);
    assert MappingKeys(Some([(key, target)])) == [key];
    SubstituteOne(key, u, "", p);
    ReplaceAt(a, Placeholder(key), b, PayloadText(p, key));
  }

  /** In a query, the first `:key` becomes `key=` and the payload's value;
      the path is rewritten independently. */
  lemma FormatUrlFirstInQuery(a: string, q1: string, key: string, q2: string, target: Value, p: Payload)
    requires '?' !in a && '?' !in q1 && '?' !in key && '?' !in q2
    requires Absent(a, Placeholder(key))
    requires forall j :: 0 <= j < |q1| ==> !OccursAt(q1 + Placeholder(key) + q2, Placeholder(key), j)
    ensures FormatUrl(Some(a + "?" + (q1 + Placeholder(key) + q2)), Some([(key, target)]), p)
            == Success(a + "?" + (q1 + Expand(key + "=" + PayloadText(p, key), Placeholder(key), q1, q2) + q2))
  {
    var q := q1 + Placeholder(key) + q2;
    assert '?' !in q by {
      assert q == q1 + [':'] + key + q2;
    }
    UrlPiecesQuery(a, q, "");
    assert a + "?" + q + "" == a + "?" + q;
    assert MappingKeys(Some([(key, target)])) == [key];
    SubstituteOne(key, a, q, p);
    var val := PayloadText(p, key);
    assert ReplaceFirst(a, Placeholder(key), val) == a;
    RewrittenQuery(q1, key, q2, val);
  }

  /** The rewritten query is never empty, so it keeps its `?`. */
  lemma RewrittenQuery(q1: string, key: string, q2: string, val: string)
    requires forall j :: 0 <= j < |q1| ==> !OccursAt(q1 + Placeholder(key) + q2, Placeholder(key), j)
    ensures ReplaceFirst(q1 + Placeholder(key) + q2, Placeholder(key), key + "=" + val)
            == q1 + Expand(key + "=" + val, Placeholder(key), q1, q2) + q2
    ensures ReplaceFirst(q1 + Placeholder(key) + q2, Placeholder(key), key + "=" + val) != ""
  {
    ReplaceAt(q1, Placeholder(key), q2, key + "=" + val);
    ExpandKeepsEquals(key, val, Placeholder(key), q1, q2);
  }

  /** The replacement `key=val` never expands to nothing: the `=` is kept. */
  lemma {:induction false} ExpandKeepsEquals(key: string, val: string, matched: string, before: string, after: string)
    ensures |Expand(key + "=" + val, matched, before, after)| > 0
  {
    ExpandNonEmptyFrom(key + "=" + val, |key|, matched, before, after);
  }

  /** An `=` in a replacement survives expansion. */
  lemma {:induction false} ExpandNonEmptyFrom(rep: string, i: nat, matched: string, before: string, after: string)
    requires i < |rep| && rep[i] == '='
    ensures |Expand(rep, matched, before, after)| > 0
    decreases |rep|
  {
    if rep[0] == '$' && |rep| >= 2 && rep[1] in "$&`'" {
      assert i >= 2;
      ExpandNonEmptyFrom(rep[2..], i - 2, matched, before, after);
    }
  }

  // ---------------------------------------------------------------------
  // toRequestBody
  // ---------------------------------------------------------------------

  /** The `reduce` of `toRequestBody`: each key in turn is assigned the
      payload's value under it. */
  function BodyFold(keys: seq<string>, p: Payload, acc: Dict): Dict {
    if |keys| == 0 then acc
    else BodyFold(keys[1..], p, Put(acc, keys[0], PayloadValue(p, keys[0])))
  }

  /** `toRequestBody(requestBodyMappings, reqData)`. */
  function ToRequestBody(m: Option<Dict>, p: Payload): Dict {
    BodyFold(MappingKeys(m), p, [])
  }

  /** The fold assigns every key it visits and leaves every other property
      of the accumulator alone. */
  lemma {:induction false} BodyFoldGet(keys: seq<string>, p: Payload, acc: Dict, k: string)
    ensures Get(BodyFold(keys, p, acc), k) == if k in keys then Some(PayloadValue(p, k)) else Get(acc, k)
  {
    if |keys| > 0 {
      var acc' := Put(acc, keys[0], PayloadValue(p, keys[0]));
      assert BodyFold(keys, p, acc) == BodyFold(keys[1..], p, acc');
      BodyFoldGet(keys[1..], p, acc', k);
      InTail(keys, k);
      if k != keys[0] {
        assert Get(acc', k) == Get(acc, k);
      }
    }
  }

  lemma InTail(xs: seq<string>, x: string)
    requires |xs| > 0
    ensures x in xs <==> x == xs[0] || x in xs[1..]
  {
    assert xs == [xs[0]] + xs[1..];
  }

  /** Distinct fresh keys are appended in order. */
  lemma {:induction false} BodyFoldKeys(keys: seq<string>, p: Payload, acc: Dict)
    requires Distinct(keys) && WellFormed(acc)
    requires forall i :: 0 <= i < |keys| ==> keys[i] !in Keys(acc)
    ensures Keys(BodyFold(keys, p, acc)) == Keys(acc) + keys
    ensures WellFormed(BodyFold(keys, p, acc))
  {
    if |keys| > 0 {
      var acc' := Put(acc, keys[0], PayloadValue(p, keys[0]));
      assert BodyFold(keys, p, acc) == BodyFold(keys[1..], p, acc');
      FreshStep(keys, acc, acc');
      BodyFoldKeys(keys[1..], p, acc');
      assert Keys(acc) + [keys[0]] + keys[1..] == Keys(acc) + keys by {
        assert keys == [keys[0]] + keys[1..];
      }
    }
  }

  /** After the first key is put, the rest of the keys are still distinct
      and fresh. */
  lemma FreshStep(keys: seq<string>, acc: Dict, acc': Dict)
    requires |keys| > 0 && Distinct(keys)
    requires forall i :: 0 <= i < |keys| ==> keys[i] !in Keys(acc)
    requires Keys(acc') == Keys(acc) + [keys[0]]
    ensures Distinct(keys[1..])
    ensures forall i :: 0 <= i < |keys[1..]| ==> keys[1..][i] !in Keys(acc')
  {
    var tail := keys[1..];
    forall i, j | 0 <= i < j < |tail| ensures tail[i] != tail[j] {
      assert tail[i] == keys[i + 1] && tail[j] == keys[j + 1];
    }
    forall i | 0 <= i < |tail| ensures tail[i] !in Keys(acc') {
      assert tail[i] == keys[i + 1];
      assert keys[i + 1] != keys[0];
    }
  }

  /** The body has exactly the body mapping's keys, in the mapping's order,
      each holding the payload's value under that key (`undefined` when the
      payload lacks it); the mapping's own values are never looked at. An
      absent mapping gives an empty body. */
  lemma ToRequestBodySpec(m: Option<Dict>, p: Payload)
    requires m.Some? ==> WellFormed(m.value)
    ensures Keys(ToRequestBody(m, p)) == MappingKeys(m)
    ensures WellFormed(ToRequestBody(m, p))
    ensures forall k :: Get(ToRequestBody(m, p), k) == if k in MappingKeys(m) then Some(PayloadValue(p, k)) else None
    ensures m.None? ==> ToRequestBody(m, p) == []
  {
    BodyFoldKeys(MappingKeys(m), p, []);
    forall k ensures Get(ToRequestBody(m, p), k) == if k in MappingKeys(m) then Some(PayloadValue(p, k)) else None {
      BodyFoldGet(MappingKeys(m), p, [], k);
    }
  }

  // ---------------------------------------------------------------------
  // keywordResolvers
  // ---------------------------------------------------------------------

  datatype HttpMethod = HttpGet | HttpPost | HttpDelete | HttpPut | HttpPatch

  /** The method as the request sender receives it. */
  function MethodName(m: HttpMethod): string {
    match m
    case HttpGet => "get"
    case HttpPost => "post"
    case HttpDelete => "delete"
    case HttpPut => "put"
    case HttpPatch => "patch"
  }

  /** `RestRequest` and `LocalStorageRequest`. */
  datatype DataAccessRequest =
    | RestRequest(httpMethod: HttpMethod, url: string, requestBody: Option<Dict>)
    | LocalStorageRequest(key: string, store: bool, data: Payload)

  /** The method each REST keyword sends with. */
  function RestMethod(k: Keyword): (m: HttpMethod)
    requires IsRest(k)
    ensures KeywordName(k) == "Rest/" + MethodName(m)
  {
    match k
    case RestGet => HttpGet
    case RestPost => HttpPost
    case RestDelete => HttpDelete
    case RestPut => HttpPut
    case RestPatch => HttpPatch
  }

  /** `keywordResolvers[k](args, reqData, urlMappings, bodyMappings)`: the
      REST resolvers format the first argument as the URL and, except for
      `Rest/get`, build a body; the local-storage resolvers take the first
      argument as the key, `Local/set-in` carrying the whole payload. */
  function Resolve(k: Keyword, args: seq<string>, p: Payload, urlMap: Option<Dict>, bodyMap: Option<Dict>): (r: Result<DataAccessRequest>)
    ensures r.Failure? <==> |args| == 0
    ensures r.Failure? ==> r.error == if IsRest(k) then UrlNullMessage else KeyNullMessage
    ensures r.Success? ==> (r.value.RestRequest? <==> IsRest(k))
    ensures r.Success? && r.value.RestRequest? ==>
              KeywordName(k) == "Rest/" + MethodName(r.value.httpMethod) &&
              Success(r.value.url) == FormatUrl(Some(args[0]), urlMap, p) &&
              (r.value.requestBody.None? <==> k == RestGet) &&
              (r.value.requestBody.Some? ==> r.value.requestBody.value == ToRequestBody(bodyMap, p))
    ensures r.Success? && r.value.LocalStorageRequest? ==>
              r.value.key == args[0] &&
              KeywordName(k) == "Local/" + (if r.value.store then "set-in" else "get-in") &&
              r.value.data == if r.value.store then p else None
  {
    var url := if |args| > 0 then Some(args[0]) else None;
    if IsRest(k) then
      (match FormatUrl(url, urlMap, p)
       case Failure(e) => Failure(e)
       case Success(finalUrl) =>
         if k == RestGet then Success(RestRequest(HttpGet, finalUrl, None))
         else Success(RestRequest(RestMethod(k), finalUrl, Some(ToRequestBody(bodyMap, p)))))
    else if |args| == 0 then Failure(KeyNullMessage)
    else Success(LocalStorageRequest(args[0], k == LocalSetIn, if k == LocalSetIn then p else None))
  }

  // ---------------------------------------------------------------------
  // evalApi
  // ---------------------------------------------------------------------

  /** What `evalApi` hands over: a request for the request sender, or a
      store or a read for the storage manager. */
  datatype Action =
    | Send(url: string, httpMethod: HttpMethod, requestBody: Option<Dict>)
    | Store(key: string, data: map<string, string>)
    | Retrieve(key: string)

  /** Which of `setup`'s three arguments have been given. The metadata
      passed to `setup` is only tested for `null`: `getFacts` reads the
      compiler's own cache. */
  datatype Setup = Setup(hasSender: bool, hasStorage: bool, hasMetadata: bool)

  predicate Configured(s: Setup) {
    s.hasSender && s.hasStorage && s.hasMetadata
  }

  /** The branch on the request's class: a REST request is sent; a store
      needs data; a read retrieves. */
  function Dispatch(req: DataAccessRequest): (r: Result<Action>)
    ensures r.Failure? <==> req.LocalStorageRequest? && req.store && req.data.None?
    ensures r.Failure? ==> r.error == DataNullMessage
    ensures r.Success? && req.RestRequest? ==> r.value == Send(req.url, req.httpMethod, req.requestBody)
    ensures r.Success? && req.LocalStorageRequest? ==> !r.value.Send? && r.value.key == req.key && (r.value.Store? <==> req.store)
  {
    match req
    case RestRequest(verb, url, body) => Success(Send(url, verb, body))
    case LocalStorageRequest(key, store, data) =>
      if store then
        if data.None? then Failure(DataNullMessage) else Success(Store(key, data.value))
      else Success(Retrieve(key))
  }

  /** The resolver for keyword `k` applied to the arguments, the payload and
      the facts `getFacts` gave, then the dispatch. */
  function Perform(k: Keyword, args: seq<string>, p: Payload, f: Facts): Result<Action> {
    match Resolve(k, args, p, f.urlMappings, f.bodyMappings)
    case Failure(e) => Failure(e)
    case Success(req) => Dispatch(req)
  }

  /** `evalApi(lsp, reqData)` against the compiler's cache. */
  function EvalApi(lsp: string, p: Payload, setup: Setup, cache: Cache): (r: Result<Action>)
    ensures !Configured(setup) ==> r == Failure(SetupMessage)
    ensures Configured(setup) && lsp !in cache ==> r == Failure(NoCompilationMessage)
  {
    if !Configured(setup) then Failure(SetupMessage)
    else match GetFacts(lsp, cache)
      case Failure(e) => Failure(e)
      case Success(f) =>
        match Head(lsp)
        case None => Failure(NoResolverMessage)
        case Some(k) => Perform(k, Args(lsp), p, f)
  }

  /** Once the declaration has an argument, the only run-time failure left is
      a store without data. */
  lemma PerformSpec(k: Keyword, args: seq<string>, p: Payload, f: Facts)
    requires |args| >= 1
    ensures Perform(k, args, p, f).Failure? <==> k == LocalSetIn && p.None?
    ensures Perform(k, args, p, f).Failure? ==> Perform(k, args, p, f).error == DataNullMessage
    ensures IsRest(k) ==>
              (Perform(k, args, p, f).Success? && Perform(k, args, p, f).value.Send? &&
               Success(Perform(k, args, p, f).value.url) == FormatUrl(Some(args[0]), f.urlMappings, p) &&
               Perform(k, args, p, f).value.httpMethod == RestMethod(k))
    ensures k == LocalGetIn ==> Perform(k, args, p, f) == Success(Retrieve(args[0]))
    ensures k == LocalSetIn && p.Some? ==> Perform(k, args, p, f) == Success(Store(args[0], p.value))
  {
    var req := Resolve(k, args, p, f.urlMappings, f.bodyMappings);
    assert req.Success?;
    if IsRest(k) {
      assert req.value.RestRequest?;
      assert MethodName(req.value.httpMethod) == MethodName(RestMethod(k));
      assert req.value.httpMethod == RestMethod(k);
    }
  }

  /** A declaration in a sound cache (one `compileAll` wrote) resolves
      without a URL or key error and always finds its resolver: on a
      configured setup `evalApi` fails only on a `Local/set-in` with an
      undefined payload. */
  lemma EvalApiCompiled(lsp: string, p: Payload, setup: Setup, cache: Cache)
    requires Configured(setup) && CacheSound(cache) && lsp in cache
    ensures Head(lsp).Some? && |Args(lsp)| >= 1
    ensures EvalApi(lsp, p, setup, cache) == Perform(Head(lsp).value, Args(lsp), p, CheckLsp(lsp, cache[lsp]).facts)
    ensures EvalApi(lsp, p, setup, cache).Failure? <==> Head(lsp) == Some(LocalSetIn) && p.None?
  {
    var keys := cache[lsp];
    CompileLspError(lsp, keys);
    var k := Head(lsp).value;
    if IsRest(k) {
      CompiledRest(lsp, keys);
    } else {
      CompiledLocal(lsp, keys);
    }
    PerformSpec(k, Args(lsp), p, CheckLsp(lsp, keys).facts);
  }
}
