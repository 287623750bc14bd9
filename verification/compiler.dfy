/** The compile driver: checking one declaration against the keyword
    table, the batch loop over the declarations of a file, the cache of
    request keys the compiler fills for the whole project, and `getFacts`,
    which re-derives the facts of a cached declaration. */
module Compiler {

  import opened Results
  import opened JsText
  import opened JsObject
  import opened Tokenizer
  import opened UrlSyntax
  import opened Grammar
  import opened Validators
  import opened Json
  import opened MapSyntax

  const InvalidKeywordMessage := "Invalid keyword."
  const NoCompilationMessage := "No compilation found for the lsp. Should call compileAll before call getFacts. Did you forget to add the compileAll to your entrypoint?"

  /** The keyword the first token of a declaration names, if any. */
  function Head(lsp: string): Option<Keyword> {
    var ts := Tokens(lsp);
    if |ts| == 0 then None else ParseKeyword(ts[0])
  }

  /** The tokens after the keyword. */
  function Args(lsp: string): seq<string> {
    var ts := Tokens(lsp);
    if |ts| == 0 then [] else ts[1..]
  }

  /** The token at position `i`, or `null` past the end. */
  function TokenAt(args: seq<string>, i: nat): Option<string> {
    if |args| > i then Some(args[i]) else None
  }

  /** The error of position `i` as the compiler reports it (always with the
      suffix `st`). */
  function PositionMessage(i: nat, e: string): (r: string)
    ensures |r| > 0 && r[0] == 'E'
  {
    "Error on the " + NatToString(i + 1) + "st argument: " + e
  }

  /** Validates positions `n - 1` down to `0`, each on the facts the
      positions after it left, and stops at the first that fails. */
  function CheckPositions(rules: seq<Rule>, args: seq<string>, n: nat, f: Facts): (r: Outcome)
    requires n <= |rules|
    ensures r.facts.reqDataKeys == f.reqDataKeys
    ensures r.error.Some? ==> exists i, e :: 0 <= i < n && r.error == Some(PositionMessage(i, e))
    decreases n
  {
    if n == 0 then Outcome(None, f)
    else
      var o := ApplyRule(rules[n - 1], TokenAt(args, n - 1), f);
      if o.error.Some? then Outcome(Some(PositionMessage(n - 1, o.error.value)), o.facts)
      else CheckPositions(rules, args, n - 1, o.facts)
  }

  /** `compileLsp`, with the facts it leaves: an unknown keyword is
      rejected before any validator runs; otherwise the keyword's positions
      are validated from the last to the first on fresh facts. */
  function CheckLsp(lsp: string, keys: seq<string>): (r: Outcome)
    ensures r.facts.reqDataKeys == keys
  {
    match Head(lsp)
    case None => Outcome(Some(InvalidKeywordMessage), FreshFacts(keys))
    case Some(k) => CheckPositions(Rules(k), Args(lsp), |Rules(k)|, FreshFacts(keys))
  }

  /** `compileLsp(lsp, new ValidationFactContext(keys))`: the record
      carries the declaration and its keys unchanged. */
  function CompileLsp(lsp: string, keys: seq<string>): (r: CompilationInfo)
    ensures r.lsp == lsp && r.args == keys
  {
    CompilationInfo(lsp, keys, CheckLsp(lsp, keys).error)
  }

  /** The error of a compilation is `Invalid keyword.` exactly when the
      first token is not a keyword, whatever the arguments; otherwise it
      names a position of the keyword's grammar. */
  lemma CompileLspError(lsp: string, keys: seq<string>)
    ensures CompileLsp(lsp, keys).error == Some(InvalidKeywordMessage) <==> Head(lsp).None?
    ensures Head(lsp).Some? && CompileLsp(lsp, keys).error.Some? ==>
            exists i, e :: 0 <= i < |Rules(Head(lsp).value)| && CompileLsp(lsp, keys).error == Some(PositionMessage(i, e))
  {
    match Head(lsp)
    case None =>
    case Some(k) =>
      var o := CheckPositions(Rules(k), Args(lsp), |Rules(k)|, FreshFacts(keys));
      if o.error.Some? {
        var i, e :| 0 <= i < |Rules(k)| && o.error == Some(PositionMessage(i, e));
        assert PositionMessage(i, e)[0] != InvalidKeywordMessage[0];
      }
  }

  /** The loop of `compileLsp` as the source writes it: a counter running
      down from the last position, one mutable fact record. */
  method CompileLspLoop(lsp: string, keys: seq<string>) returns (info: CompilationInfo, facts: Facts)
    ensures info == CompileLsp(lsp, keys)
    ensures facts == CheckLsp(lsp, keys).facts
  {
    var kw := Head(lsp);
    facts := FreshFacts(keys);
    if kw.None? {
      return CompilationInfo(lsp, keys, Some(InvalidKeywordMessage)), facts;
    }
    var error;
    error, facts := PositionsLoop(Rules(kw.value), Args(lsp), facts);
    info := CompilationInfo(lsp, keys, error);
  }

  /** The `for` loop of `compileLsp` over the positions of a grammar,
      from the last to the first. */
  method PositionsLoop(rules: seq<Rule>, args: seq<string>, f: Facts) returns (error: Option<string>, facts: Facts)
    ensures Outcome(error, facts) == CheckPositions(rules, args, |rules|, f)
  {
    facts := f;
    var i := |rules| - 1;
    while i > -1
      invariant -1 <= i < |rules|
      invariant CheckPositions(rules, args, i + 1, facts) == CheckPositions(rules, args, |rules|, f)
      decreases i
    {
      var syntax := if |args| > i then Some(args[i]) else None;
      var o := ApplyRule(rules[i], syntax, facts);
      CheckPositionsStep(rules, args, i + 1, facts, o);
      if o.error.Some? {
        return Some(PositionMessage(i, o.error.value)), o.facts;
      }
      facts := o.facts;
      i := i - 1;
    }
    error := None;
  }

  /** Tokens past the end of the grammar are never looked at. */
  lemma {:induction false} ExtraArgumentsIgnored(rules: seq<Rule>, args: seq<string>, extra: seq<string>, n: nat, f: Facts)
    requires n <= |rules| && n <= |args|
    ensures CheckPositions(rules, args + extra, n, f) == CheckPositions(rules, args, n, f)
  {
    if n > 0 {
      var t := TokenAt(args, n - 1);
      assert (args + extra)[n - 1] == args[n - 1];
      assert TokenAt(args + extra, n - 1) == t;
      var o := ApplyRule(rules[n - 1], t, f);
      CheckPositionsStep(rules, args, n, f, o);
      CheckPositionsStep(rules, args + extra, n, f, o);
      if o.error.None? {
        ExtraArgumentsIgnored(rules, args, extra, n - 1, o.facts);
      }
    }
  }

  /** One round of the loop: position `n - 1` is validated first. */
  lemma CheckPositionsStep(rules: seq<Rule>, args: seq<string>, n: nat, f: Facts, o: Outcome)
    requires 0 < n <= |rules|
    requires o == ApplyRule(rules[n - 1], TokenAt(args, n - 1), f)
    ensures o.error.Some? ==> CheckPositions(rules, args, n, f) == Outcome(Some(PositionMessage(n - 1, o.error.value)), o.facts)
    ensures o.error.None? ==> CheckPositions(rules, args, n, f) == CheckPositions(rules, args, n - 1, o.facts)
  {
  }

  /** Every position's validator run on the facts the positions after it
      leave, whether or not they failed: element `i` is what position `i`
      makes of its token. */
  function Trace(rules: seq<Rule>, args: seq<string>, n: nat, f: Facts): (r: seq<Outcome>)
    requires n <= |rules|
    ensures |r| == n
    decreases n
  {
    if n == 0 then []
    else
      var o := ApplyRule(rules[n - 1], TokenAt(args, n - 1), f);
      Trace(rules, args, n - 1, o.facts) + [o]
  }

  /** The facts position `i` of a trace is validated on. */
  function SeenBy(t: seq<Outcome>, i: nat, f: Facts): Facts
    requires i < |t|
  {
    if i + 1 == |t| then f else t[i + 1].facts
  }

  /** Position `i` rejects its token and every position after it accepts. */
  predicate LastRejecting(t: seq<Outcome>, i: nat)
    requires i < |t|
  {
    t[i].error.Some? && forall j :: i < j < |t| ==> t[j].error.None?
  }

  /** Each element of the trace is the validator of its position applied
      to the token there and the facts the positions after it leave. */
  lemma {:induction false} TraceAt(rules: seq<Rule>, args: seq<string>, n: nat, f: Facts, i: nat)
    requires i < n <= |rules|
    ensures Trace(rules, args, n, f)[i] == ApplyRule(rules[i], TokenAt(args, i), SeenBy(Trace(rules, args, n, f), i, f))
    decreases n
  {
    var o := ApplyRule(rules[n - 1], TokenAt(args, n - 1), f);
    var t' := Trace(rules, args, n - 1, o.facts);
    TraceSplit(rules, args, n, f, o, t');
    if i < n - 1 {
      TraceAt(rules, args, n - 1, o.facts, i);
      SeenByPrefix(t', o, i, o.facts, f);
    }
  }

  lemma TraceSplit(rules: seq<Rule>, args: seq<string>, n: nat, f: Facts, o: Outcome, t': seq<Outcome>)
    requires 0 < n <= |rules|
    requires o == ApplyRule(rules[n - 1], TokenAt(args, n - 1), f)
    requires t' == Trace(rules, args, n - 1, o.facts)
    ensures Trace(rules, args, n, f) == t' + [o]
  {
  }

  lemma SeenByPrefix(t': seq<Outcome>, o: Outcome, i: nat, g: Facts, f: Facts)
    requires i < |t'|
    requires g == o.facts
    ensures SeenBy(t' + [o], i, f) == SeenBy(t', i, g)
    ensures (t' + [o])[i] == t'[i]
  {
  }

  /** The positions are validated from the last to the first, each on the
      facts the positions after it leave: the declaration passes exactly
      when every position accepts, and then has the facts the first
      position leaves; otherwise the error is that of the highest position
      that rejects, with its validator's message and the facts it left. */
  lemma {:induction false} CheckPositionsSpec(rules: seq<Rule>, args: seq<string>, n: nat, f: Facts)
    requires n <= |rules|
    ensures CheckPositions(rules, args, n, f).error.None? <==>
            forall j :: 0 <= j < n ==> Trace(rules, args, n, f)[j].error.None?
    ensures CheckPositions(rules, args, n, f).error.None? ==>
            CheckPositions(rules, args, n, f).facts == (if n == 0 then f else Trace(rules, args, n, f)[0].facts)
    ensures CheckPositions(rules, args, n, f).error.Some? ==>
            exists i :: 0 <= i < n && LastRejecting(Trace(rules, args, n, f), i) &&
              CheckPositions(rules, args, n, f) ==
              Outcome(Some(PositionMessage(i, Trace(rules, args, n, f)[i].error.value)), Trace(rules, args, n, f)[i].facts)
    decreases n
  {
    if n > 0 {
      var o := ApplyRule(rules[n - 1], TokenAt(args, n - 1), f);
      var t' := Trace(rules, args, n - 1, o.facts);
      var t := Trace(rules, args, n, f);
      CheckPositionsStep(rules, args, n, f, o);
      TraceSplit(rules, args, n, f, o, t');
      if o.error.Some? {
        assert t[n - 1] == o;
        assert LastRejecting(t, n - 1);
      } else {
        CheckPositionsSpec(rules, args, n - 1, o.facts);
        TraceExtend(t', o);
        if CheckPositions(rules, args, n - 1, o.facts).error.Some? {
          var i :| 0 <= i < n - 1 && LastRejecting(t', i) &&
            CheckPositions(rules, args, n - 1, o.facts) == Outcome(Some(PositionMessage(i, t'[i].error.value)), t'[i].facts);
          assert t[i] == t'[i];
          assert LastRejecting(t, i);
        }
      }
    }
  }

  /** Adding an accepting top position changes neither which position is
      the last to reject nor what the others did. */
  lemma TraceExtend(t': seq<Outcome>, o: Outcome)
    requires o.error.None?
    ensures (t' + [o])[|t'|] == o
    ensures forall j :: 0 <= j < |t'| ==> (t' + [o])[j] == t'[j]
    ensures (forall j :: 0 <= j < |t'| + 1 ==> (t' + [o])[j].error.None?) <==> (forall j :: 0 <= j < |t'| ==> t'[j].error.None?)
    ensures forall i :: 0 <= i < |t'| ==> (LastRejecting(t' + [o], i) <==> LastRejecting(t', i))
  {
    forall i | 0 <= i < |t'| ensures LastRejecting(t' + [o], i) <==> LastRejecting(t', i) {
      if LastRejecting(t', i) {
        forall j | i < j < |t'| + 1 ensures (t' + [o])[j].error.None? {
          if j < |t'| { assert (t' + [o])[j] == t'[j]; }
        }
      }
      if LastRejecting(t' + [o], i) {
        forall j | i < j < |t'| ensures t'[j].error.None? {
          assert (t' + [o])[j] == t'[j];
        }
      }
    }
  }

  /** `one-of type/map fn/selfMappings` accepts only by setting the URL
      mappings, and keeps body mappings that were already set. */
  lemma UrlMappingsSet(tok: Option<string>, f: Facts)
    requires ValidateOneOf([MapLiteral, SelfMappings], tok, f).error.None?
    ensures ValidateOneOf([MapLiteral, SelfMappings], tok, f).facts.urlMappings.Some?
    ensures f.bodyMappings.Some? ==> ValidateOneOf([MapLiteral, SelfMappings], tok, f).facts.bodyMappings.Some?
  {
  }

  /** `one-of type/map fn/asBody` accepts only by setting the body
      mappings. */
  lemma BodyMappingsSet(tok: Option<string>, f: Facts)
    requires ValidateOneOf([MapLiteral, AsBody], tok, f).error.None?
    ensures ValidateOneOf([MapLiteral, AsBody], tok, f).facts.bodyMappings.Some?
  {
  }

  predicate IsRest(k: Keyword) {
    k !in {LocalGetIn, LocalSetIn}
  }

  /** What a compiled REST declaration guarantees at run time: it has a URL
      token of URL shape and URL mappings in which every placeholder of the
      URL names a request key; a writing keyword also has body mappings.
      This holds because the mapping positions are validated before the
      URL. */
  lemma CompiledRest(lsp: string, keys: seq<string>)
    requires Head(lsp).Some? && IsRest(Head(lsp).value)
    requires CheckLsp(lsp, keys).error.None?
    ensures |Args(lsp)| >= 2 && ValidUrlShape(Args(lsp)[0])
    ensures CheckLsp(lsp, keys).facts.urlMappings.Some?
    ensures forall name :: name in Placeholders(Args(lsp)[0]) ==>
              MapLookup(CheckLsp(lsp, keys).facts.urlMappings, name).Some? &&
              MapLookup(CheckLsp(lsp, keys).facts.urlMappings, name).value in keys
    ensures Head(lsp).value != RestGet ==> |Args(lsp)| >= 3 && CheckLsp(lsp, keys).facts.bodyMappings.Some?
  {
    var k := Head(lsp).value;
    var rules := Rules(k);
    var args := Args(lsp);
    var f0 := FreshFacts(keys);
    var f1 := f0;
    if k != RestGet {
      var o2 := ApplyRule(rules[2], TokenAt(args, 2), f0);
      CheckPositionsStep(rules, args, 3, f0, o2);
      BodyMappingsSet(TokenAt(args, 2), f0);
      f1 := o2.facts;
    }
    assert CheckLsp(lsp, keys) == CheckPositions(rules, args, 2, f1);
    RestUrlFacts(rules, args, f1);
  }

  /** The two URL positions, when they pass, leave the facts the mapping
      position set, and those map every placeholder of the URL to a request
      key. */
  lemma RestUrlFacts(rules: seq<Rule>, args: seq<string>, f1: Facts)
    requires |rules| >= 2 && rules[0] == Is(Url) && rules[1] == OneOf([MapLiteral, SelfMappings])
    requires CheckPositions(rules, args, 2, f1).error.None?
    ensures |args| >= 2 && ValidUrlShape(args[0])
    ensures CheckPositions(rules, args, 2, f1).facts.urlMappings.Some?
    ensures forall name :: name in Placeholders(args[0]) ==>
              MapLookup(CheckPositions(rules, args, 2, f1).facts.urlMappings, name).Some? &&
              MapLookup(CheckPositions(rules, args, 2, f1).facts.urlMappings, name).value in f1.reqDataKeys
    ensures f1.bodyMappings.Some? ==> CheckPositions(rules, args, 2, f1).facts.bodyMappings.Some?
  {
    var o1 := ApplyRule(rules[1], TokenAt(args, 1), f1);
    var o0 := ApplyRule(rules[0], TokenAt(args, 0), o1.facts);
    CheckTwo(rules, args, 2, f1, o1, o0);
    UrlMappingsSet(TokenAt(args, 1), f1);
    UrlMappingsPosition(TokenAt(args, 1), f1);
    var m := UrlMappingsOf(args[1], f1.reqDataKeys);
    UrlPosition(TokenAt(args, 0), o1.facts, m);
    assert PlaceholdersMapped(args[0], m, f1.reqDataKeys);
    assert CheckPositions(rules, args, 2, f1).facts == o1.facts;
  }

  /** The URL mappings a REST declaration's second token sets: the parsed
      map, or every request key mapped to itself. */
  function UrlMappingsOf(tok: string, keys: seq<string>): Dict {
    if MapLiteralOk(tok) then ParseMap(tok) else Identity(keys)
  }

  /** Every placeholder of `url` is mapped by `m` to a request key. */
  ghost predicate PlaceholdersMapped(url: string, m: Dict, keys: seq<string>) {
    forall name :: name in Placeholders(url) ==>
      MapLookup(Some(m), name).Some? && MapLookup(Some(m), name).value in keys
  }

  /** The conditions on the first two tokens of a REST declaration: a
      URL-shaped first token, a map literal or `selfMappings` second, and
      every placeholder of the URL mapped to a request key by the mappings
      the second token sets. */
  ghost predicate UrlPartOk(args: seq<string>, keys: seq<string>) {
    |args| >= 2 &&
    (MapLang(args[1]) || args[1] == "selfMappings") &&
    ValidUrlShape(args[0]) &&
    PlaceholdersMapped(args[0], UrlMappingsOf(args[1], keys), keys)
  }

  /** The condition on the third token of a writing REST declaration: a
      map literal or `asBody`. */
  ghost predicate BodyPartOk(args: seq<string>) {
    |args| >= 3 && (MapLang(args[2]) || args[2] == "asBody")
  }

  /** The conditions under which a REST declaration compiles, each stated
      on its tokens alone. */
  ghost predicate RestDeclarationOk(k: Keyword, args: seq<string>, keys: seq<string>) {
    (k != RestGet ==> BodyPartOk(args)) && UrlPartOk(args, keys)
  }

  /** The URL-mappings position accepts a map literal or `selfMappings`
      and then holds the mappings that token names. */
  lemma UrlMappingsPosition(tok: Option<string>, f: Facts)
    ensures ValidateOneOf([MapLiteral, SelfMappings], tok, f).error.None? <==>
            tok.Some? && (MapLang(tok.value) || tok.value == "selfMappings")
    ensures ValidateOneOf([MapLiteral, SelfMappings], tok, f).error.None? ==>
            ValidateOneOf([MapLiteral, SelfMappings], tok, f).facts.urlMappings == Some(UrlMappingsOf(tok.value, f.reqDataKeys))
  {
    ValidateMap(tok, f);
    ValidateSelfMappings(tok, f);
    if tok.Some? {
      MapLiteralOkIff(tok.value);
    }
  }

  /** The body-mappings position accepts a map literal or `asBody`. */
  lemma BodyMappingsPosition(tok: Option<string>, f: Facts)
    ensures ValidateOneOf([MapLiteral, AsBody], tok, f).error.None? <==>
            tok.Some? && (MapLang(tok.value) || tok.value == "asBody")
  {
    ValidateMap(tok, f);
    ValidateAsBody(tok, f);
  }

  /** The URL position accepts a URL-shaped token whose placeholders the
      URL mappings send to request keys. */
  lemma UrlPosition(tok: Option<string>, g: Facts, m: Dict)
    requires g.urlMappings == Some(m)
    ensures Validate(Url, tok, g).facts == g
    ensures Validate(Url, tok, g).error.None? <==>
            tok.Some? && ValidUrlShape(tok.value) && PlaceholdersMapped(tok.value, m, g.reqDataKeys)
  {
    ValidateUrl(tok, g);
  }

  /** Two positions pass exactly when the upper accepts and the lower
      accepts on the facts the upper leaves. */
  lemma CheckTwo(rules: seq<Rule>, args: seq<string>, n: nat, f: Facts, o1: Outcome, o0: Outcome)
    requires n == 2 <= |rules|
    requires o1 == ApplyRule(rules[n - 1], TokenAt(args, n - 1), f)
    requires o0 == ApplyRule(rules[n - 2], TokenAt(args, n - 2), o1.facts)
    ensures CheckPositions(rules, args, n, f).error.None? <==> o1.error.None? && o0.error.None?
    ensures CheckPositions(rules, args, n, f).error.None? ==> CheckPositions(rules, args, n, f).facts == o0.facts
  {
    CheckPositionsStep(rules, args, n, f, o1);
    CheckPositionsStep(rules, args, n - 1, o1.facts, o0);
  }

  /** The converse of `CompiledRest`: a REST declaration compiles exactly
      when its tokens meet the conditions above. */
  lemma RestCompiles(lsp: string, keys: seq<string>)
    requires Head(lsp).Some? && IsRest(Head(lsp).value)
    ensures CheckLsp(lsp, keys).error.None? <==> RestDeclarationOk(Head(lsp).value, Args(lsp), keys)
  {
    var k := Head(lsp).value;
    var f0 := FreshFacts(keys);
    assert CheckLsp(lsp, keys) == CheckPositions(Rules(k), Args(lsp), |Rules(k)|, f0);
    if k == RestGet {
      RestUrlPart(Rules(k), Args(lsp), f0, keys);
    } else {
      RestWritePart(Rules(k), Args(lsp), f0, keys);
    }
  }

  /** A writing REST declaration: the body position first, then the two
      URL positions. */
  lemma RestWritePart(rules: seq<Rule>, args: seq<string>, f0: Facts, keys: seq<string>)
    requires |rules| == 3 && rules[0] == Is(Url) && rules[1] == OneOf([MapLiteral, SelfMappings])
    requires rules[2] == OneOf([MapLiteral, AsBody])
    requires f0.reqDataKeys == keys
    ensures CheckPositions(rules, args, 3, f0).error.None? <==> BodyPartOk(args) && UrlPartOk(args, keys)
  {
    var o2 := ApplyRule(rules[2], TokenAt(args, 2), f0);
    BodyMappingsPosition(TokenAt(args, 2), f0);
    CheckPositionsStep(rules, args, 3, f0, o2);
    if o2.error.None? {
      RestUrlPart(rules, args, o2.facts, keys);
    }
  }

  /** The two URL positions of a REST declaration, on facts whose request
      keys are `keys`. */
  lemma RestUrlPart(rules: seq<Rule>, args: seq<string>, f1: Facts, keys: seq<string>)
    requires |rules| >= 2 && rules[0] == Is(Url) && rules[1] == OneOf([MapLiteral, SelfMappings])
    requires f1.reqDataKeys == keys
    ensures CheckPositions(rules, args, 2, f1).error.None? <==> UrlPartOk(args, keys)
  {
    var o1 := ApplyRule(rules[1], TokenAt(args, 1), f1);
    var o0 := ApplyRule(rules[0], TokenAt(args, 0), o1.facts);
    CheckTwo(rules, args, 2, f1, o1, o0);
    UrlMappingsPosition(TokenAt(args, 1), f1);
    if o1.error.None? {
      UrlPosition(TokenAt(args, 0), o1.facts, UrlMappingsOf(args[1], keys));
    }
  }

  /** A local-storage declaration compiles exactly when it has a key token;
      without one it fails at its first position. */
  lemma CompiledLocal(lsp: string, keys: seq<string>)
    requires Head(lsp).Some? && !IsRest(Head(lsp).value)
    ensures CheckLsp(lsp, keys).error.None? <==> |Args(lsp)| >= 1
    ensures |Args(lsp)| == 0 ==> CheckLsp(lsp, keys).error == Some(PositionMessage(0, StringMessage))
    ensures CheckLsp(lsp, keys).facts == FreshFacts(keys)
  {
    var rules := Rules(Head(lsp).value);
    var args := Args(lsp);
    var f := FreshFacts(keys);
    assert rules == [Is(Str)];
    var o := Validate(Str, TokenAt(args, 0), f);
    ValidateString(TokenAt(args, 0), f);
    assert o.facts == f;
    assert CheckLsp(lsp, keys) == CheckPositions(rules, args, 1, f);
    if o.error.None? {
      assert CheckPositions(rules, args, 1, f) == CheckPositions(rules, args, 0, f);
    }
  }

  /** Records up to and including the first with an error. */
  function StopAfterError(cs: seq<CompilationInfo>): (rs: seq<CompilationInfo>)
    ensures |rs| <= |cs| && rs == cs[..|rs|]
    ensures |cs| > 0 ==> |rs| > 0
  {
    if |cs| == 0 then []
    else if cs[0].error.Some? then [cs[0]]
    else [cs[0]] + StopAfterError(cs[1..])
  }

  /** Every record kept but the last is error-free; the records are cut
      short only after an error; and all are kept exactly when none has an
      error. */
  lemma {:induction false} StopAfterErrorSpec(cs: seq<CompilationInfo>)
    ensures forall i :: 0 <= i < |StopAfterError(cs)| - 1 ==> StopAfterError(cs)[i].error.None?
    ensures |StopAfterError(cs)| < |cs| ==> StopAfterError(cs)[|StopAfterError(cs)| - 1].error.Some?
    ensures (forall i :: 0 <= i < |StopAfterError(cs)| ==> StopAfterError(cs)[i].error.None?) <==>
            forall i :: 0 <= i < |cs| ==> cs[i].error.None?
  {
    if |cs| > 0 && cs[0].error.None? {
      var rest := StopAfterError(cs[1..]);
      StopAfterErrorSpec(cs[1..]);
      assert StopAfterError(cs) == [cs[0]] + rest;
      forall i | 1 <= i < |cs| ensures cs[i] == cs[1..][i - 1] { }
    }
  }

  /** The compilation of each declaration of a batch, on its own keys. */
  function Compilations(decls: seq<(string, seq<string>)>): (cs: seq<CompilationInfo>)
    ensures |cs| == |decls|
    ensures forall i :: 0 <= i < |decls| ==> cs[i] == CompileLsp(decls[i].0, decls[i].1)
  {
    seq(|decls|, i requires 0 <= i < |decls| => CompileLsp(decls[i].0, decls[i].1))
  }

  /** `compile`: declarations are compiled in order, each on fresh facts,
      and the batch stops right after the first one with an error. As
      compiling a declaration has no effect on the others, this is the
      list of all compilations cut after the first error. */
  function Compile(decls: seq<(string, seq<string>)>): (rs: seq<CompilationInfo>)
    ensures |rs| <= |decls|
    ensures |decls| > 0 ==> |rs| > 0
    ensures forall i :: 0 <= i < |rs| ==> rs[i] == CompileLsp(decls[i].0, decls[i].1)
  {
    StopAfterError(Compilations(decls))
  }

  /** `filter(c => c.error !== undefined)[0]`. */
  function FirstError(cs: seq<CompilationInfo>): (r: Option<CompilationInfo>)
    ensures r.None? <==> forall i :: 0 <= i < |cs| ==> cs[i].error.None?
    ensures r.Some? ==> r.value in cs && r.value.error.Some?
    ensures r.Some? ==> exists i :: 0 <= i < |cs| && r.value == cs[i] && forall j :: 0 <= j < i ==> cs[j].error.None?
  {
    if |cs| == 0 then None
    else if cs[0].error.Some? then Some(cs[0])
    else FirstError(cs[1..])
  }

  /** The compiler's cache: the request keys of every compiled
      declaration. */
  type Cache = map<string, seq<string>>

  /** `compilations.forEach(c => lspMetadata[c.lsp] = c.args)`. */
  function WriteCache(cache: Cache, cs: seq<CompilationInfo>): (r: Cache)
    ensures cache.Keys <= r.Keys
    decreases |cs|
  {
    if |cs| == 0 then cache
    else WriteCache(cache[cs[0].lsp := cs[0].args], cs[1..])
  }

  /** A declaration no record names keeps its entry, or its absence. */
  lemma {:induction false} WriteCacheKeeps(cache: Cache, cs: seq<CompilationInfo>, l: string)
    requires forall i :: 0 <= i < |cs| ==> cs[i].lsp != l
    ensures l in WriteCache(cache, cs) <==> l in cache
    ensures l in cache ==> WriteCache(cache, cs)[l] == cache[l]
    decreases |cs|
  {
    if |cs| > 0 {
      var c1 := cache[cs[0].lsp := cs[0].args];
      assert forall i :: 0 <= i < |cs[1..]| ==> cs[1..][i] == cs[i + 1];
      WriteCacheKeeps(c1, cs[1..], l);
    }
  }

  /** The writes run in order, so a declaration's entry is the keys of its
      LAST record. */
  lemma {:induction false} WriteCacheLastWins(cache: Cache, cs: seq<CompilationInfo>, i: nat)
    requires i < |cs|
    requires forall j :: i < j < |cs| ==> cs[j].lsp != cs[i].lsp
    ensures cs[i].lsp in WriteCache(cache, cs) && WriteCache(cache, cs)[cs[i].lsp] == cs[i].args
    decreases |cs|
  {
    var c1 := cache[cs[0].lsp := cs[0].args];
    assert forall k :: 0 <= k < |cs[1..]| ==> cs[1..][k] == cs[k + 1];
    if i == 0 {
      WriteCacheKeeps(c1, cs[1..], cs[0].lsp);
    } else {
      WriteCacheLastWins(c1, cs[1..], i - 1);
    }
  }

  /** After the writes, the cache holds every written declaration with the
      keys of its last record, and every other entry is untouched; nothing
      else is added. */
  lemma WriteCacheSpec(cache: Cache, cs: seq<CompilationInfo>)
    ensures forall i :: 0 <= i < |cs| ==> cs[i].lsp in WriteCache(cache, cs)
    ensures forall l :: l in WriteCache(cache, cs) ==> l in cache || exists i :: 0 <= i < |cs| && cs[i].lsp == l
    ensures forall l :: l in WriteCache(cache, cs) ==>
              (l in cache && WriteCache(cache, cs)[l] == cache[l]) ||
              exists i :: 0 <= i < |cs| && cs[i].lsp == l && WriteCache(cache, cs)[l] == cs[i].args
    ensures forall i :: 0 <= i < |cs| && (forall j :: i < j < |cs| ==> cs[j].lsp != cs[i].lsp) ==>
              cs[i].lsp in WriteCache(cache, cs) && WriteCache(cache, cs)[cs[i].lsp] == cs[i].args
    ensures forall l :: l in cache && (forall i :: 0 <= i < |cs| ==> cs[i].lsp != l) ==>
              l in WriteCache(cache, cs) && WriteCache(cache, cs)[l] == cache[l]
  {
    WriteCacheCovers(cache, cs);
    forall i | 0 <= i < |cs| && (forall j :: i < j < |cs| ==> cs[j].lsp != cs[i].lsp)
      ensures cs[i].lsp in WriteCache(cache, cs) && WriteCache(cache, cs)[cs[i].lsp] == cs[i].args
    {
      WriteCacheLastWins(cache, cs, i);
    }
    forall l | l in cache && (forall i :: 0 <= i < |cs| ==> cs[i].lsp != l)
      ensures l in WriteCache(cache, cs) && WriteCache(cache, cs)[l] == cache[l]
    {
      WriteCacheKeeps(cache, cs, l);
    }
  }

  /** Every written declaration is in the cache with the keys of one of its
      records, and nothing else is added. */
  lemma {:induction false} WriteCacheCovers(cache: Cache, cs: seq<CompilationInfo>)
    ensures forall i :: 0 <= i < |cs| ==> cs[i].lsp in WriteCache(cache, cs)
    ensures forall l :: l in WriteCache(cache, cs) ==> l in cache || exists i :: 0 <= i < |cs| && cs[i].lsp == l
    ensures forall l :: l in WriteCache(cache, cs) ==>
              (l in cache && WriteCache(cache, cs)[l] == cache[l]) ||
              exists i :: 0 <= i < |cs| && cs[i].lsp == l && WriteCache(cache, cs)[l] == cs[i].args
    decreases |cs|
  {
    if |cs| > 0 {
      var c1 := cache[cs[0].lsp := cs[0].args];
      WriteCacheCovers(c1, cs[1..]);
      var r := WriteCache(cache, cs);
      assert r == WriteCache(c1, cs[1..]);
      forall i | 0 <= i < |cs| ensures cs[i].lsp in r {
        if i > 0 {
          assert cs[i] == cs[1..][i - 1];
        }
      }
      forall l | l in r
        ensures (l in cache && r[l] == cache[l]) || exists i :: 0 <= i < |cs| && cs[i].lsp == l && r[l] == cs[i].args
      {
        if l in c1 && r[l] == c1[l] {
          if l == cs[0].lsp {
            assert cs[0].lsp == l && r[l] == cs[0].args;
          }
        } else {
          var i :| 0 <= i < |cs[1..]| && cs[1..][i].lsp == l && r[l] == cs[1..][i].args;
          assert cs[i + 1] == cs[1..][i];
        }
      }
      forall l | l in r ensures l in cache || exists i :: 0 <= i < |cs| && cs[i].lsp == l {
        if l !in c1 {
          var i :| 0 <= i < |cs[1..]| && cs[1..][i].lsp == l;
          assert cs[i + 1] == cs[1..][i];
        } else if l == cs[0].lsp {
          assert cs[0].lsp == l;
        }
      }
    }
  }

  /** The outcome of `compileAll`: the cache as it is left, and the message
      thrown, if any. */
  datatype Build = Build(cache: Cache, error: Option<string>)

  /** The compile-and-cache loop of `compileAll` over the files' declaration
      lists: the first file whose batch has an error stops everything with
      `ERROR: ` and the JSON of that record; the cache keeps what the files
      before it wrote. */
  function CompileAll(files: seq<seq<(string, seq<string>)>>, cache: Cache): Build
    decreases |files|
  {
    if |files| == 0 then Build(cache, None)
    else
      var cs := Compile(files[0]);
      match FirstError(cs)
      case Some(e) => Build(cache, Some("ERROR: " + Stringify(e)))
      case None => CompileAll(files[1..], WriteCache(cache, cs))
  }

  /** Every cached declaration compiles with its cached keys. */
  predicate CacheSound(cache: Cache) {
    forall l :: l in cache ==> CheckLsp(l, cache[l]).error.None?
  }

  lemma WriteCacheSound(cache: Cache, cs: seq<CompilationInfo>)
    requires CacheSound(cache)
    requires forall i :: 0 <= i < |cs| ==> cs[i] == CompileLsp(cs[i].lsp, cs[i].args) && cs[i].error.None?
    ensures CacheSound(WriteCache(cache, cs))
  {
    var r := WriteCache(cache, cs);
    WriteCacheCovers(cache, cs);
    forall l | l in r ensures CheckLsp(l, r[l]).error.None? {
      if l in cache && r[l] == cache[l] {
      } else {
        var i :| 0 <= i < |cs| && cs[i].lsp == l && r[l] == cs[i].args;
        assert CompileLsp(l, r[l]).error.None?;
      }
    }
  }

  /** `compileAll` keeps the cache sound, and when it throws nothing every
      declaration of every file is in the cache. When it throws, the
      message carries the JSON of the failing record, which reads back as a
      record with an error. */
  lemma {:induction false} CompileAllSound(files: seq<seq<(string, seq<string>)>>, cache: Cache)
    requires CacheSound(cache)
    ensures CacheSound(CompileAll(files, cache).cache)
    ensures cache.Keys <= CompileAll(files, cache).cache.Keys
    ensures CompileAll(files, cache).error.None? ==>
            forall f, j :: 0 <= f < |files| && 0 <= j < |files[f]| ==> files[f][j].0 in CompileAll(files, cache).cache
    ensures CompileAll(files, cache).error.Some? ==>
            exists e :: CompileAll(files, cache).error == Some("ERROR: " + Stringify(e)) && e.error.Some? &&
                        DecodeInfo(Stringify(e)) == Some(e)
    decreases |files|
  {
    if |files| > 0 {
      var cs := Compile(files[0]);
      match FirstError(cs)
      case Some(e) =>
        DecodeStringify(e);
      case None =>
        WriteCacheSound(cache, cs);
        var c1 := WriteCache(cache, cs);
        CompileAllSound(files[1..], c1);
        StopAfterErrorSpec(Compilations(files[0]));
        WriteCacheCovers(cache, cs);
        if CompileAll(files, cache).error.None? {
          assert |cs| == |files[0]|;
          forall f, j | 0 <= f < |files| && 0 <= j < |files[f]| ensures files[f][j].0 in CompileAll(files, cache).cache {
            if f == 0 {
              assert cs[j].lsp == files[0][j].0;
              assert files[0][j].0 in c1;
            } else {
              assert files[f] == files[1..][f - 1];
            }
          }
        }
    }
  }

  /** No record of a batch has an error. */
  predicate AllCompiled(cs: seq<CompilationInfo>) {
    forall j :: 0 <= j < |cs| ==> cs[j].error.None?
  }

  /** Record `j` is the first with an error. */
  predicate FirstFailing(cs: seq<CompilationInfo>, j: nat) {
    j < |cs| && cs[j].error.Some? && forall i :: 0 <= i < j ==> cs[i].error.None?
  }

  /** Cutting a batch after its first error keeps that error first, and
      cuts nothing from a batch without errors. */
  lemma {:induction false} StopAfterErrorFirst(cs: seq<CompilationInfo>)
    ensures FirstError(StopAfterError(cs)) == FirstError(cs)
    ensures AllCompiled(cs) ==> StopAfterError(cs) == cs
  {
    if |cs| > 0 && cs[0].error.None? {
      StopAfterErrorFirst(cs[1..]);
      assert StopAfterError(cs) == [cs[0]] + StopAfterError(cs[1..]);
      assert ([cs[0]] + StopAfterError(cs[1..]))[1..] == StopAfterError(cs[1..]);
      if AllCompiled(cs) {
        assert AllCompiled(cs[1..]) by {
          forall j | 0 <= j < |cs[1..]| ensures cs[1..][j].error.None? {
            assert cs[1..][j] == cs[j + 1];
          }
        }
        assert [cs[0]] + cs[1..] == cs;
      }
    }
  }

  /** The first error of a batch is the record of its first failing
      position. */
  lemma FirstErrorFirstFailing(cs: seq<CompilationInfo>)
    ensures FirstError(cs).None? <==> AllCompiled(cs)
    ensures FirstError(cs).Some? ==> exists j: nat :: FirstFailing(cs, j) && FirstError(cs) == Some(cs[j])
  {
    if FirstError(cs).Some? {
      var i :| 0 <= i < |cs| && FirstError(cs).value == cs[i] && forall j :: 0 <= j < i ==> cs[j].error.None?;
      assert FirstFailing(cs, i);
    }
  }

  /** Every file's compilations, each file on its own. */
  function Batches(files: seq<seq<(string, seq<string>)>>): (bs: seq<seq<CompilationInfo>>)
    ensures |bs| == |files|
    ensures forall g :: 0 <= g < |files| ==> bs[g] == Compilations(files[g])
  {
    seq(|files|, g requires 0 <= g < |files| => Compilations(files[g]))
  }

  /** The compile-and-cache loop of `compileAll` given each file's
      compilations: each batch is cut after its first error; the first
      batch with an error stops everything, and each batch before it is
      written to the cache. */
  function RunBatches(bs: seq<seq<CompilationInfo>>, cache: Cache): Build
    decreases |bs|
  {
    if |bs| == 0 then Build(cache, None)
    else
      var cs := StopAfterError(bs[0]);
      match FirstError(cs)
      case Some(e) => Build(cache, Some("ERROR: " + Stringify(e)))
      case None => RunBatches(bs[1..], WriteCache(cache, cs))
  }

  /** `compileAll` is that loop over the files' compilations. */
  lemma {:induction false} CompileAllRuns(files: seq<seq<(string, seq<string>)>>, cache: Cache)
    ensures CompileAll(files, cache) == RunBatches(Batches(files), cache)
    decreases |files|
  {
    if |files| > 0 {
      var bs := Batches(files);
      assert bs[0] == Compilations(files[0]);
      assert bs[1..] == Batches(files[1..]) by {
        forall g | 0 <= g < |files| - 1 ensures bs[1..][g] == Batches(files[1..])[g] {
          assert files[1..][g] == files[g + 1];
        }
      }
      if FirstError(Compile(files[0])).None? {
        CompileAllRuns(files[1..], WriteCache(cache, Compile(files[0])));
      }
    }
  }

  /** The cache after every record of every batch has been written in
      order. */
  function Written(cache: Cache, bs: seq<seq<CompilationInfo>>): Cache
    decreases |bs|
  {
    if |bs| == 0 then cache
    else Written(WriteCache(cache, bs[0]), bs[1..])
  }

  /** The loop throws nothing exactly when no record of any batch has an
      error, and then the cache holds what writing all of them leaves.
      Otherwise the message is `ERROR: ` and the JSON of the first record
      with an error in the first batch that has one, and the cache holds
      exactly what the batches before it wrote. */
  lemma {:induction false} RunBatchesOutcome(bs: seq<seq<CompilationInfo>>, cache: Cache)
    ensures RunBatches(bs, cache).error.None? <==> forall g :: 0 <= g < |bs| ==> AllCompiled(bs[g])
    ensures RunBatches(bs, cache).error.None? ==> RunBatches(bs, cache).cache == Written(cache, bs)
    ensures RunBatches(bs, cache).error.Some? ==>
            exists g, j: nat :: 0 <= g < |bs| && FirstFailing(bs[g], j) &&
              (forall h :: 0 <= h < g ==> AllCompiled(bs[h])) &&
              RunBatches(bs, cache) == Build(Written(cache, bs[..g]), Some("ERROR: " + Stringify(bs[g][j])))
    decreases |bs|
  {
    if |bs| > 0 {
      var cs := StopAfterError(bs[0]);
      StopAfterErrorFirst(bs[0]);
      FirstErrorFirstFailing(bs[0]);
      AllBatches(bs);
      if FirstError(cs).Some? {
        var j: nat :| FirstFailing(bs[0], j) && FirstError(cs) == Some(bs[0][j]);
        assert Written(cache, bs[..0]) == cache;
        assert RunBatches(bs, cache) == Build(Written(cache, bs[..0]), Some("ERROR: " + Stringify(bs[0][j])));
      } else {
        var c1 := WriteCache(cache, bs[0]);
        RunBatchesOutcome(bs[1..], c1);
        if RunBatches(bs, cache).error.Some? {
          var g, j: nat :| 0 <= g < |bs[1..]| && FirstFailing(bs[1..][g], j) &&
            (forall h :: 0 <= h < g ==> AllCompiled(bs[1..][h])) &&
            RunBatches(bs[1..], c1) == Build(Written(c1, bs[1..][..g]), Some("ERROR: " + Stringify(bs[1..][g][j])));
          LaterBatch(bs, cache, g);
        }
      }
    }
  }

  /** The batches before batch `g + 1` are the first and those before `g`
      among the rest. */
  lemma LaterBatch(bs: seq<seq<CompilationInfo>>, cache: Cache, g: nat)
    requires g < |bs| - 1
    requires AllCompiled(bs[0])
    requires forall h :: 0 <= h < g ==> AllCompiled(bs[1..][h])
    ensures bs[1..][g] == bs[g + 1]
    ensures forall h :: 0 <= h < g + 1 ==> AllCompiled(bs[h])
    ensures Written(cache, bs[..g + 1]) == Written(WriteCache(cache, bs[0]), bs[1..][..g])
  {
    forall h | 0 <= h < g + 1 ensures AllCompiled(bs[h]) {
      if h > 0 { assert bs[h] == bs[1..][h - 1]; }
    }
    assert bs[..g + 1][0] == bs[0];
    assert bs[..g + 1][1..] == bs[1..][..g];
  }

  /** Every batch is clean exactly when the first is and every later one
      is. */
  lemma AllBatches(bs: seq<seq<CompilationInfo>>)
    requires |bs| > 0
    ensures (forall g :: 0 <= g < |bs| ==> AllCompiled(bs[g])) <==>
            AllCompiled(bs[0]) && forall g :: 0 <= g < |bs[1..]| ==> AllCompiled(bs[1..][g])
  {
    assert forall g :: 0 <= g < |bs[1..]| ==> bs[1..][g] == bs[g + 1];
  }

  /** `compileAll` throws nothing exactly when every declaration of every
      file compiles, and then the cache holds every compilation written in
      order. Otherwise it throws `ERROR: ` and the JSON of the compilation
      of the first declaration that does not compile, in the first file
      that has one, and the cache holds exactly what the files before it
      wrote. */
  lemma CompileAllOutcome(files: seq<seq<(string, seq<string>)>>, cache: Cache)
    ensures CompileAll(files, cache).error.None? <==> forall g :: 0 <= g < |files| ==> AllCompiled(Compilations(files[g]))
    ensures CompileAll(files, cache).error.None? ==> CompileAll(files, cache).cache == Written(cache, Batches(files))
    ensures CompileAll(files, cache).error.Some? ==>
            exists g, j: nat :: 0 <= g < |files| && j < |files[g]| && FirstFailing(Compilations(files[g]), j) &&
              (forall h :: 0 <= h < g ==> AllCompiled(Compilations(files[h]))) &&
              CompileAll(files, cache) ==
              Build(Written(cache, Batches(files)[..g]), Some("ERROR: " + Stringify(CompileLsp(files[g][j].0, files[g][j].1))))
  {
    CompileAllRuns(files, cache);
    RunBatchesOutcome(Batches(files), cache);
  }

  /** `getFacts(lsp)` over the cache: the facts a fresh compilation of the
      declaration with its cached keys leaves. */
  function GetFacts(lsp: string, cache: Cache): (r: Result<Facts>)
    ensures r.Success? ==> lsp in cache && r.value.reqDataKeys == cache[lsp]
    ensures lsp !in cache ==> r == Failure(NoCompilationMessage)
  {
    if lsp !in cache then Failure(NoCompilationMessage)
    else
      var o := CheckLsp(lsp, cache[lsp]);
      if o.error.Some? then Failure("ERROR when compiling the lsp: " + Stringify(CompileLsp(lsp, cache[lsp])))
      else Success(o.facts)
  }

  /** Over a sound cache, `getFacts` succeeds exactly on the cached
      declarations, and its facts are those compiling the declaration
      leaves. */
  lemma GetFactsSound(lsp: string, cache: Cache)
    requires CacheSound(cache)
    ensures GetFacts(lsp, cache).Success? <==> lsp in cache
    ensures lsp in cache ==> GetFacts(lsp, cache) == Success(CheckLsp(lsp, cache[lsp]).facts)
  {
  }

  /** After `compileAll` throws nothing, starting from an empty cache,
      `getFacts` succeeds on every declaration it compiled. */
  lemma GetFactsAfterCompileAll(files: seq<seq<(string, seq<string>)>>, f: nat, j: nat)
    requires f < |files| && j < |files[f]|
    requires CompileAll(files, map[]).error.None?
    ensures GetFacts(files[f][j].0, CompileAll(files, map[]).cache).Success?
  {
    CompileAllSound(files, map[]);
    GetFactsSound(files[f][j].0, CompileAll(files, map[]).cache);
  }
}
