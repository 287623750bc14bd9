/** The grammar validators of the keyword table and the fact record they
    read and write.

    A validator takes the token at its position (`None` when the declaration
    is too short) and the facts gathered so far, and gives back an optional
    error message together with the facts as it leaves them. */
module Validators {

  import opened Results
  import opened JsText
  import opened JsObject
  import opened UrlSyntax
  import opened MapSyntax
  import opened Grammar

  /** `ValidationFactContext`: the URL mappings and the body mappings (unset
      until a validator sets them) and the keys of the request data. */
  datatype Facts = Facts(urlMappings: Option<Dict>, bodyMappings: Option<Dict>, reqDataKeys: seq<string>)

  /** `new ValidationFactContext(keys)`. */
  function FreshFacts(keys: seq<string>): Facts {
    Facts(None, None, keys)
  }

  /** `m?.[k]` read with `== null`: an unset object, a missing property and
      an `undefined` one all read as `None`. */
  function MapLookup(m: Option<Dict>, k: string): Value {
    if m.None? then None else Lookup(m.value, k)
  }

  /** What a validator gives back: its error message, if any, and the
      facts. */
  datatype Outcome = Outcome(error: Option<string>, facts: Facts)

  const UrlMessage := "The syntax should be a url"
  const StringMessage := "The syntax should be type/string"
  const MapMessage := "The syntax should be a map in clojure way."
  const SelfMappingsMessage := "The syntax should be the keyword: selfMappings"
  const AsBodyMessage := "The syntax should be the keyword: asBody"

  /** The check of one placeholder of a URL against the URL mappings and the
      request keys. */
  function MappingError(m: Option<Dict>, keys: seq<string>, name: string): (r: Option<string>)
    ensures r.None? <==> MapLookup(m, name).Some? && MapLookup(m, name).value in keys
  {
    match MapLookup(m, name)
    case None => Some("The keyword '" + name + "' is not mapping")
    case Some(target) =>
      if target in keys then None
      else Some("The mapping '" + target + "' should be exists in the request data.")
  }

  /** The error of the first placeholder in `names` that fails its check,
      or `None` when none fails. */
  function FirstMappingError(m: Option<Dict>, keys: seq<string>, names: seq<string>): (r: Option<string>)
    ensures r.None? <==> forall i :: 0 <= i < |names| ==> MappingError(m, keys, names[i]).None?
    ensures r.Some? ==> exists i :: 0 <= i < |names| && r == MappingError(m, keys, names[i]) &&
                          forall j :: 0 <= j < i ==> MappingError(m, keys, names[j]).None?
  {
    if |names| == 0 then None
    else
      match MappingError(m, keys, names[0])
      case Some(e) => Some(e)
      case None => FirstMappingError(m, keys, names[1..])
  }

  /** Checking one more name after the others: its error counts only when
      the others all pass. */
  lemma FirstErrorAppend(m: Option<Dict>, keys: seq<string>, names: seq<string>, x: string)
    ensures FirstMappingError(m, keys, names + [x]) ==
            if FirstMappingError(m, keys, names).Some? then FirstMappingError(m, keys, names)
            else MappingError(m, keys, x)
  {
    if |names| > 0 {
      assert (names + [x])[1..] == names[1..] + [x];
      FirstErrorAppend(m, keys, names[1..], x);
    }
  }

  /** Checking the placeholders as a `Set` holds them (each once, in order of
      first occurrence) reports the same error as checking every occurrence
      in order. */
  lemma {:induction false} FirstMappingErrorDedup(m: Option<Dict>, keys: seq<string>, names: seq<string>)
    ensures FirstMappingError(m, keys, Dedup(names)) == FirstMappingError(m, keys, names)
  {
    if |names| > 0 {
      var init := names[..|names| - 1];
      var x := names[|names| - 1];
      assert names == init + [x];
      FirstMappingErrorDedup(m, keys, init);
      FirstErrorAppend(m, keys, init, x);
      var d := Dedup(init);
      if x in d {
        if FirstMappingError(m, keys, init).None? {
          var i :| 0 <= i < |init| && init[i] == x;
          assert MappingError(m, keys, init[i]).None?;
        }
      } else {
        FirstErrorAppend(m, keys, d, x);
      }
    }
  }

  /** The `type/url` validator: the shape check, then every distinct
      placeholder must be mapped to a request key. It never changes the
      facts. */
  function UrlError(tok: Option<string>, f: Facts): Option<string> {
    if tok.None? || !ValidUrlShape(tok.value) then Some(UrlMessage)
    else FirstMappingError(f.urlMappings, f.reqDataKeys, Dedup(Placeholders(tok.value)))
  }

  /** One validator of the table applied to a token. */
  function Validate(c: Category, tok: Option<string>, f: Facts): (r: Outcome)
    ensures r.error.Some? ==> r.facts == f
    ensures r.facts.reqDataKeys == f.reqDataKeys
    ensures r.error.None? ==> tok.Some?
  {
    match c
    case Url => Outcome(UrlError(tok, f), f)
    case Str =>
      if tok.None? then Outcome(Some(StringMessage), f) else Outcome(None, f)
    case MapLiteral =>
      if tok.None? || !MapLiteralOk(tok.value) then Outcome(Some(MapMessage), f)
      else
        var d := ParseMap(tok.value);
        Outcome(None, f.(urlMappings := Some(d), bodyMappings := Some(d)))
    case SelfMappings =>
      if tok != Some("selfMappings") then Outcome(Some(SelfMappingsMessage), f)
      else Outcome(None, f.(urlMappings := Some(Identity(f.reqDataKeys))))
    case AsBody =>
      if tok != Some("asBody") then Outcome(Some(AsBodyMessage), f)
      else Outcome(None, f.(bodyMappings := Some(Identity(f.reqDataKeys))))
  }

  /** `type/url` accepts exactly a token of URL shape whose every
      placeholder is mapped to a request key; otherwise it reports the shape
      error or the error of the first failing placeholder in order of
      occurrence. */
  lemma ValidateUrl(tok: Option<string>, f: Facts)
    ensures Validate(Url, tok, f).facts == f
    ensures Validate(Url, tok, f).error.None? <==>
            tok.Some? && ValidUrlShape(tok.value) &&
            forall name :: name in Placeholders(tok.value) ==>
              MapLookup(f.urlMappings, name).Some? && MapLookup(f.urlMappings, name).value in f.reqDataKeys
    ensures tok.None? || !ValidUrlShape(tok.value) ==> Validate(Url, tok, f).error == Some(UrlMessage)
    ensures tok.Some? && ValidUrlShape(tok.value) ==>
            Validate(Url, tok, f).error == FirstMappingError(f.urlMappings, f.reqDataKeys, Placeholders(tok.value))
  {
    if tok.Some? && ValidUrlShape(tok.value) {
      var ps := Placeholders(tok.value);
      FirstMappingErrorDedup(f.urlMappings, f.reqDataKeys, ps);
      var ok := FirstMappingError(f.urlMappings, f.reqDataKeys, ps).None?;
      if ok {
        forall name | name in ps
          ensures MapLookup(f.urlMappings, name).Some? && MapLookup(f.urlMappings, name).value in f.reqDataKeys
        {
          var i :| 0 <= i < |ps| && ps[i] == name;
          assert MappingError(f.urlMappings, f.reqDataKeys, ps[i]).None?;
        }
      } else {
        var i :| 0 <= i < |ps| && MappingError(f.urlMappings, f.reqDataKeys, ps[i]).Some?;
        assert ps[i] in ps;
      }
    }
  }

  /** `type/string` accepts any present token and changes nothing. */
  lemma ValidateString(tok: Option<string>, f: Facts)
    ensures Validate(Str, tok, f).facts == f
    ensures Validate(Str, tok, f).error.None? <==> tok.Some?
    ensures tok.None? ==> Validate(Str, tok, f).error == Some(StringMessage)
  {
  }

  /** `type/map` accepts exactly the tokens of the form `{ (:key value)* }`
      and then sets both the URL and the body mappings to the parsed
      object; otherwise it reports its error and leaves the facts alone. */
  lemma ValidateMap(tok: Option<string>, f: Facts)
    ensures Validate(MapLiteral, tok, f).error.None? <==> tok.Some? && MapLang(tok.value)
    ensures tok.Some? && MapLang(tok.value) ==>
            Validate(MapLiteral, tok, f).facts ==
            Facts(Some(ParseMap(tok.value)), Some(ParseMap(tok.value)), f.reqDataKeys)
    ensures !(tok.Some? && MapLang(tok.value)) ==> Validate(MapLiteral, tok, f) == Outcome(Some(MapMessage), f)
  {
    if tok.Some? {
      MapLiteralOkIff(tok.value);
    }
  }

  /** `fn/selfMappings` accepts only its own name; it then maps every
      request key to itself in the URL mappings and touches nothing else. */
  lemma ValidateSelfMappings(tok: Option<string>, f: Facts)
    ensures Validate(SelfMappings, tok, f).error.None? <==> tok == Some("selfMappings")
    ensures tok == Some("selfMappings") ==>
            var g := Validate(SelfMappings, tok, f).facts;
            g.bodyMappings == f.bodyMappings && g.reqDataKeys == f.reqDataKeys &&
            forall k :: MapLookup(g.urlMappings, k) == if k in f.reqDataKeys then Some(k) else None
    ensures tok != Some("selfMappings") ==> Validate(SelfMappings, tok, f) == Outcome(Some(SelfMappingsMessage), f)
  {
    var o := Validate(SelfMappings, tok, f);
    if tok == Some("selfMappings") {
      assert o.facts == f.(urlMappings := Some(Identity(f.reqDataKeys)));
      IdentitySpec(f.reqDataKeys);
    }
  }

  /** `fn/asBody` accepts only its own name; it then maps every request key
      to itself in the body mappings and touches nothing else. */
  lemma ValidateAsBody(tok: Option<string>, f: Facts)
    ensures Validate(AsBody, tok, f).error.None? <==> tok == Some("asBody")
    ensures tok == Some("asBody") ==>
            var g := Validate(AsBody, tok, f).facts;
            g.urlMappings == f.urlMappings && g.reqDataKeys == f.reqDataKeys &&
            forall k :: MapLookup(g.bodyMappings, k) == if k in f.reqDataKeys then Some(k) else None
    ensures tok != Some("asBody") ==> Validate(AsBody, tok, f) == Outcome(Some(AsBodyMessage), f)
  {
    var o := Validate(AsBody, tok, f);
    if tok == Some("asBody") {
      assert o.facts == f.(bodyMappings := Some(Identity(f.reqDataKeys)));
      IdentitySpec(f.reqDataKeys);
    }
  }

  /** The names of the options, as `args.toString()` lists them. */
  function CategoryNames(cs: seq<Category>): (ns: seq<string>)
    ensures |ns| == |cs| && forall i :: 0 <= i < |cs| ==> ns[i] == CategoryName(cs[i])
  {
    seq(|cs|, i requires 0 <= i < |cs| => CategoryName(cs[i]))
  }

  function OneOfMessage(cs: seq<Category>): string {
    "The syntax should be one of " + Join(CategoryNames(cs), ",")
  }

  /** The outcome of the first option that accepts the token, if any. */
  function FirstAccepting(cs: seq<Category>, tok: Option<string>, f: Facts): (r: Option<Outcome>)
    ensures r.None? <==> forall i :: 0 <= i < |cs| ==> Validate(cs[i], tok, f).error.Some?
    ensures r.Some? ==> exists i :: 0 <= i < |cs| && r.value == Validate(cs[i], tok, f) && r.value.error.None? &&
                          forall j :: 0 <= j < i ==> Validate(cs[j], tok, f).error.Some?
  {
    if |cs| == 0 then None
    else
      var o := Validate(cs[0], tok, f);
      if o.error.None? then Some(o)
      else
        FirstAccepting(cs[1..], tok, f)
  }

  /** The `one-of` validator: the options are tried in order on the same
      facts (a rejecting option leaves them alone); the first that accepts
      decides the outcome, and if none does the error lists them all. */
  function ValidateOneOf(cs: seq<Category>, tok: Option<string>, f: Facts): (r: Outcome)
    ensures r.error.None? <==> exists i :: 0 <= i < |cs| && Validate(cs[i], tok, f).error.None?
    ensures r.error.None? ==> exists i :: 0 <= i < |cs| && r == Validate(cs[i], tok, f) &&
                                forall j :: 0 <= j < i ==> Validate(cs[j], tok, f).error.Some?
    ensures r.error.Some? ==> r == Outcome(Some(OneOfMessage(cs)), f)
  {
    match FirstAccepting(cs, tok, f)
    case Some(o) => o
    case None => Outcome(Some(OneOfMessage(cs)), f)
  }

  /** The validator a grammar position names, applied to its token. */
  function ApplyRule(rule: Rule, tok: Option<string>, f: Facts): (r: Outcome)
    ensures r.error.Some? ==> r.facts == f
    ensures r.facts.reqDataKeys == f.reqDataKeys
  {
    match rule
    case Is(c) => Validate(c, tok, f)
    case OneOf(cs) => ValidateOneOf(cs, tok, f)
  }

  /** With two options, the message names them separated by a comma, as
      `["type/map", "fn/asBody"].toString()` gives `type/map,fn/asBody`. */
  lemma OneOfMessageTwo(a: Category, b: Category)
    ensures OneOfMessage([a, b]) == "The syntax should be one of " + CategoryName(a) + "," + CategoryName(b)
  {
    var x, y := CategoryName(a), CategoryName(b);
    var ns := CategoryNames([a, b]);
    assert ns == [x, y];
    assert ns[1..] == [y];
    assert Join(ns, ",") == x + "," + y;
    ConcatAssoc("The syntax should be one of ", x + ",", y);
    ConcatAssoc("The syntax should be one of ", x, ",");
  }
}
