/** The closed keyword table: each of the seven keywords and the grammar of
    its argument positions. The source writes each position as a template
    such as `(one-of type/map fn/selfMappings)`, splits it with
    `lspToArray` and dispatches on the first word; here a position is a
    `Rule`, and `TemplateTokens` shows that the written templates split back
    into exactly the rule's words. */
module Grammar {

  import opened Results
  import opened JsText
  import opened Tokenizer

  datatype Keyword = RestGet | RestPost | RestDelete | RestPut | RestPatch | LocalGetIn | LocalSetIn

  /** The keyword as it is written at the head of a declaration. */
  function KeywordName(k: Keyword): string {
    match k
    case RestGet => "Rest/get"
    case RestPost => "Rest/post"
    case RestDelete => "Rest/delete"
    case RestPut => "Rest/put"
    case RestPatch => "Rest/patch"
    case LocalGetIn => "Local/get-in"
    case LocalSetIn => "Local/set-in"
  }

  /** `keywords[word]` found or not: the keyword a word names. */
  function ParseKeyword(word: string): (r: Option<Keyword>)
    ensures r.Some? ==> KeywordName(r.value) == word
    ensures r.None? ==> forall k :: KeywordName(k) != word
  {
    if word == "Rest/get" then Some(RestGet)
    else if word == "Rest/post" then Some(RestPost)
    else if word == "Rest/delete" then Some(RestDelete)
    else if word == "Rest/put" then Some(RestPut)
    else if word == "Rest/patch" then Some(RestPatch)
    else if word == "Local/get-in" then Some(LocalGetIn)
    else if word == "Local/set-in" then Some(LocalSetIn)
    else None
  }

  /** Every keyword is recognised by its own name. */
  lemma ParseKeywordName(k: Keyword)
    ensures ParseKeyword(KeywordName(k)) == Some(k)
  {
  }

  /** The validators a grammar position can name. */
  datatype Category = Url | Str | MapLiteral | SelfMappings | AsBody

  function CategoryName(c: Category): string {
    match c
    case Url => "type/url"
    case Str => "type/string"
    case MapLiteral => "type/map"
    case SelfMappings => "fn/selfMappings"
    case AsBody => "fn/asBody"
  }

  /** One argument position: a single validator, or `one-of` over several. */
  datatype Rule = Is(category: Category) | OneOf(options: seq<Category>)

  /** `keywords[k]`: REST reads take a URL and the URL mappings; REST writes
      also the body mappings; local-storage operations take a key. */
  function Rules(k: Keyword): (g: seq<Rule>)
    ensures 1 <= |g| <= 3
    ensures g[0] == if k in {LocalGetIn, LocalSetIn} then Is(Str) else Is(Url)
  {
    match k
    case RestGet => [Is(Url), OneOf([MapLiteral, SelfMappings])]
    case LocalGetIn => [Is(Str)]
    case LocalSetIn => [Is(Str)]
    case _ => [Is(Url), OneOf([MapLiteral, SelfMappings]), OneOf([MapLiteral, AsBody])]
  }

  /** The words of a position's template. */
  function RuleWords(r: Rule): seq<string> {
    match r
    case Is(c) => [CategoryName(c)]
    case OneOf(cs) => ["one-of"] + seq(|cs|, i requires 0 <= i < |cs| => CategoryName(cs[i]))
  }

  /** The template text of a position, as the keyword table writes it. */
  function Template(r: Rule): string {
    "(" + Join(RuleWords(r), " ") + ")"
  }

  /** A word a template may hold: non-empty, no space, no brace. */
  predicate PlainWord(w: string) {
    |w| > 0 && !IsSpace(w[0]) && ' ' !in w && '{' !in w && '}' !in w
  }

  lemma CategoryNamePlain(c: Category)
    ensures PlainWord(CategoryName(c))
  {
  }

  lemma NoBraceNoClose(s: string)
    requires '}' !in s && '{' !in s
    ensures !CloseAhead(s)
  {
    if |s| > 0 {
      assert '}' !in s[1..] && '{' !in s[1..];
      NoBraceNoClose(s[1..]);
    }
  }

  lemma NoSpaceOnePiece(w: string)
    requires ' ' !in w
    ensures Split(w) == [w]
  {
    SplitWhole(w);
  }

  /** Words joined by single spaces split back into the words. */
  lemma {:induction false} SplitJoin(ws: seq<string>)
    requires |ws| > 0 && forall i :: 0 <= i < |ws| ==> PlainWord(ws[i])
    ensures Split(Join(ws, " ")) == ws
    ensures forall i :: 0 <= i < |Join(ws, " ")| ==> Join(ws, " ")[i] != '{' && Join(ws, " ")[i] != '}'
  {
    if |ws| == 1 {
      NoSpaceOnePiece(ws[0]);
    } else {
      var rest := Join(ws[1..], " ");
      SplitJoin(ws[1..]);
      NoBraceNoClose(rest);
      SplitAppend(ws[0], rest);
      NoSpaceOnePiece(ws[0]);
      assert Join(ws, " ") == ws[0] + " " + rest;
      assert [ws[0]] + ws[1..] == ws;
      forall i | 0 <= i < |Join(ws, " ")| ensures Join(ws, " ")[i] != '{' && Join(ws, " ")[i] != '}' {
        if i < |ws[0]| {
          assert Join(ws, " ")[i] == ws[0][i];
        } else if i > |ws[0]| {
          assert Join(ws, " ")[i] == rest[i - |ws[0]| - 1];
        }
      }
    }
  }

  lemma {:induction false} NonBlankPlain(ws: seq<string>)
    requires forall i :: 0 <= i < |ws| ==> PlainWord(ws[i])
    ensures NonBlank(ws) == ws
  {
    if |ws| > 0 {
      var tail := ws[1..];
      forall i | 0 <= i < |tail| ensures PlainWord(tail[i]) {
        assert tail[i] == ws[i + 1];
      }
      NonBlankPlain(tail);
      PlainNotBlank(ws[0]);
      assert NonBlank(ws) == [ws[0]] + NonBlank(tail);
      assert [ws[0]] + tail == ws;
    }
  }

  lemma PlainNotBlank(w: string)
    requires PlainWord(w)
    ensures Trim(w) != ""
  {
    assert !IsSpace(w[0]);
    assert !IsBlank(w);
  }

  /** `lspToArray(template)` gives back the rule's words: the first word
      names the validator, the rest are `one-of`'s options. */
  lemma TemplateTokens(r: Rule)
    requires r.OneOf? ==> |r.options| > 0
    ensures Tokens(Template(r)) == RuleWords(r)
  {
    var ws := RuleWords(r);
    forall i | 0 <= i < |ws| ensures PlainWord(ws[i]) {
      if r.Is? {
        CategoryNamePlain(r.category);
      } else if i > 0 {
        CategoryNamePlain(r.options[i - 1]);
      }
    }
    SplitJoin(ws);
    var t := Template(r);
    assert SliceInner(t) == Join(ws, " ");
    NonBlankPlain(ws);
  }

  /** Every template in the keyword table splits into its rule's words. */
  lemma TableTemplates(k: Keyword)
    ensures forall i :: 0 <= i < |Rules(k)| ==> Tokens(Template(Rules(k)[i])) == RuleWords(Rules(k)[i])
  {
    forall i | 0 <= i < |Rules(k)| ensures Tokens(Template(Rules(k)[i])) == RuleWords(Rules(k)[i]) {
      TemplateTokens(Rules(k)[i]);
    }
  }
}
