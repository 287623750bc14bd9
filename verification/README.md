# lsp-api in Dafny

A model of the core of `lsp-api`, a small TypeScript library that describes
data access with one-line declarations in a Lisp-like syntax, such as
`(Rest/get /users/:id/posts?:deleted selfMappings)` or
`(Local/set-in user)`. There are two halves:

- **The compiler** (`src/compiler.ts`). `lspToArray` splits a declaration
  into tokens. A brace map such as `{:id userId}` stays one token. The
  first token must be one of the seven keywords of the keyword table. Each
  argument position is then checked by the validator its template names,
  working from the last position to the first, on a fact record
  (`ValidationFactContext`) that the validators fill in: the URL mappings,
  the body mappings and the request keys. `compile` compiles a file's
  declarations in order and stops after the first error. `compileAll`
  throws the JSON of the first error record, or else records every
  declaration with its keys in a cache. `getFacts` re-derives the facts of a
  cached declaration.
- **The evaluator** (`src/eval.ts`). `evalApi` takes a compiled declaration
  and a request payload. For a REST keyword, `formatUrl` fills the URL's
  `:key` placeholders from the payload, and for writes `toRequestBody`
  projects the payload onto the body mappings. A local-storage keyword reads
  or writes one key. The result is the request the evaluator hands to the
  transport or to the storage collaborator.

The older batch loop of `src/index.ts` shares the keyword table, the
validators and `lspToArray` with the compiler. It is modelled separately
(`LegacyCompiler`), because it treats a batch differently.

Modules, in dependency order:

| file | module | what it holds |
|---|---|---|
| `results.dfy` | `Results` | `Option`, `Result` |
| `js_text.dfy` | `JsText` | JavaScript string operations: `trim`, `slice(1, -1)`, `split` on a character, `indexOf`, `replace` of the first occurrence (with its `$` patterns), number formatting |
| `js_object.dfy` | `JsObject` | objects as insertion-ordered dictionaries, `Object.keys`, property writes, `Set` order |
| `tokenizer.dfy` | `Tokenizer` | `lspToArray` and its brace-aware split |
| `url_syntax.dfy` | `UrlSyntax` | `checkIfTheSyntaxAValidUrl` and the `/:(\w+)/g` placeholder scan |
| `map_syntax.dfy` | `MapSyntax` | the `type/map` regular expression and the object built from a map literal |
| `grammar.dfy` | `Grammar` | the keyword table |
| `validators.dfy` | `Validators` | `ValidationFactContext` and `syntaxValidators` |
| `json.dfy` | `Json` | `JSON.stringify` of strings, string arrays and `CompilationInfo`, with decoders |
| `compiler.dfy` | `Compiler` | `compileLsp`, `compile`, the cache write of `compileAll`, and `getFacts` |
| `legacy_compiler.dfy` | `LegacyCompiler` | `compile` of `src/index.ts` |
| `resolver.dfy` | `Resolver` | `formatUrl`, `toRequestBody`, `keywordResolvers` and `evalApi` |
| `url_template.dfy` | `UrlTemplate` | `formatUrl` over many mapping keys, on a URL read as literal text and `:name` placeholders |

Where the code and the library's written description differ, the model
follows the code:

- `Local/set-in` fails at run time only when the payload is `undefined`. An
  empty payload object is stored.
- `getFacts` reads the compiler's own cache. The metadata given to `setup`
  is only tested for `null` by `evalApi`.
- The `type/map` regular expression accepts a pair glued to the previous
  value (`{:a b:c d}`). The parser then finds no whitespace before the
  second `:`, so the object maps `a` to `b:c`. `MapSyntax.GluedPairs` pins
  this down.
- The positional error always uses the suffix `st` (`Error on the 2st
  argument: ...`).

## Model

| member | source | states |
|---|---|---|
| Grammar.ParseKeyword | src/compiler.ts:6-14 | a word is recognised as a keyword exactly when it is that keyword's name in the table; any other word names no keyword |
| Grammar.Rules | src/compiler.ts:6-14 | every keyword has one to three argument positions; the first is `type/string` for the two local-storage keywords and `type/url` for the five REST keywords |
| Grammar.TableTemplates | src/compiler.ts:159-165 | every template of the keyword table, split with `lspToArray`, gives the validator's name followed by the `one-of` options, as the compile loop reads it |
| Tokenizer.Split | src/compiler.ts:143 | the split pieces, joined with single spaces, give back the text; there is always at least one piece |
| Tokenizer.SplitCutsAtSeparators | src/compiler.ts:143 | a space is cut exactly when the regular expression ` (?![^{]*})` matches there: every joining space is one not followed by `}` before `{`, and every space kept inside a piece is followed by `}` before any `{` |
| Tokenizer.Tokens | src/compiler.ts:141-146 | the tokens are exactly the non-blank pieces of the split of the declaration without its outer characters; their order and repeats are stated by `Tokenizer.NonBlankAppend` and `Tokenizer.TokensBraceMap` |
| Tokenizer.BraceMapKeptWhole | src/compiler.ts:141-146 | a brace map with spaces inside, between two separators, comes out as one token between the tokens around it |
| Tokenizer.BraceMapAtEnd | src/compiler.ts:141-146 | a brace map at the end of the declaration comes out as one last token |
| Tokenizer.NonBlankAppend | src/compiler.ts:144-146 | the blank filter works piece by piece: filtering two runs of pieces one after the other gives the two filtered runs one after the other, so order and repeats are kept |
| Tokenizer.TokensBraceMap | src/compiler.ts:141-146 | the token list of a declaration with a brace map between two separators is, in order and with repeats, the tokens of the text before it, the whole map, then the tokens of the text after it |
| Tokenizer.TokensBraceMapAtEnd | src/compiler.ts:141-146 | the token list of a declaration ending in a brace map is, in order and with repeats, the tokens of the text before it followed by the whole map |
| UrlSyntax.UrlWithoutQuery | src/compiler.ts:32-40 | a URL without `?` is accepted exactly when it starts with `/` |
| UrlSyntax.UrlWithQuery | src/compiler.ts:32-53 | a URL with a query is accepted exactly when it starts with `/`, the query starts with `:`, and every `&` in it is followed by `:`; text after a second `?` is never looked at |
| UrlSyntax.QueryPiecesIff | src/compiler.ts:42-47 | every `&`-piece of the query starts with `:` exactly when the query starts with `:` and every `&` is followed by `:`, so an empty query is rejected |
| UrlSyntax.PlaceholdersEmpty | src/compiler.ts:66-72 | the placeholder scan finds nothing exactly when no `:` is followed by a word character |
| UrlSyntax.PlaceholdersConcat | src/compiler.ts:66-72 | a non-word character cuts the scan in two: the matches of the two halves, in order |
| UrlSyntax.PlaceholderOne | src/compiler.ts:66-72 | `:w` followed by the end or by a non-word character is matched as the whole word `w` |
| MapSyntax.MapLiteralOkIff | src/compiler.ts:92 | the greedy recogniser accepts exactly the language of `^\{\s*(:\w+\s+\w+\s*)*\}$`, which is stated as the regular expression reads |
| MapSyntax.ParseRender | src/compiler.ts:91-104 | a literal of word pairs is accepted, and the object built from it maps each key to the value of its last pair, with keys in order of first appearance |
| MapSyntax.EmptyMapLiteral | src/compiler.ts:91-104 | `{}`, or braces around blanks only, is accepted and gives the object with the single key `""`, whose value is `undefined` |
| MapSyntax.GluedPairs | src/compiler.ts:91-104 | `{:a b:c d}` is accepted, yet gives only the key `a`, with value `b:c` |
| JsObject.Put | src/compiler.ts:100 | writing a property keeps the position of an existing key or appends a new one; it changes that key's value only; it keeps keys distinct |
| JsObject.FromPairsSpec | src/compiler.ts:98-101 | writing pairs in order leaves each key with the value of its last pair, and lists the keys in order of first appearance |
| JsObject.IdentitySpec | src/compiler.ts:121-124 | the `reduce` over the request keys maps exactly those keys, each to itself |
| Validators.FirstMappingErrorDedup | src/compiler.ts:63-83 | checking the placeholders as a `Set` holds them reports the same error as checking every occurrence in order |
| Validators.ValidateUrl | src/compiler.ts:58-84 | `type/url` accepts exactly a token of URL shape whose every placeholder is mapped to a request key; otherwise it reports the shape error or the error of the first failing placeholder; it never changes the facts |
| Validators.ValidateString | src/compiler.ts:85-90 | `type/string` accepts exactly a present token and changes nothing |
| Validators.ValidateMap | src/compiler.ts:91-105 | `type/map` accepts exactly the literals of the map language, and then sets both mappings to the parsed object; otherwise it leaves the facts alone |
| Validators.ValidateSelfMappings | src/compiler.ts:116-127 | `fn/selfMappings` accepts only its own name, and then maps every request key to itself in the URL mappings, touching nothing else |
| Validators.ValidateAsBody | src/compiler.ts:128-138 | `fn/asBody` accepts only its own name, and then maps every request key to itself in the body mappings, touching nothing else |
| Validators.ValidateOneOf | src/compiler.ts:106-115 | `one-of` accepts exactly when some option accepts, and then takes the outcome of the first accepting option; otherwise it reports the list of options and leaves the facts alone |
| Validators.OneOfMessageTwo | src/compiler.ts:114 | with two options the message separates their names with a comma, as `toString` of an array does |
| Json.DecodeStringify | src/compiler.ts:231 | the JSON of a compilation record reads back as that record, so an error message determines the declaration, its keys and its error |
| Json.StringifyInjective | src/compiler.ts:231 | different records never have the same JSON |
| Json.DecodeArrayRoundTrip | src/compiler.ts:231 | the JSON of a string array reads back as the array |
| Compiler.CheckPositions | src/compiler.ts:159-173 | the loop keeps the request keys, and a reported error names a position of the grammar; which position it is, is stated by `Compiler.CheckPositionsSpec` |
| Compiler.TraceAt | src/compiler.ts:159-173 | in the run of the loop from the last position down, position `i` is validated on its own token and on the facts position `i + 1` left (the initial facts for the last position) |
| Compiler.CheckPositionsSpec | src/compiler.ts:159-173 | the declaration passes exactly when every position of that run accepts, and then the facts are those position 0 left; otherwise the result is the message and facts of the highest rejecting position, every position above it having accepted |
| Compiler.UrlMappingsPosition | src/compiler.ts:106-127 | the URL-mappings position accepts exactly a map literal or `selfMappings`, and then sets the URL mappings to the parsed object or to the identity on the request keys |
| Compiler.BodyMappingsPosition | src/compiler.ts:106-138 | the body-mappings position accepts exactly a map literal or `asBody` |
| Compiler.UrlPosition | src/compiler.ts:58-84 | with URL mappings in place, the URL position accepts exactly a URL-shaped token whose every placeholder the mappings send to a request key, and it never changes the facts |
| Compiler.RestCompiles | src/compiler.ts:148-180 | a REST declaration compiles exactly when its URL token has URL shape, its second token is a map literal or `selfMappings` whose mappings send every placeholder to a request key, and, for a writing keyword, its third token is a map literal or `asBody` |
| Compiler.CompileLsp | src/compiler.ts:148-180 | the record carries the declaration and its request keys unchanged |
| Compiler.CompileLspError | src/compiler.ts:148-180 | the error is `Invalid keyword.` exactly when the first token is not a keyword, whatever the arguments are; otherwise any error names a position of the keyword's grammar |
| Compiler.CompileLspLoop | src/compiler.ts:148-180 | the loop counting down from the last position gives the same record and facts as the recursive definition |
| Compiler.PositionsLoop | src/compiler.ts:159-173 | the loop from the last position to the first, with one fact record carried along, stops at the first failing validator with its position message and its facts, as the recursive definition does |
| Compiler.ExtraArgumentsIgnored | src/compiler.ts:159-160 | tokens past the end of the keyword's grammar never affect the outcome |
| Compiler.CompiledRest | src/compiler.ts:159-173 | a REST declaration that compiles has a URL token of URL shape and URL mappings in which every placeholder names a request key; a writing keyword also has body mappings |
| Compiler.CompiledLocal | src/compiler.ts:159-173 | a local-storage declaration compiles exactly when it has a key token, fails at the first position without one, and leaves fresh facts |
| Compiler.StopAfterErrorSpec | src/compiler.ts:185-191 | the batch is cut only right after a record with an error; every kept record before the last is error-free; all records are kept exactly when none has an error |
| Compiler.Compile | src/compiler.ts:182-195 | each record of the batch is the compilation of the declaration at that index, each on its own keys; a non-empty file gives at least one record |
| Compiler.FirstError | src/compiler.ts:226-228 | there is no first error exactly when no record has an error; otherwise the result is a record with an error and every record before it has none |
| Compiler.StopAfterErrorFirst | src/compiler.ts:185-191 | cutting the batch after its first error keeps that first error, and keeps the whole batch when nothing fails |
| Compiler.FirstErrorFirstFailing | src/compiler.ts:226-228 | the first error is the record at the first failing index of the batch |
| Compiler.WriteCacheSpec | src/compiler.ts:234-236 | after the writes every written declaration is cached, with the keys of its last record; every entry of a declaration not written keeps its keys; nothing else is added |
| Compiler.WriteCacheLastWins | src/compiler.ts:234-236 | a declaration with several records ends with the keys of the last of them |
| Compiler.WriteCacheKeeps | src/compiler.ts:234-236 | a declaration that no record names is neither added nor changed |
| Compiler.WriteCacheSound | src/compiler.ts:234-236 | writing error-free compilation records keeps every cached declaration compiling with its cached keys |
| Compiler.CompileAllSound | src/compiler.ts:223-241 | `compileAll` keeps the cache sound and never removes entries; when it throws nothing, every declaration of every file is cached; when it throws, the message is `ERROR: ` and the JSON of a record with an error |
| Compiler.CompileAllRuns | src/compiler.ts:223-241 | `compileAll` is the file-by-file loop over each file's compilation records |
| Compiler.RunBatchesOutcome | src/compiler.ts:223-241 | the loop throws nothing exactly when no record of any file has an error, and the cache then holds every write in order; otherwise it throws `ERROR: ` and the JSON of the first failing record of the first failing file, with the cache as the files before that one left it |
| Compiler.CompileAllOutcome | src/compiler.ts:223-241 | the same at the level of the declarations: the thrown record is the compilation of the first failing declaration of the first failing file, every earlier file compiled cleanly, and the cache holds exactly the earlier files' writes |
| Compiler.GetFacts | src/compiler.ts:244-256 | a missing declaration fails with the `compileAll` reminder; on success the facts carry the cached keys |
| Compiler.GetFactsAfterCompileAll | src/compiler.ts:244-256 | after `compileAll` throws nothing, `getFacts` succeeds on every declaration it compiled |
| LegacyCompiler.LegacyRecordsCopy | src/index.ts:147-191 | every record the legacy loop pushes copies the text and keys of one declaration |
| LegacyCompiler.LegacyStopsAtInvalid | src/index.ts:151-160 | an unknown keyword ends the batch: its record is the last, and the declarations after it are never looked at |
| LegacyCompiler.LegacyRecords | src/index.ts:162-186 | in a batch without unknown keywords every declaration gets exactly one error-free record, in order, even if it failed a validator; the error records are exactly the failing declarations' records, in order |
| LegacyCompiler.LegacyAgreesWhenClean | src/index.ts:147-191 | when no declaration has an error, the legacy loop and `compile` both keep every record |
| LegacyCompiler.LegacyContinuesAfterError | src/index.ts:171-186 | a validator error ends `compile`'s batch, while the legacy loop adds an error-free copy of the record and carries on |
| Resolver.PayloadValue | src/eval.ts:66 | a body value is defined exactly when the payload is defined and has the key, and it is then the payload's value |
| Resolver.FormatUrl | src/eval.ts:44-60 | formatting fails exactly when the URL is missing, with the null-URL message |
| Resolver.FormatUrlDropsSecondQuery | src/eval.ts:51 | whatever follows a second `?` is dropped from the URL |
| Resolver.FormatUrlVerbatim | src/eval.ts:44-60 | a URL without placeholders of the mapping keys comes back as it is, except that an empty query loses its `?` |
| Resolver.FormatUrlFirstInPath | src/eval.ts:52-54 | a mapping key's placeholder in the path is replaced at its first occurrence by the payload's text for that key (with `replace`'s `$` patterns) |
| Resolver.FormatUrlFirstInQuery | src/eval.ts:55-59 | a mapping key's placeholder in the query becomes `key=` and the payload's text, and the query is joined back with `?` |
| UrlTemplate.ReplaceHole | src/eval.ts:53-57 | one `replace` of `:key` fills exactly the placeholder named `key` and leaves every other piece of the template in place |
| UrlTemplate.SubstituteTemplate | src/eval.ts:51-58 | the whole `forEach` over the mapping keys fills, in path and query, every placeholder a key names and nothing else, whatever the order of the keys |
| UrlTemplate.FormatUrlTemplate | src/eval.ts:44-60 | on a URL written from a template whose placeholder names are not prefixes of other keys and whose inserted texts carry no `:` or `$`, `formatUrl` gives the path with every mapped placeholder replaced by the payload text, joined with `?` to the query with every mapped placeholder replaced by `key=` and the text, and drops the `?` of an empty query |
| Resolver.ToRequestBodySpec | src/eval.ts:62-69 | the body has exactly the body mapping's keys, in order, each holding the payload's value under that key or `undefined`; the mapping's values are never read; no mapping gives an empty body |
| Resolver.RestMethod | src/eval.ts:72-102 | each REST keyword sends with the method its name ends with |
| Resolver.Resolve | src/eval.ts:71-117 | resolving fails exactly when there is no first argument, with the URL or key message; REST keywords give a request with the formatted URL, the keyword's method, and a body exactly when the keyword is not `Rest/get`; local keywords give the key, and carry the payload exactly for `Local/set-in` |
| Resolver.Dispatch | src/eval.ts:128-139 | a store without data fails with its message; otherwise a REST request is sent as it is, and a local request stores or reads its key |
| Resolver.PerformSpec | src/eval.ts:126-139 | once a declaration has an argument, the only failure is a `Local/set-in` with an undefined payload; a REST keyword sends the formatted URL with its method; `Local/get-in` reads the key; `Local/set-in` stores the payload |
| Resolver.EvalApi | src/eval.ts:120-125 | without sender, storage and metadata the call fails with the setup message; a declaration that was never compiled fails with the `compileAll` reminder |
| Resolver.EvalApiCompiled | src/eval.ts:120-140 | a cached declaration always finds its resolver and first argument, and `evalApi` then fails only on a `Local/set-in` with an undefined payload |

## Left out

- The source loader `src/apiMetadata.ts` is not part of this model. A file's declarations are given as `(declaration, request keys)` pairs in source order.
- File-system access (`getTsFiles`, `readFileSync`, the `data/api` existence check) and console output are left out. `compileAll` takes the files' declaration lists as a parameter.
- Module-level state is passed as parameters. The cache is a `Cache` value that `CompileAll` returns and `GetFacts` reads. The collaborators given to `setup` are the three booleans of `Setup`. The call to `setup` inside `compileAll` is not modelled.
- The transport and storage calls are foreign code. `EvalApi` stops at the `Action` it would hand to them, and their return values are not modelled.
- Payload values are modelled as the text JavaScript makes of them. Non-string values, and a replacement given as a function, are not modelled.
- Object keys that JavaScript orders by integer value, and names inherited from `Object.prototype`, are not modelled. Objects keep insertion order.
- The JSON decoder refuses `\u` escapes of surrogates. Lone surrogates in an error message's JSON are not modelled.
- Resolver.EvalApi: the `resolver is not a function` branch is kept, but `Resolver.EvalApiCompiled` shows that it cannot be reached once `getFacts` succeeds.
- The batch loop of `src/index.ts` is modelled as a function over the records `compileLsp` gives, not as a loop with mutable state. The loop form is given for `compileLsp` only (`Compiler.CompileLspLoop`).
- UrlTemplate.FormatUrlTemplate: the many-key rule is stated only for templates in which each placeholder name appears at most once in the path and once in the query, no placeholder name is a prefix of a different key or the reverse, and the inserted texts carry no `:` or `$`. Outside those conditions a later key can match inside an earlier replacement or a longer placeholder, and only the one-key rules `Resolver.FormatUrlFirstInPath` and `Resolver.FormatUrlFirstInQuery` apply. The concrete URLs of the evaluation examples are not pinned by lemmas of their own.
- Compiler.CompileLspError: names inherited from `Object.prototype` are not keywords of the model, so `(toString)`, `(valueOf)` or `(__proto__)` get `Invalid keyword.`. In JavaScript, `keywords[keyword]` finds the inherited member, whose `length` is 0 or undefined, so the position loop never runs and these compile without an error (src/compiler.ts:150-159). `(constructor)` and `(hasOwnProperty)` instead throw a `TypeError` inside `lspToArray(undefined)`.
- Tokenizer.Tokens: strings are sequences of characters, while JavaScript strings are UTF-16 code units. `slice(1, -1)` (src/compiler.ts:142) on a declaration whose first or last character lies outside the Basic Multilingual Plane leaves half a surrogate pair in JavaScript, while the model drops the whole character.
