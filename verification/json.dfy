/** `JSON.stringify` of the values that reach an error message: strings,
    arrays of strings and compilation records. Each encoder has a decoder
    beside it, and decoding gives back exactly what was encoded. */
module Json {

  import opened Results
  import opened JsText

  /** A lower-case hexadecimal digit. */
  function HexDigit(d: nat): (c: char)
    requires d < 16
    ensures HexValue(c) == Some(d)
  {
    if d < 10 then DigitChar(d) else (('a' as int) + d - 10) as char
  }

  /** The value of a hexadecimal digit of either case. */
  function HexValue(c: char): (r: Option<nat>)
    ensures r.Some? ==> r.value < 16
  {
    if '0' <= c <= '9' then Some((c as int) - ('0' as int))
    else if 'a' <= c <= 'f' then Some((c as int) - ('a' as int) + 10)
    else if 'A' <= c <= 'F' then Some((c as int) - ('A' as int) + 10)
    else None
  }

  /** How `JSON.stringify` writes one character inside a string: the quote
      and the backslash escaped, the five control characters with a short
      escape written short, every other control character as `\u00xx`. */
  function EscapeChar(c: char): (r: string)
    ensures |r| >= 1 && r[0] != '"'
  {
    if c == '"' then "\\\""
    else if c == '\\' then "\\\\"
    else if c as int == 8 then "\\b"
    else if c as int == 9 then "\\t"
    else if c as int == 10 then "\\n"
    else if c as int == 12 then "\\f"
    else if c as int == 13 then "\\r"
    else if (c as int) < 0x20 then "\\u00" + [HexDigit((c as int) / 16), HexDigit((c as int) % 16)]
    else [c]
  }

  function Escape(s: string): string {
    if |s| == 0 then "" else EscapeChar(s[0]) + Escape(s[1..])
  }

  /** `JSON.stringify(s)` for a string. */
  function Quote(s: string): string {
    "\"" + Escape(s) + "\""
  }

  /** The character a short escape `\x` stands for. */
  function ShortEscape(x: char): Option<char> {
    if x == '"' then Some('"')
    else if x == '\\' then Some('\\')
    else if x == '/' then Some('/')
    else if x == 'b' then Some(8 as char)
    else if x == 't' then Some(9 as char)
    else if x == 'n' then Some(10 as char)
    else if x == 'f' then Some(12 as char)
    else if x == 'r' then Some(13 as char)
    else None
  }

  /** The value of four hexadecimal digits. */
  function Hex4(t: string): (r: Option<nat>)
    requires |t| >= 4
    ensures r.Some? ==> r.value < 0x10000
  {
    match (HexValue(t[0]), HexValue(t[1]), HexValue(t[2]), HexValue(t[3]))
    case (Some(a), Some(b), Some(c), Some(d)) => Some(a * 4096 + b * 256 + c * 16 + d)
    case _ => None
  }

  /** Reads one character of a string body from the front of `t`: the
      character and how much text it took. A closing quote, a raw control
      character and a malformed escape read as nothing. A `\u` escape of a
      surrogate is refused rather than paired. */
  function DecodeChar(t: string): (r: Option<(char, nat)>)
    ensures r.Some? ==> 1 <= r.value.1 <= |t|
  {
    if |t| == 0 || t[0] == '"' || (t[0] as int) < 0x20 then None
    else if t[0] != '\\' then Some((t[0], 1))
    else if |t| < 2 then None
    else if t[1] == 'u' then
      if |t| < 6 then None
      else match Hex4(t[2..6])
        case Some(v) =>
          if 0xD800 <= v < 0xE000 then None else Some((v as char, 6))
        case None => None
    else match ShortEscape(t[1])
      case Some(c) => Some((c, 2))
      case None => None
  }

  /** Reads a string body up to its closing quote: the decoded string and
      the text after the quote. */
  function DecodeBody(t: string): Option<(string, string)>
    decreases |t|
  {
    if |t| == 0 then None
    else if t[0] == '"' then Some(("", t[1..]))
    else match DecodeChar(t)
      case None => None
      case Some((c, n)) =>
        match DecodeBody(t[n..])
        case None => None
        case Some((s, rest)) => Some(([c] + s, rest))
  }

  /** Reads a quoted string from the front of `t`. */
  function DecodeString(t: string): Option<(string, string)> {
    if |t| == 0 || t[0] != '"' then None else DecodeBody(t[1..])
  }

  /** An escaped character reads back as itself. */
  lemma DecodeEscapeChar(c: char, rest: string)
    ensures DecodeChar(EscapeChar(c) + rest) == Some((c, |EscapeChar(c)|))
  {
    var e := EscapeChar(c);
    var t := e + rest;
    if c != '"' && c != '\\' && (c as int) < 0x20 && (c as int) !in {8, 9, 10, 12, 13} {
      var hi := (c as int) / 16;
      var lo := (c as int) % 16;
      assert t[2..6] == ['0', '0', HexDigit(hi), HexDigit(lo)];
      assert Hex4(t[2..6]) == Some(hi * 16 + lo);
    } else {
      assert t[..|e|] == e;
    }
  }

  /** An escaped body followed by the closing quote reads back as the
      string, leaving whatever follows. */
  lemma {:induction false} DecodeEscape(s: string, rest: string)
    ensures DecodeBody(Escape(s) + "\"" + rest) == Some((s, rest))
  {
    if |s| == 0 {
      assert Escape(s) + "\"" + rest == "\"" + rest;
      assert ("\"" + rest)[1..] == rest;
    } else {
      var e := EscapeChar(s[0]);
      var tail := Escape(s[1..]) + "\"" + rest;
      var t := Escape(s) + "\"" + rest;
      assert t == e + tail;
      DecodeEscapeChar(s[0], tail);
      assert t[|e|..] == tail;
      DecodeEscape(s[1..], rest);
      assert [s[0]] + s[1..] == s;
    }
  }

  /** `JSON.stringify` of a string reads back as the string. */
  lemma DecodeQuote(s: string, rest: string)
    ensures DecodeString(Quote(s) + rest) == Some((s, rest))
  {
    var t := Quote(s) + rest;
    assert t[1..] == Escape(s) + "\"" + rest;
    DecodeEscape(s, rest);
  }

  /** `JSON.stringify(xs)` for an array of strings. */
  function Array(xs: seq<string>): string {
    if |xs| == 0 then "[]" else "[" + Items(xs)
  }

  /** The quoted items separated by commas, and the closing bracket. */
  function Items(xs: seq<string>): string
    requires |xs| > 0
  {
    if |xs| == 1 then Quote(xs[0]) + "]" else Quote(xs[0]) + "," + Items(xs[1..])
  }

  /** Reads array items up to the closing bracket. */
  function DecodeItems(t: string): Option<(seq<string>, string)>
    decreases |t|
  {
    match DecodeString(t)
    case None => None
    case Some((x, after)) =>
      if |after| == 0 || |after| >= |t| then None
      else if after[0] == ']' then Some(([x], after[1..]))
      else if after[0] == ',' then
        match DecodeItems(after[1..])
        case None => None
        case Some((xs, rest)) => Some(([x] + xs, rest))
      else None
  }

  /** Reads an array of strings from the front of `t`. */
  function DecodeArray(t: string): Option<(seq<string>, string)> {
    if |t| >= 2 && t[0] == '[' && t[1] == ']' then Some(([], t[2..]))
    else if |t| >= 1 && t[0] == '[' then DecodeItems(t[1..])
    else None
  }

  /** One character before a text: what indexing and slicing see. */
  lemma ConsChar(c: char, rest: string)
    ensures ([c] + rest)[0] == c && ([c] + rest)[1..] == rest
  {
  }

  /** `DecodeItems` on a last item: the closing bracket ends the list. */
  lemma DecodeItemsLast(t: string, x: string, after: string)
    requires DecodeString(t) == Some((x, after)) && 0 < |after| < |t| && after[0] == ']'
    ensures DecodeItems(t) == Some(([x], after[1..]))
  {
  }

  /** `DecodeItems` on an item followed by a comma: the item heads the
      items read after the comma. */
  lemma DecodeItemsNext(t: string, x: string, after: string, ys: seq<string>, r: string)
    requires DecodeString(t) == Some((x, after)) && 0 < |after| < |t| && after[0] == ','
    requires DecodeItems(after[1..]) == Some((ys, r))
    ensures DecodeItems(t) == Some(([x] + ys, r))
  {
  }

  /** A quoted last item and the closing bracket read back as that item. */
  lemma DecodeLastItem(x: string, rest: string)
    ensures DecodeItems(Quote(x) + ("]" + rest)) == Some(([x], rest))
  {
    var after := "]" + rest;
    DecodeQuote(x, after);
    ConsChar(']', rest);
    DecodeItemsLast(Quote(x) + after, x, after);
  }

  /** A quoted item and a comma put the item in front of what follows. */
  lemma DecodeNextItem(x: string, tail: string, ys: seq<string>, r: string)
    requires DecodeItems(tail) == Some((ys, r))
    ensures DecodeItems(Quote(x) + ("," + tail)) == Some(([x] + ys, r))
  {
    var after := "," + tail;
    DecodeQuote(x, after);
    ConsChar(',', tail);
    DecodeItemsNext(Quote(x) + after, x, after, ys, r);
  }

  /** How `Items` writes its first item. */
  lemma ItemsFirst(xs: seq<string>, rest: string)
    requires |xs| > 0
    ensures |xs| == 1 ==> Items(xs) + rest == Quote(xs[0]) + ("]" + rest)
    ensures |xs| > 1 ==> Items(xs) + rest == Quote(xs[0]) + ("," + (Items(xs[1..]) + rest))
  {
    if |xs| == 1 {
      ConcatAssoc(Quote(xs[0]), "]", rest);
    } else {
      var q, u := Quote(xs[0]), Items(xs[1..]);
      assert Items(xs) == q + "," + u;
      ConcatAssoc(q + ",", u, rest);
      ConcatAssoc(q, ",", u + rest);
    }
  }

  /** `Items` opens with the quote of its first item. */
  lemma ItemsStartQuoted(xs: seq<string>, rest: string)
    requires |xs| > 0
    ensures |Items(xs) + rest| > 0 && (Items(xs) + rest)[0] == '"'
  {
    ItemsFirst(xs, rest);
    ConsChar('"', Escape(xs[0]) + "\"");
  }

  lemma {:induction false} DecodeItemsRoundTrip(xs: seq<string>, rest: string)
    requires |xs| > 0
    ensures DecodeItems(Items(xs) + rest) == Some((xs, rest))
  {
    ItemsFirst(xs, rest);
    if |xs| == 1 {
      DecodeLastItem(xs[0], rest);
      assert [xs[0]] == xs;
    } else {
      DecodeItemsRoundTrip(xs[1..], rest);
      DecodeNextItem(xs[0], Items(xs[1..]) + rest, xs[1..], rest);
      assert [xs[0]] + xs[1..] == xs;
    }
  }

  lemma DecodeEmptyArray(rest: string)
    ensures DecodeArray("[]" + rest) == Some(([], rest))
  {
    assert ("[]" + rest)[2..] == rest;
  }

  /** An opening bracket before a quote starts the items. */
  lemma DecodeArrayOpen(u: string, xs: seq<string>, rest: string)
    requires |u| > 0 && u[0] == '"' && DecodeItems(u) == Some((xs, rest))
    ensures DecodeArray("[" + u) == Some((xs, rest))
  {
    ConsChar('[', u);
    assert ("[" + u)[1] == u[0];
  }

  /** `JSON.stringify` of an array of strings reads back as the array. */
  lemma DecodeArrayRoundTrip(xs: seq<string>, rest: string)
    ensures DecodeArray(Array(xs) + rest) == Some((xs, rest))
  {
    if |xs| == 0 {
      DecodeEmptyArray(rest);
    } else {
      var u := Items(xs) + rest;
      ConcatAssoc("[", Items(xs), rest);
      ItemsStartQuoted(xs, rest);
      DecodeItemsRoundTrip(xs, rest);
      DecodeArrayOpen(u, xs, rest);
    }
  }

  /** `t` starts with `p`; what follows it. */
  function After(t: string, p: string): Option<string> {
    if |p| <= |t| && t[..|p|] == p then Some(t[|p|..]) else None
  }

  lemma AfterPrefix(p: string, rest: string)
    ensures After(p + rest, p) == Some(rest)
  {
    assert (p + rest)[..|p|] == p;
  }

  /** A `CompilationInfo` record: the declaration, its request keys and its
      error, if any. */
  datatype CompilationInfo = CompilationInfo(lsp: string, args: seq<string>, error: Option<string>)

  const LspField := "{\"lsp\":"
  const ArgsField := ",\"args\":"
  const ErrorField := ",\"error\":"

  /** `JSON.stringify(info)`: the fields in declaration order; an undefined
      error is left out altogether. */
  function Stringify(info: CompilationInfo): string {
    LspField + Quote(info.lsp) + ArgsField + Array(info.args) + ErrorPart(info)
  }

  /** The part of a stringified record after its keys, brace included. */
  function ErrorPart(info: CompilationInfo): string {
    (if info.error.Some? then ErrorField + Quote(info.error.value) else "") + "}"
  }

  /** Reads a record written by `Stringify` back, refusing anything after
      its closing brace. */
  function DecodeInfo(t: string): Option<CompilationInfo> {
    match After(t, LspField)
    case None => None
    case Some(t1) =>
      match DecodeString(t1)
      case None => None
      case Some((lsp, t2)) =>
        match After(t2, ArgsField)
        case None => None
        case Some(t3) =>
          match DecodeArray(t3)
          case None => None
          case Some((args, t4)) =>
            DecodeErrorTail(lsp, args, t4)
  }

  /** Reads what follows the keys of a record: the closing brace alone, or
      the error field and then the closing brace. */
  function DecodeErrorTail(lsp: string, args: seq<string>, t4: string): Option<CompilationInfo> {
    if t4 == "}" then Some(CompilationInfo(lsp, args, None))
    else match After(t4, ErrorField)
      case None => None
      case Some(t5) =>
        match DecodeString(t5)
        case Some((e, "}")) => Some(CompilationInfo(lsp, args, Some(e)))
        case _ => None
  }

  lemma DecodeErrorPart(info: CompilationInfo)
    ensures DecodeErrorTail(info.lsp, info.args, ErrorPart(info)) == Some(info)
  {
    if info.error.Some? {
      var t4 := ErrorPart(info);
      assert t4 != "}" by { assert |t4| > 1; }
      assert t4 == ErrorField + (Quote(info.error.value) + "}");
      AfterPrefix(ErrorField, Quote(info.error.value) + "}");
      DecodeQuote(info.error.value, "}");
    }
  }

  /** Reading the fields before the error: the declaration and its keys
      come back, and what follows them is read as the error part. */
  lemma DecodeFields(lsp: string, args: seq<string>, t4: string)
    ensures DecodeInfo(LspField + (Quote(lsp) + (ArgsField + (Array(args) + t4)))) == DecodeErrorTail(lsp, args, t4)
  {
    var t3 := Array(args) + t4;
    var t2 := ArgsField + t3;
    var t1 := Quote(lsp) + t2;
    AfterPrefix(LspField, t1);
    DecodeQuote(lsp, t2);
    AfterPrefix(ArgsField, t3);
    DecodeArrayRoundTrip(args, t4);
  }

  /** `Stringify` regrouped from the right. */
  lemma StringifyNested(info: CompilationInfo)
    ensures Stringify(info) == LspField + (Quote(info.lsp) + (ArgsField + (Array(info.args) + ErrorPart(info))))
  {
    var q, a, e := Quote(info.lsp), Array(info.args), ErrorPart(info);
    ConcatAssoc(LspField + q + ArgsField, a, e);
    ConcatAssoc(LspField + q, ArgsField, a + e);
    ConcatAssoc(LspField, q, ArgsField + (a + e));
  }

  /** A stringified record reads back as the record: the JSON in an error
      message determines the declaration, its keys and its error. */
  lemma DecodeStringify(info: CompilationInfo)
    ensures DecodeInfo(Stringify(info)) == Some(info)
  {
    StringifyNested(info);
    DecodeFields(info.lsp, info.args, ErrorPart(info));
    DecodeErrorPart(info);
  }

  /** Different records never stringify alike. */
  lemma StringifyInjective(a: CompilationInfo, b: CompilationInfo)
    requires Stringify(a) == Stringify(b)
    ensures a == b
  {
    DecodeStringify(a);
    DecodeStringify(b);
  }
}
