/** The document grammar of jsoncpp as functions: what `FastWriter` writes for a value, and what
    `OurReader::readValue` makes of a document, position by position. */
module JsonText {
  import opened Bytes
  import opened Utf8
  import opened JsonValue
  import opened JsonStrings
  import opened Decimal
  import opened JsonNumbers

  // ----- the writer -----

  datatype WriterOptions = WriterOptions(yamlCompatibilityEnabled: bool, dropNullPlaceholders: bool,
                                         omitEndingLineFeed: bool)

  function WriteValue(w: WriterOptions, v: Value): bytes {
    match v
    case Null => if w.dropNullPlaceholders then "" else "null"
    case Bool(b) => if b then "true" else "false"
    case Int(i) => SignedNumeral(i)
    case UInt(u) => SignedNumeral(u)
    case Real(text) => text
    case String(s) => Quote(s)
    case Array(items) => "[" + WriteItems(w, items, true) + "]"
    case Object(members) => "{" + WriteMembers(w, members, true) + "}"
  }

  function WriteItems(w: WriterOptions, items: seq<Value>, first: bool): bytes {
    if items == [] then [] else
    (if first then [] else ",") + WriteValue(w, items[0]) + WriteItems(w, items[1..], false)
  }

  function Colon(w: WriterOptions): bytes {
    if w.yamlCompatibilityEnabled then ": " else ":"
  }

  function WriteMembers(w: WriterOptions, members: seq<Member>, first: bool): bytes {
    if members == [] then [] else
    (if first then [] else ",") + Quote(members[0].name) + Colon(w)
    + WriteValue(w, members[0].value) + WriteMembers(w, members[1..], false)
  }

  function WriteDocument(w: WriterOptions, v: Value): bytes {
    WriteValue(w, v) + if w.omitEndingLineFeed then [] else "\n"
  }

  // ----- the tokenizer -----

  datatype TokenType =
    | EndOfStream | ObjectBegin | ObjectEnd | ArrayBegin | ArrayEnd | StringToken | NumberToken
    | TrueToken | FalseToken | NullToken | ArraySeparator | MemberSeparator | ErrorToken

  datatype Token = Token(kind: TokenType, start: nat, end: nat)

  predicate IsSpace(c: byte) {
    c in [' ', '\t', '\r', '\n']
  }

  function SkipSpaces(doc: bytes, i: nat): (r: nat)
    requires i <= |doc|
    ensures i <= r <= |doc|
    ensures r == |doc| || !IsSpace(doc[r])
    decreases |doc| - i
  {
    if i < |doc| && IsSpace(doc[i]) then SkipSpaces(doc, i + 1) else i
  }

  function Match(doc: bytes, i: nat, pattern: bytes): bool
    requires i <= |doc|
  {
    |doc| - i >= |pattern| && doc[i..i + |pattern|] == pattern
  }

  function Literal(doc: bytes, start: nat, rest: bytes, kind: TokenType): Token
    requires start < |doc|
  {
    if Match(doc, start + 1, rest) then Token(kind, start, start + 1 + |rest|) else Token(ErrorToken, start, start + 1)
  }

  function OneByte(c: byte): TokenType {
    match c
    case '{' => ObjectBegin
    case '}' => ObjectEnd
    case '[' => ArrayBegin
    case ']' => ArrayEnd
    case ',' => ArraySeparator
    case ':' => MemberSeparator
    case '\0' => EndOfStream
    case _ => ErrorToken
  }

  /** `readToken` without comments, single quotes and special floats. A NUL byte reads as the end of the stream. */
  function ReadToken(doc: bytes, i: nat): (t: Token)
    requires i <= |doc|
    ensures i <= t.start <= t.end <= |doc|
    ensures t.kind != EndOfStream ==> t.start < t.end
    ensures t.kind == StringToken ==> t.start + 2 <= t.end
  {
    var start := SkipSpaces(doc, i);
    if start == |doc| then Token(EndOfStream, start, start) else
    match doc[start]
    case '\"' =>
      var r := ScanString(doc, start + 1);
      if r.Some? then Token(StringToken, start, r.value) else Token(ErrorToken, start, |doc|)
    case 't' => Literal(doc, start, "rue", TrueToken)
    case 'f' => Literal(doc, start, "alse", FalseToken)
    case 'n' => Literal(doc, start, "ull", NullToken)
    case c =>
      if IsDigit(c) then Token(NumberToken, start, ScanNumber(doc, start + 1))
      else if c == '-' || c == '+' then
        if start + 1 < |doc| && doc[start + 1] == 'I' then Token(ErrorToken, start, start + 2)
        else Token(NumberToken, start, ScanNumber(doc, start + 1))
      else Token(OneByte(c), start, start + 1)
  }

  // ----- the parser -----

  /** The features, and which texts the stream of the standard library accepts as a `double`: it refuses `1e`, say. */
  datatype Features = Features(
    allowTrailingCommas: bool,
    strictRoot: bool,
    allowDroppedNullPlaceholders: bool,
    failIfExtra: bool,
    rejectDupKeys: bool,
    stackLimit: nat,
    acceptsDouble: bytes -> bool)

  /** `Thrown` is the runtime error of the stack limit or of an overlong key; `Failed` is a false return. */
  datatype Outcome = Thrown | Failed | Parsed(value: Value, pos: nat)

  function DecodeToken(doc: bytes, t: Token): Option<bytes>
    requires t.start + 2 <= t.end <= |doc|
  {
    DecodeBody(doc, t.start + 1, t.end - 1)
  }

  /** `decodeNumber`, or `decodeDouble` where it gives up. */
  function DecodeNumberToken(f: Features, text: bytes): Option<Value>
    requires text != []
  {
    var v := DecodeNumber(text);
    if v.Real? && !f.acceptsDouble(text) then None else Some(v)
  }

  function ReadValue(f: Features, doc: bytes, i: nat, depth: nat): (r: Outcome)
    requires i <= |doc|
    ensures r.Parsed? ==> i <= r.pos <= |doc|
    decreases |doc| - i, 0
  {
    if depth > f.stackLimit then Thrown else
    var t := ReadToken(doc, i);
    match t.kind
    case ObjectBegin => ReadMembers(f, doc, t.end, depth, [], [])
    case ArrayBegin => ReadItems(f, doc, t.end, depth, [])
    case NumberToken =>
      var v := DecodeNumberToken(f, doc[t.start..t.end]);
      if v.Some? then Parsed(v.value, t.end) else Failed
    case StringToken =>
      var s := DecodeToken(doc, t);
      if s.Some? then Parsed(String(s.value), t.end) else Failed
    case TrueToken => Parsed(Bool(true), t.end)
    case FalseToken => Parsed(Bool(false), t.end)
    case NullToken => Parsed(Null, t.end)
    case ArraySeparator => if f.allowDroppedNullPlaceholders then Parsed(Null, t.end - 1) else Failed
    case ObjectEnd => if f.allowDroppedNullPlaceholders then Parsed(Null, t.end - 1) else Failed
    case ArrayEnd => if f.allowDroppedNullPlaceholders then Parsed(Null, t.end - 1) else Failed
    case _ => Failed
  }

  /** The loop of `readArray`, with the items read so far. */
  function ReadItems(f: Features, doc: bytes, i: nat, depth: nat, items: seq<Value>): (r: Outcome)
    requires i <= |doc|
    ensures r.Parsed? ==> i <= r.pos <= |doc|
    decreases |doc| - i, 2
  {
    var j := SkipSpaces(doc, i);
    if j < |doc| && doc[j] == ']'
       && (items == [] || (f.allowTrailingCommas && !f.allowDroppedNullPlaceholders))
    then Parsed(Array(items), j + 1)
    else ReadItem(f, doc, j, depth, items)
  }

  /** The rest of the loop body, from the next value on. */
  function ReadItem(f: Features, doc: bytes, i: nat, depth: nat, items: seq<Value>): (r: Outcome)
    requires i <= |doc|
    ensures r.Parsed? ==> i <= r.pos <= |doc|
    decreases |doc| - i, 1
  {
    var r := ReadValue(f, doc, i, depth + 1);
    if !r.Parsed? then r else
    var t := ReadToken(doc, r.pos);
    if t.kind == ArrayEnd then Parsed(Array(items + [r.value]), t.end)
    else if t.kind == ArraySeparator then ReadItems(f, doc, t.end, depth, items + [r.value])
    else Failed
  }

  /** The loop of `readObject`; `name` is the key read last, empty before the first. */
  function ReadMembers(f: Features, doc: bytes, i: nat, depth: nat, members: seq<Member>, name: bytes): (r: Outcome)
    requires i <= |doc|
    ensures r.Parsed? ==> i <= r.pos <= |doc|
    decreases |doc| - i, 2
  {
    var t := ReadToken(doc, i);
    if t.kind == ObjectEnd && (name == [] || f.allowTrailingCommas) then Parsed(Object(members), t.end)
    else if t.kind != StringToken then Failed
    else
      var key := DecodeToken(doc, t);
      if key.None? then Failed
      else if |key.value| >= MAX_KEY_LENGTH then Thrown
      else if f.rejectDupKeys && HasMember(members, key.value) then Failed
      else ReadMemberValue(f, doc, t.end, depth, members, key.value)
  }

  /** The rest of the loop body, from the colon on. */
  function ReadMemberValue(f: Features, doc: bytes, i: nat, depth: nat, members: seq<Member>, name: bytes): (r: Outcome)
    requires i <= |doc|
    ensures r.Parsed? ==> i <= r.pos <= |doc|
    decreases |doc| - i, 3
  {
    var colon := ReadToken(doc, i);
    if colon.kind != MemberSeparator then Failed else
    var r := ReadValue(f, doc, colon.end, depth + 1);
    if !r.Parsed? then r else
    var comma := ReadToken(doc, r.pos);
    var read := Insert(members, name, r.value);
    if comma.kind == ObjectEnd then Parsed(Object(read), comma.end)
    else if comma.kind == ArraySeparator then ReadMembers(f, doc, comma.end, depth, read, name)
    else Failed
  }

  /** `OurReader::parse`: one value, then the checks on what follows it and on its kind. */
  function Parse(f: Features, doc: bytes): Outcome {
    var r := ReadValue(f, doc, 0, 1);
    if !r.Parsed? then r
    else if f.failIfExtra && ReadToken(doc, r.pos).kind != EndOfStream then Failed
    else if f.strictRoot && !r.value.Array? && !r.value.Object? then Failed
    else r
  }
}
