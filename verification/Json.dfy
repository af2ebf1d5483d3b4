/** The canonical JSON of artifact metadata: no white space, no numbers, sorted unique keys and one spelling of
    every string. The printer is a bijection from canonical values to the texts the parser accepts. */
module Json {
  import opened Wrappers
  import opened Utf8

  type Bytes = seq<Byte>

  datatype Json =
    | Null
    | Bool(b: bool)
    | Text(text: Bytes)
    | List(items: seq<Json>)
    | Object(fields: seq<Field>)

  datatype Field = Field(key: Bytes, value: Json)

  const QUOTE: Byte := 0x22
  const COMMA: Byte := 0x2c
  const ZERO: Byte := 0x30
  const COLON: Byte := 0x3a
  const OPEN_LIST: Byte := 0x5b
  const BACKSLASH: Byte := 0x5c
  const CLOSE_LIST: Byte := 0x5d
  const LETTER_U: Byte := 0x75
  const OPEN_OBJECT: Byte := 0x7b
  const CLOSE_OBJECT: Byte := 0x7d

  const NULL: Bytes := [0x6e, 0x75, 0x6c, 0x6c]
  const TRUE: Bytes := [0x74, 0x72, 0x75, 0x65]
  const FALSE: Bytes := [0x66, 0x61, 0x6c, 0x73, 0x65]

  const MAXIMUM_NESTING: nat := 128

  // ----- canonical values -----

  /** Lexicographic order of byte strings. */
  predicate Less(a: Bytes, b: Bytes) {
    b != [] && (a == [] || a[0] < b[0] || (a[0] == b[0] && Less(a[1..], b[1..])))
  }

  /** Strings are valid UTF-8 and the keys of an object strictly increase. */
  predicate Canonical(v: Json) {
    match v
    case Text(text) => Valid(text)
    case List(items) => CanonicalItems(items)
    case Object(fields) => CanonicalFields(fields)
    case _ => true
  }

  predicate CanonicalItems(items: seq<Json>) {
    items == [] || (Canonical(items[0]) && CanonicalItems(items[1..]))
  }

  predicate CanonicalFields(fields: seq<Field>) {
    fields == []
    || (&& Valid(fields[0].key) && Canonical(fields[0].value)
        && (|fields| > 1 ==> Less(fields[0].key, fields[1].key)) && CanonicalFields(fields[1..]))
  }

  function Nesting(v: Json): nat {
    match v
    case List(items) => 1 + ItemsNesting(items)
    case Object(fields) => 1 + FieldsNesting(fields)
    case _ => 1
  }

  function ItemsNesting(items: seq<Json>): nat {
    if items == [] then 0 else Max(Nesting(items[0]), ItemsNesting(items[1..]))
  }

  function FieldsNesting(fields: seq<Field>): nat {
    if fields == [] then 0 else Max(Nesting(fields[0].value), FieldsNesting(fields[1..]))
  }

  // ----- the printed form -----

  function HexDigit(n: nat): Byte
    requires n < 16
  {
    if n < 10 then 0x30 + n else 0x61 + (n - 10)
  }

  function Escaped(c: Byte): Bytes {
    if c == QUOTE || c == BACKSLASH then [BACKSLASH, c]
    else if c < 0x20 then [BACKSLASH, LETTER_U, ZERO, ZERO, HexDigit(c / 16), HexDigit(c % 16)]
    else [c]
  }

  function Escape(text: Bytes): Bytes {
    if text == [] then [] else Escaped(text[0]) + Escape(text[1..])
  }

  function Quoted(text: Bytes): Bytes {
    [QUOTE] + Escape(text) + [QUOTE]
  }

  function Print(v: Json): Bytes {
    match v
    case Null => NULL
    case Bool(b) => if b then TRUE else FALSE
    case Text(text) => Quoted(text)
    case List(items) => [OPEN_LIST] + PrintItems(items) + [CLOSE_LIST]
    case Object(fields) => [OPEN_OBJECT] + PrintFields(fields) + [CLOSE_OBJECT]
  }

  function PrintItems(items: seq<Json>): Bytes {
    if items == [] then [] else Print(items[0]) + (if |items| == 1 then [] else [COMMA]) + PrintItems(items[1..])
  }

  function PrintField(f: Field): Bytes {
    Quoted(f.key) + [COLON] + Print(f.value)
  }

  function PrintFields(fields: seq<Field>): Bytes {
    if fields == [] then []
    else
      PrintField(fields[0]) + (if |fields| == 1 then [] else [COMMA]) + PrintFields(fields[1..])
  }

  // ----- the printed form against RFC 8259 -----

  function Ascii(text: string): Bytes
    requires forall i :: 0 <= i < |text| ==> text[i] < 128 as char
  {
    seq(|text|, i requires 0 <= i < |text| => text[i] as int)
  }

  /** The literal names, the structural characters and the quotation mark of RFC 8259 (sections 2, 3 and 7). */
  lemma TokensAreJson()
    ensures NULL == Ascii("null") && TRUE == Ascii("true") && FALSE == Ascii("false")
    ensures [OPEN_LIST, CLOSE_LIST, OPEN_OBJECT, CLOSE_OBJECT, COLON, COMMA] == Ascii("[]{}:,")
    ensures [QUOTE] == Ascii("\"") && [BACKSLASH, LETTER_U, ZERO, ZERO] == Ascii("\\u00")
  {
  }

  /** One hexadecimal digit of RFC 8259, in either case. */
  function AnyHex(c: Byte): Option<nat> {
    if '0' as int <= c <= '9' as int then Some(c - '0' as int)
    else if 'a' as int <= c <= 'f' as int then Some(c - 'a' as int + 10)
    else if 'A' as int <= c <= 'F' as int then Some(c - 'A' as int + 10)
    else None
  }

  /** A character after a backslash: what it stands for (section 7 of RFC 8259). */
  function Short(c: Byte): Option<Byte> {
    if c == '"' as int || c == '\\' as int || c == '/' as int then Some(c)
    else if c == 'b' as int then Some(0x08)
    else if c == 'f' as int then Some(0x0c)
    else if c == 'n' as int then Some(0x0a)
    else if c == 'r' as int then Some(0x0d)
    else if c == 't' as int then Some(0x09)
    else None
  }

  /** What the inside of a string stands for by that section, as far as escapes stand for ASCII: none for an unescaped
      quotation mark or control character, and for a backslash that starts no escape. */
  function Unescape(s: Bytes): Option<Bytes> {
    if s == [] then Some([])
    else if s[0] == '"' as int || s[0] < 0x20 then None
    else if s[0] != '\\' as int then Preceded(s[0], Unescape(s[1..]))
    else if |s| >= 2 && Short(s[1]).Some? then Preceded(Short(s[1]).value, Unescape(s[2..]))
    else if |s| >= 6 && s[1] == 'u' as int && Code(s[2..6]).Some? then Preceded(Code(s[2..6]).value, Unescape(s[6..]))
    else None
  }

  function Code(digits: Bytes): Option<Byte>
    requires |digits| == 4
  {
    var a, b, c, d := AnyHex(digits[0]), AnyHex(digits[1]), AnyHex(digits[2]), AnyHex(digits[3]);
    if a == Some(0) && b == Some(0) && c.Some? && d.Some? && c.value < 8 then Some(16 * c.value + d.value) else None
  }

  function Preceded(c: Byte, rest: Option<Bytes>): Option<Bytes> {
    match rest
    case None => None
    case Some(text) => Some([c] + text)
  }

  /** What is written between quotation marks stands for the text: RFC 8259 reads it back. */
  lemma {:induction false} EscapeIsJson(text: Bytes)
    ensures Unescape(Escape(text)) == Some(text)
  {
    if text != [] {
      EscapeIsJson(text[1..]);
      EscapedIsJson(text[0], Escape(text[1..]));
      assert text == [text[0]] + text[1..];
    }
  }

  lemma EscapedIsJson(c: Byte, rest: Bytes)
    ensures Unescape(Escaped(c) + rest) == Preceded(c, Unescape(rest))
  {
    var s := Escaped(c) + rest;
    if c == QUOTE || c == BACKSLASH {
      assert s[2..] == rest;
    } else if c < 0x20 {
      assert s[6..] == rest;
      assert s[2..6] == [ZERO, ZERO, HexDigit(c / 16), HexDigit(c % 16)];
      HexIsJson(c / 16);
      HexIsJson(c % 16);
      HexIsJson(0);
    } else {
      assert s[1..] == rest;
    }
  }

  lemma HexIsJson(n: nat)
    requires n < 16
    ensures AnyHex(HexDigit(n)) == Some(n) && (n == 0 ==> HexDigit(n) == ZERO)
  {
  }

  /** The strings share their first `k` bytes, and there the first ends or has the smaller byte. */
  predicate DiffersAt(a: Bytes, b: Bytes, k: nat) {
    k <= |a| && k < |b| && a[..k] == b[..k] && (k == |a| || a[k] < b[k])
  }

  /** The order of keys is decided by the first byte in which they differ, or by the end of the shorter. */
  lemma {:induction false} LessIsLexicographic(a: Bytes, b: Bytes)
    ensures Less(a, b) <==> exists k :: DiffersAt(a, b, k)
  {
    if a != [] && b != [] {
      LessIsLexicographic(a[1..], b[1..]);
      assert a == [a[0]] + a[1..] && b == [b[0]] + b[1..];
      if a[0] < b[0] {
        assert DiffersAt(a, b, 0);
      }
      if k: nat :| DiffersAt(a[1..], b[1..], k) {
        if a[0] == b[0] {
          assert a[..k + 1] == [a[0]] + a[1..][..k] && b[..k + 1] == [b[0]] + b[1..][..k];
          assert DiffersAt(a, b, k + 1);
        }
      }
      if k: nat :| DiffersAt(a, b, k) {
        if k > 0 {
          assert a[..k][0] == b[..k][0] && a[..k][1..] == a[1..][..k - 1] && b[..k][1..] == b[1..][..k - 1];
          assert DiffersAt(a[1..], b[1..], k - 1);
        }
      }
    } else if b != [] {
      assert DiffersAt(a, b, 0);
    }
  }

  // ----- the grammar the parser follows: a value and the text after it -----

  // The depth counts up to the limit from wherever it starts; a text is read from one.

  datatype Parsed<T> = Parsed(value: T, rest: Bytes)

  function HexValue(c: Byte): Option<nat> {
    if 0x30 <= c <= 0x39 then Some(c - 0x30) else if 0x61 <= c <= 0x66 then Some(c - 0x61 + 10) else None
  }

  /** One character of a string, when the text does not start with the closing quote. */
  function ParseCharacter(s: Bytes): (r: Option<Parsed<Byte>>)
    requires s != []
    ensures r.Some? ==> |r.value.rest| < |s|
  {
    if s[0] < 0x20 then None
    else if s[0] != BACKSLASH then Some(Parsed(s[0], s[1..]))
    else if |s| == 1 then None
    else if s[1] == QUOTE || s[1] == BACKSLASH then Some(Parsed(s[1], s[2..]))
    else if s[1] != LETTER_U || |s| < 6 || s[2] != ZERO || s[3] != ZERO then None
    else
      var upper, lower := HexValue(s[4]), HexValue(s[5]);
      if upper.None? || lower.None? || upper.value * 16 + lower.value > 0x1f then None
      else Some(Parsed(upper.value * 16 + lower.value, s[6..]))
  }

  /** The characters up to the closing quote. */
  function ParseCharacters(s: Bytes): (r: Option<Parsed<Bytes>>)
    ensures r.Some? ==> |r.value.rest| < |s|
    decreases |s|
  {
    if s == [] then None
    else if s[0] == QUOTE then Some(Parsed([], s[1..]))
    else
      match ParseCharacter(s)
      case None => None
      case Some(c) =>
        match ParseCharacters(c.rest)
        case None => None
        case Some(more) => Some(Parsed([c.value] + more.value, more.rest))
  }

  function ParseString(s: Bytes): (r: Option<Parsed<Bytes>>)
    ensures r.Some? ==> |r.value.rest| < |s|
  {
    if s == [] || s[0] != QUOTE then None
    else
      match ParseCharacters(s[1..])
      case None => None
      case Some(p) => if Valid(p.value) then Some(p) else None
  }

  predicate Next(s: Bytes, c: Byte) {
    s != [] && s[0] == c
  }

  predicate Starts(s: Bytes, prefix: Bytes) {
    |prefix| <= |s| && s[..|prefix|] == prefix
  }

  function ParseValue(s: Bytes, depth: int): (r: Option<Parsed<Json>>)
    ensures r.Some? ==> |r.value.rest| < |s|
    decreases |s|, 0
  {
    if depth > MAXIMUM_NESTING || s == [] then None
    else if s[0] == NULL[0] then
      if Starts(s, NULL) then Some(Parsed(Null, s[|NULL|..])) else None
    else if s[0] == TRUE[0] || s[0] == FALSE[0] then
      if Starts(s, TRUE) then Some(Parsed(Bool(true), s[|TRUE|..]))
      else if Starts(s, FALSE) then Some(Parsed(Bool(false), s[|FALSE|..])) else None
    else if s[0] == QUOTE then
      match ParseString(s)
      case None => None
      case Some(p) => Some(Parsed(Text(p.value), p.rest))
    else if s[0] == OPEN_LIST then
      if Next(s[1..], CLOSE_LIST) then Some(Parsed(List([]), s[2..]))
      else
        match ParseItems(s[1..], depth + 1)
        case None => None
        case Some(p) => Some(Parsed(List(p.value), p.rest))
    else if s[0] == OPEN_OBJECT then
      if Next(s[1..], CLOSE_OBJECT) then Some(Parsed(Object([]), s[2..]))
      else
        match ParseFields(s[1..], depth + 1, None)
        case None => None
        case Some(p) => Some(Parsed(Object(p.value), p.rest))
    else None
  }

  /** One item or more, and the closing bracket. */
  function ParseItems(s: Bytes, depth: int): (r: Option<Parsed<seq<Json>>>)
    ensures r.Some? ==> |r.value.rest| < |s|
    decreases |s|, 1
  {
    match ParseValue(s, depth)
    case None => None
    case Some(first) =>
      if Next(first.rest, CLOSE_LIST) then Some(Parsed([first.value], first.rest[1..]))
      else if Next(first.rest, COMMA) then
        match ParseItems(first.rest[1..], depth)
        case None => None
        case Some(more) => Some(Parsed([first.value] + more.value, more.rest))
      else None
  }

  /** A key above the previous one, and its value. */
  function ParseField(s: Bytes, depth: int, previous: Option<Bytes>): (r: Option<Parsed<Field>>)
    ensures r.Some? ==> |r.value.rest| < |s|
    decreases |s|, 1
  {
    match ParseString(s)
    case None => None
    case Some(key) =>
      if (previous.Some? && !Less(previous.value, key.value)) || !Next(key.rest, COLON) then None
      else
        match ParseValue(key.rest[1..], depth)
        case None => None
        case Some(value) => Some(Parsed(Field(key.value, value.value), value.rest))
  }

  /** One field or more, and the closing brace. */
  function ParseFields(s: Bytes, depth: int, previous: Option<Bytes>): (r: Option<Parsed<seq<Field>>>)
    ensures r.Some? ==> |r.value.rest| < |s|
    decreases |s|, 2
  {
    match ParseField(s, depth, previous)
    case None => None
    case Some(first) =>
      if Next(first.rest, CLOSE_OBJECT) then Some(Parsed([first.value], first.rest[1..]))
      else if Next(first.rest, COMMA) then
        match ParseFields(first.rest[1..], depth, Some(first.value.key))
        case None => None
        case Some(more) => Some(Parsed([first.value] + more.value, more.rest))
      else None
  }

  /** A whole text. */
  function Parse(text: Bytes): Option<Json> {
    match ParseValue(text, 1)
    case None => None
    case Some(p) => if p.rest == [] then Some(p.value) else None
  }

  // ----- every accepted text is the printed form of what it stands for -----

  lemma CharacterSound(s: Bytes)
    requires s != [] && s[0] != QUOTE && ParseCharacter(s).Some?
    ensures var p := ParseCharacter(s).value; s == Escaped(p.value) + p.rest
  {
    if s[0] == BACKSLASH {
      if s[1] == LETTER_U {
        HexSound(s[4]);
        HexSound(s[5]);
      }
    }
  }

  lemma HexSound(c: Byte)
    requires HexValue(c).Some?
    ensures HexValue(c).value < 16 && HexDigit(HexValue(c).value) == c
  {
  }

  lemma {:induction false} CharactersSound(s: Bytes)
    requires ParseCharacters(s).Some?
    ensures var p := ParseCharacters(s).value; s == Escape(p.value) + [QUOTE] + p.rest
    decreases |s|
  {
    if s[0] != QUOTE {
      CharacterSound(s);
      var c := ParseCharacter(s).value;
      CharactersSound(c.rest);
      var more := ParseCharacters(c.rest).value;
      assert ([c.value] + more.value)[1..] == more.value;
      Regroup(Escaped(c.value), Escape(more.value), [QUOTE], more.rest);
    }
  }

  lemma Regroup(a: Bytes, b: Bytes, c: Bytes, d: Bytes)
    ensures a + (b + c + d) == (a + b) + c + d
  {
  }

  lemma StringSound(s: Bytes)
    requires ParseString(s).Some?
    ensures var p := ParseString(s).value; s == Quoted(p.value) + p.rest && Valid(p.value)
  {
    CharactersSound(s[1..]);
    var p := ParseCharacters(s[1..]).value;
    assert s == [QUOTE] + s[1..];
    Regroup([QUOTE], Escape(p.value), [QUOTE], p.rest);
  }

  lemma NextSplits(s: Bytes, c: Byte)
    requires Next(s, c)
    ensures s == [c] + s[1..]
  {
  }

  lemma StartsSplits(s: Bytes, prefix: Bytes)
    requires Starts(s, prefix)
    ensures s == prefix + s[|prefix|..]
  {
  }

  lemma {:induction false} ValueSound(s: Bytes, depth: int)
    requires ParseValue(s, depth).Some?
    ensures var p := ParseValue(s, depth).value;
            s == Print(p.value) + p.rest && Canonical(p.value) && depth + Nesting(p.value) <= MAXIMUM_NESTING + 1
    decreases |s|, 0
  {
    if s[0] == QUOTE {
      StringSound(s);
    } else if s[0] == OPEN_LIST {
      if !Next(s[1..], CLOSE_LIST) {
        ItemsSound(s[1..], depth + 1);
        Bracketed(s, ParseItems(s[1..], depth + 1).value.rest, OPEN_LIST,
                  PrintItems(ParseItems(s[1..], depth + 1).value.value), CLOSE_LIST);
      } else {
        assert s == [OPEN_LIST] + [] + [CLOSE_LIST] + s[2..];
      }
    } else if s[0] == OPEN_OBJECT {
      if !Next(s[1..], CLOSE_OBJECT) {
        FieldsSound(s[1..], depth + 1, None);
        Bracketed(s, ParseFields(s[1..], depth + 1, None).value.rest, OPEN_OBJECT,
                  PrintFields(ParseFields(s[1..], depth + 1, None).value.value), CLOSE_OBJECT);
      } else {
        assert s == [OPEN_OBJECT] + [] + [CLOSE_OBJECT] + s[2..];
      }
    } else if Starts(s, NULL) {
      StartsSplits(s, NULL);
    } else if Starts(s, TRUE) {
      StartsSplits(s, TRUE);
    } else {
      StartsSplits(s, FALSE);
    }
  }

  lemma Bracketed(s: Bytes, rest: Bytes, open: Byte, inner: Bytes, close: Byte)
    requires s != [] && s[0] == open && s[1..] == inner + [close] + rest
    ensures s == [open] + inner + [close] + rest
  {
    assert s == [open] + s[1..];
  }

  lemma OnlyItem(v: Json)
    ensures PrintItems([v]) == Print(v) && ItemsNesting([v]) == Nesting(v) && (CanonicalItems([v]) <==> Canonical(v))
  {
  }

  lemma OnlyField(f: Field)
    ensures PrintFields([f]) == PrintField(f) && FieldsNesting([f]) == Nesting(f.value)
    ensures CanonicalFields([f]) <==> Valid(f.key) && Canonical(f.value)
  {
  }

  lemma PrependItem(v: Json, more: seq<Json>)
    requires more != []
    ensures PrintItems([v] + more) == Print(v) + [COMMA] + PrintItems(more)
    ensures ItemsNesting([v] + more) == Max(Nesting(v), ItemsNesting(more))
    ensures CanonicalItems([v] + more) <==> Canonical(v) && CanonicalItems(more)
  {
    assert ([v] + more)[1..] == more;
  }

  lemma PrependField(f: Field, more: seq<Field>)
    requires more != []
    ensures PrintFields([f] + more) == PrintField(f) + [COMMA] + PrintFields(more)
    ensures FieldsNesting([f] + more) == Max(Nesting(f.value), FieldsNesting(more))
    ensures CanonicalFields([f] + more)
       <==> Valid(f.key) && Canonical(f.value) && Less(f.key, more[0].key) && CanonicalFields(more)
  {
    assert ([f] + more)[1..] == more;
  }

  lemma {:induction false} ItemsSound(s: Bytes, depth: int)
    requires ParseItems(s, depth).Some?
    ensures var p := ParseItems(s, depth).value;
            && s == PrintItems(p.value) + [CLOSE_LIST] + p.rest && p.value != []
            && CanonicalItems(p.value) && depth + ItemsNesting(p.value) <= MAXIMUM_NESTING + 1
    decreases |s|, 1
  {
    ValueSound(s, depth);
    var first := ParseValue(s, depth).value;
    if Next(first.rest, CLOSE_LIST) {
      NextSplits(first.rest, CLOSE_LIST);
      OnlyItem(first.value);
      Reclosed(s, Print(first.value), CLOSE_LIST, first.rest[1..]);
    } else {
      NextSplits(first.rest, COMMA);
      ItemsSound(first.rest[1..], depth);
      var more := ParseItems(first.rest[1..], depth).value;
      PrependItem(first.value, more.value);
      Listed(s, Print(first.value), PrintItems(more.value), CLOSE_LIST, more.rest);
    }
  }

  lemma Reclosed(s: Bytes, first: Bytes, close: Byte, rest: Bytes)
    requires s == first + ([close] + rest)
    ensures s == first + [close] + rest
  {
  }

  lemma Listed(s: Bytes, first: Bytes, more: Bytes, close: Byte, rest: Bytes)
    requires s == first + ([COMMA] + (more + [close] + rest))
    ensures s == first + [COMMA] + more + [close] + rest
  {
  }

  predicate Above(previous: Option<Bytes>, key: Bytes) {
    previous.Some? ==> Less(previous.value, key)
  }

  lemma {:induction false} FieldSound(s: Bytes, depth: int, previous: Option<Bytes>)
    requires ParseField(s, depth, previous).Some?
    ensures var p := ParseField(s, depth, previous).value;
            && s == PrintField(p.value) + p.rest && Above(previous, p.value.key)
            && Valid(p.value.key) && Canonical(p.value.value) && depth + Nesting(p.value.value) <= MAXIMUM_NESTING + 1
    decreases |s|, 1
  {
    StringSound(s);
    var key := ParseString(s).value;
    NextSplits(key.rest, COLON);
    ValueSound(key.rest[1..], depth);
    var value := ParseValue(key.rest[1..], depth).value;
    Paired(s, Quoted(key.value), Print(value.value), value.rest);
  }

  lemma Paired(s: Bytes, key: Bytes, value: Bytes, rest: Bytes)
    requires s == key + ([COLON] + (value + rest))
    ensures s == key + [COLON] + value + rest
  {
  }

  lemma {:induction false} FieldsSound(s: Bytes, depth: int, previous: Option<Bytes>)
    requires ParseFields(s, depth, previous).Some?
    ensures var p := ParseFields(s, depth, previous).value;
            && s == PrintFields(p.value) + [CLOSE_OBJECT] + p.rest && p.value != [] && Above(previous, p.value[0].key)
            && CanonicalFields(p.value) && depth + FieldsNesting(p.value) <= MAXIMUM_NESTING + 1
    decreases |s|, 2
  {
    FieldSound(s, depth, previous);
    var first := ParseField(s, depth, previous).value;
    if Next(first.rest, CLOSE_OBJECT) {
      NextSplits(first.rest, CLOSE_OBJECT);
      OnlyField(first.value);
      Reclosed(s, PrintField(first.value), CLOSE_OBJECT, first.rest[1..]);
    } else {
      NextSplits(first.rest, COMMA);
      FieldsSound(first.rest[1..], depth, Some(first.value.key));
      var more := ParseFields(first.rest[1..], depth, Some(first.value.key)).value;
      PrependField(first.value, more.value);
      Listed(s, PrintField(first.value), PrintFields(more.value), CLOSE_OBJECT, more.rest);
    }
  }

  // ----- every canonical value within the nesting limit is read back -----

  lemma HexComplete(n: nat)
    requires n < 16
    ensures HexValue(HexDigit(n)) == Some(n)
  {
  }

  lemma CharacterComplete(c: Byte, rest: Bytes)
    ensures (Escaped(c) + rest)[0] != QUOTE
    ensures ParseCharacter(Escaped(c) + rest) == Some(Parsed(c, rest))
  {
    HexComplete(c / 16);
    HexComplete(c % 16);
    assert (Escaped(c) + rest)[|Escaped(c)|..] == rest;
  }

  lemma {:induction false} CharactersComplete(text: Bytes, rest: Bytes)
    ensures ParseCharacters(Escape(text) + [QUOTE] + rest) == Some(Parsed(text, rest))
  {
    if text == [] {
      assert ([QUOTE] + rest)[1..] == rest;
      assert [] + [QUOTE] + rest == [QUOTE] + rest;
    } else {
      var after := Escape(text[1..]) + [QUOTE] + rest;
      Regroup(Escaped(text[0]), Escape(text[1..]), [QUOTE], rest);
      CharacterComplete(text[0], after);
      CharactersComplete(text[1..], rest);
      assert text == [text[0]] + text[1..];
    }
  }

  lemma StringComplete(text: Bytes, rest: Bytes)
    requires Valid(text)
    ensures ParseString(Quoted(text) + rest) == Some(Parsed(text, rest))
  {
    var s := Quoted(text) + rest;
    CharactersComplete(text, rest);
    assert s[1..] == Escape(text) + [QUOTE] + rest;
  }

  /** The first byte tells the kinds of value apart. */
  lemma FirstByte(v: Json)
    ensures Print(v) != [] && Print(v)[0] != CLOSE_LIST && Print(v)[0] != CLOSE_OBJECT
  {
  }

  lemma LiteralComplete(v: Json, s: Bytes, rest: Bytes, depth: int)
    requires (v.Null? || v.Bool?) && s == Print(v) + rest && depth <= MAXIMUM_NESTING
    ensures ParseValue(s, depth) == Some(Parsed(v, rest))
  {
    var spelling := Print(v);
    assert s[..|spelling|] == spelling && s[|spelling|..] == rest && s[0] == spelling[0];
    if Starts(s, TRUE) {
      StartsFirst(s, TRUE);
    }
  }

  lemma StartsFirst(s: Bytes, prefix: Bytes)
    requires Starts(s, prefix) && prefix != []
    ensures s[0] == prefix[0]
  {
    assert s[..|prefix|][0] == s[0];
  }

  lemma TextComplete(text: Bytes, s: Bytes, rest: Bytes, depth: int)
    requires Valid(text) && s == Quoted(text) + rest && depth <= MAXIMUM_NESTING
    ensures ParseValue(s, depth) == Some(Parsed(Text(text), rest))
  {
    StringComplete(text, rest);
  }

  lemma ListComplete(items: seq<Json>, s: Bytes, rest: Bytes, depth: int)
    requires s != [] && s[0] == OPEN_LIST && depth <= MAXIMUM_NESTING
    requires if items == [] then s[1..] == [CLOSE_LIST] + rest
             else !Next(s[1..], CLOSE_LIST) && ParseItems(s[1..], depth + 1) == Some(Parsed(items, rest))
    ensures ParseValue(s, depth) == Some(Parsed(List(items), rest))
  {
    if items == [] {
      assert s[2..] == s[1..][1..] == rest;
    }
  }

  lemma ObjectComplete(fields: seq<Field>, s: Bytes, rest: Bytes, depth: int)
    requires s != [] && s[0] == OPEN_OBJECT && depth <= MAXIMUM_NESTING
    requires if fields == [] then s[1..] == [CLOSE_OBJECT] + rest
             else !Next(s[1..], CLOSE_OBJECT) && ParseFields(s[1..], depth + 1, None) == Some(Parsed(fields, rest))
    ensures ParseValue(s, depth) == Some(Parsed(Object(fields), rest))
  {
    if fields == [] {
      assert s[2..] == s[1..][1..] == rest;
    }
  }

  lemma Unbracketed(s: Bytes, open: Byte, inner: Bytes, close: Byte, rest: Bytes)
    requires s == [open] + inner + [close] + rest
    ensures s != [] && s[0] == open && s[1..] == inner + [close] + rest
  {
  }

  lemma NotClosed(s: Bytes, first: Bytes, close: Byte)
    requires first != [] && Starts(s, first) && first[0] != close
    ensures !Next(s, close)
  {
    assert s[0] == s[..|first|][0];
  }

  lemma Unclosed(s: Bytes, first: Bytes, close: Byte, rest: Bytes)
    requires s == first + [close] + rest
    ensures s == first + ([close] + rest)
  {
  }

  lemma Unlisted(s: Bytes, first: Bytes, separator: Bytes, more: Bytes, close: Byte, rest: Bytes)
    requires s == first + separator + more + [close] + rest
    ensures s == first + (separator + (more + [close] + rest))
  {
  }

  lemma {:induction false} ValueComplete(v: Json, s: Bytes, rest: Bytes, depth: int)
    requires Canonical(v) && depth + Nesting(v) <= MAXIMUM_NESTING + 1 && s == Print(v) + rest
    ensures ParseValue(s, depth) == Some(Parsed(v, rest))
    decreases v, 0
  {
    match v
    case Null => LiteralComplete(v, s, rest, depth);
    case Bool(_) => LiteralComplete(v, s, rest, depth);
    case Text(text) => TextComplete(text, s, rest, depth);
    case List(items) => BracketsComplete(items, s, rest, depth);
    case Object(fields) => BracesComplete(fields, s, rest, depth);
  }

  lemma {:induction false} BracketsComplete(items: seq<Json>, s: Bytes, rest: Bytes, depth: int)
    requires CanonicalItems(items) && depth + 1 + ItemsNesting(items) <= MAXIMUM_NESTING + 1
    requires s == [OPEN_LIST] + PrintItems(items) + [CLOSE_LIST] + rest
    ensures ParseValue(s, depth) == Some(Parsed(List(items), rest))
    decreases items, 2
  {
    Unbracketed(s, OPEN_LIST, PrintItems(items), CLOSE_LIST, rest);
    if items != [] {
      ItemsComplete(items, s[1..], rest, depth + 1);
      FirstByte(items[0]);
      NotClosed(s[1..], Print(items[0]), CLOSE_LIST);
    }
    ListComplete(items, s, rest, depth);
  }

  lemma {:induction false} BracesComplete(fields: seq<Field>, s: Bytes, rest: Bytes, depth: int)
    requires CanonicalFields(fields) && depth + 1 + FieldsNesting(fields) <= MAXIMUM_NESTING + 1
    requires s == [OPEN_OBJECT] + PrintFields(fields) + [CLOSE_OBJECT] + rest
    ensures ParseValue(s, depth) == Some(Parsed(Object(fields), rest))
    decreases fields, 2
  {
    Unbracketed(s, OPEN_OBJECT, PrintFields(fields), CLOSE_OBJECT, rest);
    if fields != [] {
      FieldsComplete(fields, s[1..], rest, depth + 1, None);
      NotClosed(s[1..], PrintField(fields[0]), CLOSE_OBJECT);
    }
    ObjectComplete(fields, s, rest, depth);
  }

  lemma ItemsStep(v: Json, more: seq<Json>, s: Bytes, later: Bytes, rest: Bytes, depth: int)
    requires ParseValue(s, depth) == Some(Parsed(v, [if more == [] then CLOSE_LIST else COMMA] + later))
    requires if more == [] then later == rest else ParseItems(later, depth) == Some(Parsed(more, rest))
    ensures ParseItems(s, depth) == Some(Parsed([v] + more, rest))
  {
    assert ([CLOSE_LIST] + later)[1..] == later && ([COMMA] + later)[1..] == later && [v] + [] == [v];
  }

  lemma {:induction false} ItemsComplete(items: seq<Json>, s: Bytes, rest: Bytes, depth: int)
    requires items != [] && CanonicalItems(items) && depth + ItemsNesting(items) <= MAXIMUM_NESTING + 1
    requires s == PrintItems(items) + [CLOSE_LIST] + rest
    ensures ParseItems(s, depth) == Some(Parsed(items, rest))
    decreases items, 1
  {
    var first, more := items[0], items[1..];
    assert items == [first] + more;
    if more == [] {
      OnlyItem(first);
      Unclosed(s, Print(first), CLOSE_LIST, rest);
      ValueComplete(first, s, [CLOSE_LIST] + rest, depth);
      ItemsStep(first, more, s, rest, rest, depth);
    } else {
      var later := PrintItems(more) + [CLOSE_LIST] + rest;
      PrependItem(first, more);
      Unlisted(s, Print(first), [COMMA], PrintItems(more), CLOSE_LIST, rest);
      ValueComplete(first, s, [COMMA] + later, depth);
      ItemsComplete(more, later, rest, depth);
      ItemsStep(first, more, s, later, rest, depth);
    }
  }

  lemma FieldStep(f: Field, s: Bytes, after: Bytes, rest: Bytes, depth: int, previous: Option<Bytes>)
    requires Above(previous, f.key) && ParseString(s) == Some(Parsed(f.key, [COLON] + after))
    requires ParseValue(after, depth) == Some(Parsed(f.value, rest))
    ensures ParseField(s, depth, previous) == Some(Parsed(f, rest))
  {
    assert ([COLON] + after)[1..] == after;
  }

  lemma {:induction false} FieldComplete(f: Field, s: Bytes, rest: Bytes, depth: int, previous: Option<Bytes>)
    requires Valid(f.key) && Canonical(f.value) && depth + Nesting(f.value) <= MAXIMUM_NESTING + 1
    requires Above(previous, f.key)
    requires s == PrintField(f) + rest
    ensures ParseField(s, depth, previous) == Some(Parsed(f, rest))
    decreases f, 1
  {
    var after := Print(f.value) + rest;
    assert s == Quoted(f.key) + ([COLON] + after);
    StringComplete(f.key, [COLON] + after);
    ValueComplete(f.value, after, rest, depth);
    FieldStep(f, s, after, rest, depth, previous);
  }

  lemma FieldsStep(f: Field, more: seq<Field>, s: Bytes, later: Bytes, rest: Bytes, depth: int, previous: Option<Bytes>)
    requires ParseField(s, depth, previous) == Some(Parsed(f, [if more == [] then CLOSE_OBJECT else COMMA] + later))
    requires if more == [] then later == rest else ParseFields(later, depth, Some(f.key)) == Some(Parsed(more, rest))
    ensures ParseFields(s, depth, previous) == Some(Parsed([f] + more, rest))
  {
    assert ([CLOSE_OBJECT] + later)[1..] == later && ([COMMA] + later)[1..] == later && [f] + [] == [f];
  }

  lemma {:induction false} FieldsComplete(fields: seq<Field>, s: Bytes, rest: Bytes, depth: int,
                                          previous: Option<Bytes>)
    requires fields != [] && CanonicalFields(fields) && depth + FieldsNesting(fields) <= MAXIMUM_NESTING + 1
    requires Above(previous, fields[0].key) && s == PrintFields(fields) + [CLOSE_OBJECT] + rest
    ensures ParseFields(s, depth, previous) == Some(Parsed(fields, rest))
    decreases fields, 1
  {
    var first, more := fields[0], fields[1..];
    assert fields == [first] + more;
    if more == [] {
      OnlyField(first);
      Unclosed(s, PrintField(first), CLOSE_OBJECT, rest);
      FieldComplete(first, s, [CLOSE_OBJECT] + rest, depth, previous);
      FieldsStep(first, more, s, rest, rest, depth, previous);
    } else {
      var later := PrintFields(more) + [CLOSE_OBJECT] + rest;
      Unlisted(s, PrintField(first), [COMMA], PrintFields(more), CLOSE_OBJECT, rest);
      PrependField(first, more);
      FieldComplete(first, s, [COMMA] + later, depth, previous);
      FieldsComplete(more, later, rest, depth, Some(first.key));
      FieldsStep(first, more, s, later, rest, depth, previous);
    }
  }

  /** The parser accepts exactly the printed forms, and reads each as the value it came from. */
  lemma ParseInvertsPrint(text: Bytes, v: Json)
    ensures Parse(text) == Some(v) <==> Canonical(v) && Nesting(v) <= MAXIMUM_NESTING && text == Print(v)
  {
    if Parse(text) == Some(v) {
      ValueSound(text, 1);
      assert Print(v) + [] == Print(v);
    }
    if Canonical(v) && Nesting(v) <= MAXIMUM_NESTING && text == Print(v) {
      assert text == Print(v) + [];
      ValueComplete(v, text, [], 1);
    }
  }

  /** Different canonical values, however deep, print differently. */
  lemma PrintIsInjective(v: Json, w: Json)
    requires Canonical(v) && Canonical(w) && Print(v) == Print(w)
    ensures v == w
  {
    var depth := MAXIMUM_NESTING + 1 - Max(Nesting(v), Nesting(w));
    var s := Print(v);
    assert s == Print(v) + [] && s == Print(w) + [];
    ValueComplete(v, s, [], depth);
    ValueComplete(w, s, [], depth);
  }

  // ----- the parser as it runs -----

  ghost predicate Agrees<T(!new)>(r: Option<T>, rest: Bytes, spec: Option<Parsed<T>>) {
    if spec.None? then r.None? else r == Some(spec.value.value) && rest == spec.value.rest
  }

  function Prefixed<T>(done: seq<T>, more: Option<Parsed<seq<T>>>): Option<Parsed<seq<T>>> {
    match more
    case None => None
    case Some(p) => Some(Parsed(done + p.value, p.rest))
  }

  lemma PrefixedOnce<T>(done: seq<T>, next: T, more: Option<Parsed<seq<T>>>)
    ensures Prefixed(done, Prefixed([next], more)) == Prefixed(done + [next], more)
  {
    if more.Some? {
      assert done + ([next] + more.value.value) == done + [next] + more.value.value;
    }
  }

  lemma PrefixedNone<T>(more: Option<Parsed<seq<T>>>)
    ensures Prefixed([], more) == more
  {
    if more.Some? {
      assert [] + more.value.value == more.value.value;
    }
  }

  class Parser {
    const input: Bytes
    var offset: nat

    constructor (text: Bytes)
      ensures input == text && offset == 0
    {
      input, offset := text, 0;
    }

    method Consume(literal: Bytes) returns (found: bool)
      requires offset <= |input|
      modifies this
      ensures found == Starts(old(input[offset..]), literal)
      ensures offset == if found then old(offset) + |literal| else old(offset)
    {
      var rest := input[offset..];
      found := |literal| <= |rest| && rest[..|literal|] == literal;
      if found {
        offset := offset + |literal|;
      }
    }

    method ConsumeByte(c: Byte) returns (found: bool)
      requires offset <= |input|
      modifies this
      ensures found == Next(old(input[offset..]), c)
      ensures offset == (if found then old(offset) + 1 else old(offset)) && offset <= |input|
      ensures found ==> input[offset..] == old(input[offset..])[1..]
    {
      found := Consume([c]);
      assert [c] == [c][..1];
      assert Starts(old(input[offset..]), [c]) <==> Next(old(input[offset..]), c) by {
        if Next(old(input[offset..]), c) { assert old(input[offset..])[..1] == [c]; }
        if Starts(old(input[offset..]), [c]) { assert old(input[offset..])[..1][0] == c; }
      }
    }

    method ParseOne() returns (r: Option<Byte>)
      requires offset < |input|
      modifies this
      ensures offset <= |input|
      ensures Agrees(r, input[offset..], ParseCharacter(old(input[offset..])))
    {
      if input[offset] < 0x20 { return None; }
      if input[offset] != BACKSLASH {
        r := Some(input[offset]);
        offset := offset + 1;
        return;
      }
      offset := offset + 1;
      if offset == |input| { return None; }
      var escape := input[offset];
      offset := offset + 1;
      if escape == QUOTE || escape == BACKSLASH { return Some(escape); }
      if escape != LETTER_U || offset + 4 > |input| || input[offset] != ZERO || input[offset + 1] != ZERO {
        return None;
      }
      var upper, lower := HexValue(input[offset + 2]), HexValue(input[offset + 3]);
      if upper.None? || lower.None? || upper.value * 16 + lower.value > 0x1f { return None; }
      offset := offset + 4;
      r := Some(upper.value * 16 + lower.value);
    }

    method ReadString() returns (r: Option<Bytes>)
      requires offset <= |input|
      modifies this
      ensures offset <= |input|
      ensures Agrees(r, input[offset..], ParseString(old(input[offset..])))
    {
      if offset == |input| || input[offset] != QUOTE { return None; }
      offset := offset + 1;
      ghost var spec := ParseCharacters(input[offset..]);
      assert input[offset..] == old(input[offset..])[1..];
      var result := [];
      PrefixedNone(spec);
      while offset < |input| && input[offset] != QUOTE
        invariant offset <= |input|
        invariant spec == Prefixed(result, ParseCharacters(input[offset..]))
        decreases |input| - offset
      {
        var c := ParseOne();
        if c.None? { return None; }
        PrefixedOnce(result, c.value, ParseCharacters(input[offset..]));
        result := result + [c.value];
      }
      if offset == |input| { return None; }
      assert input[offset + 1..] == input[offset..][1..];
      assert result + [] == result;
      offset := offset + 1;
      if !Valid(result) { return None; }
      r := Some(result);
    }

    method ReadValue(depth: int) returns (r: Option<Json>)
      requires offset <= |input|
      modifies this
      ensures offset <= |input|
      ensures Agrees(r, input[offset..], ParseValue(old(input[offset..]), depth))
      decreases |input| - offset, 1
    {
      if depth > MAXIMUM_NESTING || offset == |input| { return None; }
      var first := input[offset];
      if first == NULL[0] {
        var found := Consume(NULL);
        return if found then Some(Null) else None;
      } else if first == TRUE[0] || first == FALSE[0] {
        r := ReadBool();
      } else if first == QUOTE {
        var text := ReadString();
        return if text.Some? then Some(Text(text.value)) else None;
      } else if first == OPEN_LIST {
        r := ReadList(depth);
      } else if first == OPEN_OBJECT {
        r := ReadObject(depth);
      } else {
        return None;
      }
    }

    method ReadBool() returns (r: Option<Json>)
      requires offset < |input| && (input[offset] == TRUE[0] || input[offset] == FALSE[0])
      modifies this
      ensures offset <= |input|
      ensures forall depth: int :: depth <= MAXIMUM_NESTING ==>
                Agrees(r, input[offset..], ParseValue(old(input[offset..]), depth))
    {
      var found := Consume(TRUE);
      if found { return Some(Bool(true)); }
      found := Consume(FALSE);
      return if found then Some(Bool(false)) else None;
    }

    method ReadList(depth: int) returns (r: Option<Json>)
      requires offset < |input| && input[offset] == OPEN_LIST && depth <= MAXIMUM_NESTING
      modifies this
      ensures offset <= |input|
      ensures Agrees(r, input[offset..], ParseValue(old(input[offset..]), depth))
      decreases |input| - offset, 0
    {
      ghost var s := input[offset..];
      offset := offset + 1;
      assert input[offset..] == s[1..];
      ghost var spec := ParseItems(s[1..], depth + 1);
      var closed := ConsumeByte(CLOSE_LIST);
      if closed { return Some(List([])); }
      var items := [];
      PrefixedNone(spec);
      while true
        invariant old(offset) < offset <= |input|
        invariant spec == Prefixed(items, ParseItems(input[offset..], depth + 1))
        decreases |input| - offset
      {
        var value := ReadValue(depth + 1);
        if value.None? { return None; }
        closed := ConsumeByte(CLOSE_LIST);
        if closed { return Some(List(items + [value.value])); }
        var separated := ConsumeByte(COMMA);
        if !separated { return None; }
        PrefixedOnce(items, value.value, ParseItems(input[offset..], depth + 1));
        items := items + [value.value];
      }
    }

    method ReadField(depth: int, previous: Option<Bytes>) returns (r: Option<Field>)
      requires offset <= |input|
      modifies this
      ensures offset <= |input|
      ensures Agrees(r, input[offset..], ParseField(old(input[offset..]), depth, previous))
      decreases |input| - offset, 1
    {
      var key := ReadString();
      if key.None? { return None; }
      if previous.Some? && !Less(previous.value, key.value) { return None; }
      var separated := ConsumeByte(COLON);
      if !separated { return None; }
      var value := ReadValue(depth);
      return if value.None? then None else Some(Field(key.value, value.value));
    }

    method ReadObject(depth: int) returns (r: Option<Json>)
      requires offset < |input| && input[offset] == OPEN_OBJECT && depth <= MAXIMUM_NESTING
      modifies this
      ensures offset <= |input|
      ensures Agrees(r, input[offset..], ParseValue(old(input[offset..]), depth))
      decreases |input| - offset, 0
    {
      ghost var s := input[offset..];
      offset := offset + 1;
      assert input[offset..] == s[1..];
      ghost var spec := ParseFields(s[1..], depth + 1, None);
      var closed := ConsumeByte(CLOSE_OBJECT);
      if closed { return Some(Object([])); }
      var fields: seq<Field>, previous: Option<Bytes> := [], None;
      PrefixedNone(spec);
      while true
        invariant old(offset) < offset <= |input|
        invariant spec == Prefixed(fields, ParseFields(input[offset..], depth + 1, previous))
        decreases |input| - offset
      {
        var field := ReadField(depth + 1, previous);
        if field.None? { return None; }
        previous := Some(field.value.key);
        closed := ConsumeByte(CLOSE_OBJECT);
        if closed { return Some(Object(fields + [field.value])); }
        var separated := ConsumeByte(COMMA);
        if !separated { return None; }
        PrefixedOnce(fields, field.value, ParseFields(input[offset..], depth + 1, previous));
        fields := fields + [field.value];
      }
    }
  }

  /** Reading a text succeeds exactly when it is the printed form of a canonical value within the limit, and
      returns that value. */
  method ReadText(text: Bytes) returns (r: Option<Json>)
    ensures r == Parse(text)
    ensures r.Some? <==> exists v :: Canonical(v) && Nesting(v) <= MAXIMUM_NESTING && text == Print(v)
    ensures r.Some? ==> Canonical(r.value) && Nesting(r.value) <= MAXIMUM_NESTING && text == Print(r.value)
  {
    var parser := new Parser(text);
    assert text[0..] == text;
    r := parser.ReadValue(1);
    if r.Some? && parser.offset != |text| {
      r := None;
    }
    if r.Some? {
      assert text[parser.offset..] == [];
      ParseInvertsPrint(text, r.value);
    }
    if v :| Canonical(v) && Nesting(v) <= MAXIMUM_NESTING && text == Print(v) {
      ParseInvertsPrint(text, v);
    }
  }

  // ----- the printer as it runs -----

  method WriteCharacter(c: Byte, output: Bytes) returns (r: Bytes)
    ensures r == output + Escaped(c)
  {
    if c == QUOTE || c == BACKSLASH {
      r := output + [BACKSLASH] + [c];
    } else if c < 0x20 {
      r := output + [BACKSLASH, LETTER_U, ZERO, ZERO] + [HexDigit(c / 16)] + [HexDigit(c % 16)];
    } else {
      r := output + [c];
    }
  }

  method WriteString(text: Bytes, output: Bytes) returns (r: Bytes)
    ensures r == output + Quoted(text)
  {
    r := output + [QUOTE];
    for i := 0 to |text|
      invariant r + Escape(text[i..]) == output + [QUOTE] + Escape(text)
    {
      assert text[i..][1..] == text[i + 1..];
      Associate(r, Escaped(text[i]), Escape(text[i + 1..]));
      r := WriteCharacter(text[i], r);
    }
    assert Escape(text[|text|..]) == [];
    Enclose(output, QUOTE, Escape(text), QUOTE, r);
    r := r + [QUOTE];
  }

  /** What is still to be written before item `i`: its comma, and the rest. */
  function ItemsFrom(items: seq<Json>, i: nat): Bytes
    requires i <= |items|
  {
    (if 0 < i < |items| then [COMMA] else []) + PrintItems(items[i..])
  }

  function FieldsFrom(fields: seq<Field>, i: nat): Bytes
    requires i <= |fields|
  {
    (if 0 < i < |fields| then [COMMA] else []) + PrintFields(fields[i..])
  }

  function Separator(i: nat): Bytes {
    if i == 0 then [] else [COMMA]
  }

  lemma ItemsFromStep(items: seq<Json>, i: nat, r: Bytes)
    requires i < |items|
    ensures r + ItemsFrom(items, i) == r + Separator(i) + Print(items[i]) + ItemsFrom(items, i + 1)
  {
    assert items[i..][1..] == items[i + 1..];
    var comma := if i + 1 < |items| then [COMMA] else [];
    assert PrintItems(items[i..]) == Print(items[i]) + comma + PrintItems(items[i + 1..]);
    Flatten(r, Separator(i), Print(items[i]), comma, PrintItems(items[i + 1..]));
  }

  lemma FieldsFromStep(fields: seq<Field>, i: nat, r: Bytes)
    requires i < |fields|
    ensures r + FieldsFrom(fields, i) == r + Separator(i) + PrintField(fields[i]) + FieldsFrom(fields, i + 1)
  {
    assert fields[i..][1..] == fields[i + 1..];
    var comma := if i + 1 < |fields| then [COMMA] else [];
    assert PrintFields(fields[i..]) == PrintField(fields[i]) + comma + PrintFields(fields[i + 1..]);
    Flatten(r, Separator(i), PrintField(fields[i]), comma, PrintFields(fields[i + 1..]));
  }

  lemma Flatten(r: Bytes, separator: Bytes, item: Bytes, comma: Bytes, rest: Bytes)
    ensures r + (separator + (item + comma + rest)) == r + separator + item + (comma + rest)
  {
  }

  lemma Enclose(output: Bytes, open: Byte, inner: Bytes, close: Byte, r: Bytes)
    requires r + [] == output + [open] + inner
    ensures r + [close] == output + ([open] + inner + [close])
  {
    assert r == r + [];
  }

  method WriteValue(v: Json, output: Bytes) returns (r: Bytes)
    ensures r == output + Print(v)
    decreases v, 0
  {
    match v
    case Null => r := output + NULL;
    case Bool(b) => r := output + if b then TRUE else FALSE;
    case Text(text) => r := WriteString(text, output);
    case List(items) => r := WriteList(items, output);
    case Object(fields) => r := WriteObject(fields, output);
  }

  method WriteSeparator(i: nat, output: Bytes) returns (r: Bytes)
    ensures r == output + Separator(i)
  {
    r := if i != 0 then output + [COMMA] else output;
  }

  method WriteField(f: Field, output: Bytes) returns (r: Bytes)
    ensures r == output + PrintField(f)
    decreases f, 1
  {
    r := WriteString(f.key, output);
    r := r + [COLON];
    r := WriteValue(f.value, r);
  }

  method WriteList(items: seq<Json>, output: Bytes) returns (r: Bytes)
    ensures r == output + ([OPEN_LIST] + PrintItems(items) + [CLOSE_LIST])
    decreases items, 1
  {
    r := output + [OPEN_LIST];
    for i := 0 to |items|
      invariant r + ItemsFrom(items, i) == output + [OPEN_LIST] + PrintItems(items)
    {
      ItemsFromStep(items, i, r);
      r := WriteSeparator(i, r);
      r := WriteValue(items[i], r);
    }
    assert ItemsFrom(items, |items|) == [];
    Enclose(output, OPEN_LIST, PrintItems(items), CLOSE_LIST, r);
    r := r + [CLOSE_LIST];
  }

  method WriteObject(fields: seq<Field>, output: Bytes) returns (r: Bytes)
    ensures r == output + ([OPEN_OBJECT] + PrintFields(fields) + [CLOSE_OBJECT])
    decreases fields, 1
  {
    r := output + [OPEN_OBJECT];
    for i := 0 to |fields|
      invariant r + FieldsFrom(fields, i) == output + [OPEN_OBJECT] + PrintFields(fields)
    {
      FieldsFromStep(fields, i, r);
      r := WriteSeparator(i, r);
      r := WriteField(fields[i], r);
    }
    assert FieldsFrom(fields, |fields|) == [];
    Enclose(output, OPEN_OBJECT, PrintFields(fields), CLOSE_OBJECT, r);
    r := r + [CLOSE_OBJECT];
  }

  // ----- the printed form as UTF-8 -----

  /** The keys strictly increase, as in the ordered maps that Cloth's compiler builds metadata from. */
  predicate Ordered(v: Json) {
    match v
    case List(items) => OrderedItems(items)
    case Object(fields) => OrderedFields(fields)
    case _ => true
  }

  predicate OrderedItems(items: seq<Json>) {
    items == [] || (Ordered(items[0]) && OrderedItems(items[1..]))
  }

  predicate OrderedFields(fields: seq<Field>) {
    fields == []
    || (Ordered(fields[0].value) && (|fields| > 1 ==> Less(fields[0].key, fields[1].key)) && OrderedFields(fields[1..]))
  }

  predicate Plain(c: Byte) {
    Escaped(c) == [c]
  }

  lemma EscapedPrefix(c: Byte, b: Bytes)
    requires !Plain(c)
    ensures c < 0x80
    ensures Valid(Escaped(c) + b) <==> Valid(b)
  {
    var e := Escaped(c);
    if c == QUOTE || c == BACKSLASH {
      ValidAfter(c, b);
      ValidAfter(e[0], [c] + b);
      assert e + b == [e[0]] + ([c] + b);
    } else {
      ValidAfter(e[5], b);
      ValidAfter(e[4], [e[5]] + b);
      ValidAfter(e[3], [e[4]] + ([e[5]] + b));
      ValidAfter(e[2], [e[3]] + ([e[4]] + ([e[5]] + b)));
      ValidAfter(e[1], [e[2]] + ([e[3]] + ([e[4]] + ([e[5]] + b))));
      ValidAfter(e[0], [e[1]] + ([e[2]] + ([e[3]] + ([e[4]] + ([e[5]] + b)))));
      assert e + b == [e[0]] + ([e[1]] + ([e[2]] + ([e[3]] + ([e[4]] + ([e[5]] + b)))));
    }
  }

  lemma EscapedInside(a: Bytes, c: Byte, b: Bytes)
    requires !Plain(c)
    ensures c < 0x80
    ensures Valid(a + (Escaped(c) + b)) <==> Valid(a) && Valid(b)
  {
    EscapedPrefix(c, b);
    var tail := Escaped(c)[1..] + b;
    assert Escaped(c) + b == [BACKSLASH] + tail;
    ValidAfter(BACKSLASH, tail);
    ValidAround(a, BACKSLASH, tail);
    Associate(a, [BACKSLASH], tail);
  }

  lemma {:induction false} EscapeKeepsValid(plain: Bytes, rest: Bytes)
    ensures Valid(plain + Escape(rest)) <==> Valid(plain + rest)
    decreases |rest|
  {
    if rest != [] {
      var c, more := rest[0], rest[1..];
      assert plain + rest == plain + [c] + more;
      if Plain(c) {
        EscapeKeepsValid(plain + [c], more);
        Associate(plain, [c], Escape(more));
      } else {
        EscapeKeepsValid([], more);
        assert [] + Escape(more) == Escape(more) && [] + more == more;
        EscapedInside(plain, c, Escape(more));
        ValidAround(plain, c, more);
      }
    }
  }

  lemma QuotedIsUtf8(text: Bytes)
    ensures Valid(Quoted(text)) <==> Valid(text)
  {
    EscapeKeepsValid([], text);
    assert [] + Escape(text) == Escape(text) && [] + text == text;
    ValidAfter(QUOTE, Escape(text));
    ValidBefore([QUOTE] + Escape(text), QUOTE);
  }

  lemma EnclosedIsUtf8(open: Byte, inner: Bytes, close: Byte)
    requires open < 0x80 && close < 0x80
    ensures Valid([open] + inner + [close]) <==> Valid(inner)
  {
    ValidAfter(open, inner);
    ValidBefore([open] + inner, close);
  }

  /** The printed form is UTF-8 exactly when every string is. */
  lemma {:induction false} PrintIsUtf8(v: Json)
    requires Ordered(v)
    ensures Valid(Print(v)) <==> Canonical(v)
    decreases v, 0
  {
    match v
    case Null => WordIsUtf8(NULL);
    case Bool(b) => WordIsUtf8(if b then TRUE else FALSE);
    case Text(text) => QuotedIsUtf8(text);
    case List(items) =>
      ItemsAreUtf8(items);
      EnclosedIsUtf8(OPEN_LIST, PrintItems(items), CLOSE_LIST);
    case Object(fields) =>
      FieldsAreUtf8(fields);
      EnclosedIsUtf8(OPEN_OBJECT, PrintFields(fields), CLOSE_OBJECT);
  }

  lemma {:induction false} WordIsUtf8(word: Bytes)
    requires forall i :: 0 <= i < |word| ==> word[i] < 0x80
    ensures Valid(word)
  {
    if word == [] {
      EmptyIsValid();
    } else {
      WordIsUtf8(word[1..]);
      ValidAfter(word[0], word[1..]);
      assert [word[0]] + word[1..] == word;
    }
  }

  lemma {:induction false} ItemsAreUtf8(items: seq<Json>)
    requires OrderedItems(items)
    ensures Valid(PrintItems(items)) <==> CanonicalItems(items)
    decreases items, 1
  {
    if items == [] {
      EmptyIsValid();
    } else {
      PrintIsUtf8(items[0]);
      if |items| == 1 {
        OnlyItem(items[0]);
        assert items == [items[0]];
      } else {
        ItemsAreUtf8(items[1..]);
        PrependItem(items[0], items[1..]);
        assert items == [items[0]] + items[1..];
        ValidAround(Print(items[0]), COMMA, PrintItems(items[1..]));
      }
    }
  }

  lemma {:induction false} FieldIsUtf8(f: Field)
    requires Ordered(f.value)
    ensures Valid(PrintField(f)) <==> Valid(f.key) && Canonical(f.value)
    decreases f, 1
  {
    QuotedIsUtf8(f.key);
    PrintIsUtf8(f.value);
    ValidAround(Quoted(f.key), COLON, Print(f.value));
  }

  lemma {:induction false} FieldsAreUtf8(fields: seq<Field>)
    requires OrderedFields(fields)
    ensures Valid(PrintFields(fields)) <==> CanonicalFields(fields)
    decreases fields, 1
  {
    if fields == [] {
      EmptyIsValid();
    } else {
      FieldIsUtf8(fields[0]);
      if |fields| == 1 {
        OnlyField(fields[0]);
        assert fields == [fields[0]];
      } else {
        FieldsAreUtf8(fields[1..]);
        PrependField(fields[0], fields[1..]);
        assert fields == [fields[0]] + fields[1..];
        ValidAround(PrintField(fields[0]), COMMA, PrintFields(fields[1..]));
      }
    }
  }

  /** Canonical values have ordered keys. */
  lemma {:induction false} CanonicalIsOrdered(v: Json)
    requires Canonical(v)
    ensures Ordered(v)
    decreases v, 0
  {
    if v.List? { ItemsAreOrdered(v.items); }
    if v.Object? { FieldsAreOrdered(v.fields); }
  }

  lemma {:induction false} ItemsAreOrdered(items: seq<Json>)
    requires CanonicalItems(items)
    ensures OrderedItems(items)
    decreases items, 1
  {
    if items != [] {
      CanonicalIsOrdered(items[0]);
      ItemsAreOrdered(items[1..]);
    }
  }

  lemma {:induction false} FieldsAreOrdered(fields: seq<Field>)
    requires CanonicalFields(fields)
    ensures OrderedFields(fields)
    decreases fields, 1
  {
    if fields != [] {
      CanonicalIsOrdered(fields[0].value);
      FieldsAreOrdered(fields[1..]);
    }
  }
}
