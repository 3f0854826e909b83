/** The assertion filter printer `construct_assertion_control_filter`
    (mo_ldap_import_export/ldap.py:813-880), next to a parser for the string form of search filters
    (section 3 of RFC 4515) and their evaluation on an entry.

    Texts are octet strings: a character stands for one octet of the UTF-8 encoding. */
module AssertionFilter {
  import opened Wrappers

  type Octet = c: char | c as int < 256 witness 'a'
  type Octets = seq<Octet>

  // ---------------------------------------------------------------------------------------------
  // The printer
  // ---------------------------------------------------------------------------------------------

  datatype Value = Scalar(value: Octets) | List(values: seq<Octets>)

  /** A dictionary in iteration order. */
  type Attributes = seq<(Octets, Value)>

  datatype Error = DnInAssertion

  /** Replaces every occurrence of one character, as Python's `str.replace` does. */
  function Replace(text: Octets, what: Octet, with: Octets): Octets {
    if text == [] then []
    else (if text[0] == what then with else [text[0]]) + Replace(text[1..], what, with)
  }

  const HEX_DIGITS: Octets := "0123456789abcdef"

  function Hex(c: Octet): (text: Octets)
    ensures |text| == 2
  {
    [HEX_DIGITS[c as int / 16], HEX_DIGITS[c as int % 16]]
  }

  /** The last pass of the escaping: octets above 0x7F become backslash-hex pairs. */
  function EscapeHigh(text: Octets): Octets {
    if text == [] then []
    else (if text[0] as int > 0x7F then ['\\'] + Hex(text[0]) else [text[0]]) + EscapeHigh(text[1..])
  }

  /** `escape_filter_chars`: one pass per special character, the backslash first. */
  function EscapeFilterChars(text: Octets): Octets {
    var text := Replace(text, '\\', "\\5c");
    var text := Replace(text, '*', "\\2a");
    var text := Replace(text, '(', "\\28");
    var text := Replace(text, ')', "\\29");
    var text := Replace(text, '\0', "\\00");
    EscapeHigh(text)
  }

  function EncodeValue(text: Octets): Octets {
    Replace(EscapeFilterChars(text), ' ', "\\20")
  }

  function GeneratePair(key: Octets, value: Octets): Octets {
    "(" + key + "=" + EncodeValue(value) + ")"
  }

  function Concatenated(texts: seq<Octets>): Octets {
    if texts == [] then [] else texts[0] + Concatenated(texts[1..])
  }

  function AndFilters(filterPairs: seq<Octets>): Octets {
    if |filterPairs| == 1 then filterPairs[0] else "(&" + Concatenated(filterPairs) + ")"
  }

  function GeneratePairs(key: Octets, value: Value): Octets {
    match value
    case Scalar(v) => GeneratePair(key, v)
    case List(vs) =>
      if vs == [] then "(!(" + key + "=*))"
      else AndFilters(seq(|vs|, i requires 0 <= i < |vs| => GeneratePair(key, vs[i])))
  }

  function ConstructAssertionControlFilter(attributes: Attributes): Result<Octets, Error> {
    if exists a <- attributes :: a.0 == "dn" then Err(DnInAssertion)
    else if attributes == [] then Ok("(objectClass=*)")
    else
      var n := |attributes|;
      Ok(AndFilters(seq(n, i requires 0 <= i < n => GeneratePairs(attributes[i].0, attributes[i].1))))
  }

  // ---------------------------------------------------------------------------------------------
  // Filters and their meaning
  // ---------------------------------------------------------------------------------------------

  datatype Filter =
    | And(filters: seq<Filter>)
    | Or(filters: seq<Filter>)
    | Not(filter: Filter)
    | Present(attribute: Octets)
    | Equal(attribute: Octets, value: Octets)
    | Substrings(attribute: Octets, parts: seq<Octets>)

  type Entry = map<Octets, set<Octets>>

  predicate HasAttribute(entry: Entry, attribute: Octets) {
    attribute in entry && entry[attribute] != {}
  }

  predicate HasValue(entry: Entry, attribute: Octets, value: Octets) {
    attribute in entry && value in entry[attribute]
  }

  /** Whether the parts occur in the text in order and without overlap, the last at its end. */
  predicate MatchesRest(text: Octets, parts: seq<Octets>)
    decreases |parts|, |text|
  {
    if parts == [] then true
    else if |parts| == 1 then |parts[0]| <= |text| && text[|text| - |parts[0]|..] == parts[0]
    else
      || (parts[0] <= text && MatchesRest(text[|parts[0]|..], parts[1..]))
      || (text != [] && MatchesRest(text[1..], parts))
  }

  predicate MatchesSubstrings(text: Octets, parts: seq<Octets>)
    requires parts != []
  {
    parts[0] <= text && MatchesRest(text[|parts[0]|..], parts[1..])
  }

  predicate Evaluate(filter: Filter, entry: Entry) {
    match filter
    case And(filters) => forall f <- filters :: Evaluate(f, entry)
    case Or(filters) => exists f <- filters :: Evaluate(f, entry)
    case Not(f) => !Evaluate(f, entry)
    case Present(attribute) => HasAttribute(entry, attribute)
    case Equal(attribute, value) => HasValue(entry, attribute, value)
    case Substrings(attribute, parts) =>
      attribute in entry && exists v <- entry[attribute] :: parts != [] && MatchesSubstrings(v, parts)
  }

  // ---------------------------------------------------------------------------------------------
  // The parser
  // ---------------------------------------------------------------------------------------------

  predicate IsNameOctet(c: Octet) {
    'a' <= c <= 'z' || 'A' <= c <= 'Z' || '0' <= c <= '9' || c == '-' || c == '.' || c == ';'
  }

  /** An attribute description (section 2.5 of RFC 4512), up to the order of its octets. */
  predicate IsName(name: Octets) {
    name != [] && forall c <- name :: IsNameOctet(c)
  }

  /** An octet that stands for itself within a value. */
  predicate IsNormal(c: Octet) {
    c != '\0' && c != '(' && c != ')' && c != '*' && c != '\\'
  }

  function HexValue(c: Octet): Option<nat> {
    if '0' <= c <= '9' then Some(c as int - '0' as int)
    else if 'a' <= c <= 'f' then Some(c as int - 'a' as int + 10)
    else if 'A' <= c <= 'F' then Some(c as int - 'A' as int + 10)
    else None
  }

  function HexPair(high: Octet, low: Octet): Option<Octet> {
    match (HexValue(high), HexValue(low))
    case (Some(h), Some(l)) => if h < 16 && l < 16 then Some((h * 16 + l) as char) else None
    case _ => None
  }

  /** Splits off the longest prefix that could be an attribute description. */
  function ParseName(text: Octets): (result: (Octets, Octets))
    ensures text == result.0 + result.1
  {
    if text != [] && IsNameOctet(text[0]) then
      var (name, rest) := ParseName(text[1..]);
      ([text[0]] + name, rest)
    else ([], text)
  }

  function Prefixed(c: Octet, parsed: Option<(seq<Octets>, Octets)>): Option<(seq<Octets>, Octets)> {
    match parsed
    case Some((parts, rest)) => if parts == [] then None else Some(([[c] + parts[0]] + parts[1..], rest))
    case None => None
  }

  /** The unescaped parts of a value between its asterisks, up to the closing parenthesis. */
  function ParseParts(text: Octets): (result: Option<(seq<Octets>, Octets)>)
    ensures result.Some? ==> result.value.0 != [] && |result.value.1| <= |text|
    decreases |text|
  {
    if text == [] then None
    else if text[0] == ')' then Some(([[]], text))
    else if text[0] == '*' then
      match ParseParts(text[1..])
      case Some((parts, rest)) => Some(([[]] + parts, rest))
      case None => None
    else if text[0] == '\\' then
      if |text| < 3 then None else
        match HexPair(text[1], text[2])
        case Some(c) => Prefixed(c, ParseParts(text[3..]))
        case None => None
    else if IsNormal(text[0]) then Prefixed(text[0], ParseParts(text[1..]))
    else None
  }

  function ItemOf(name: Octets, parts: seq<Octets>): Filter
    requires parts != []
  {
    if |parts| == 1 then Equal(name, parts[0])
    else if parts == [[], []] then Present(name)
    else Substrings(name, parts)
  }

  function ParseItem(text: Octets): (result: Option<(Filter, Octets)>)
    ensures result.Some? ==> |result.value.1| <= |text|
  {
    var (name, rest) := ParseName(text);
    if name == [] || rest == [] || rest[0] != '=' then None else
      match ParseParts(rest[1..])
      case Some((parts, rest)) => Some((ItemOf(name, parts), rest))
      case None => None
  }

  function Closed(result: Option<(Filter, Octets)>): (closed: Option<(Filter, Octets)>)
    ensures closed.Some? ==> result.Some? && |closed.value.1| < |result.value.1|
  {
    match result
    case Some((filter, rest)) => if rest != [] && rest[0] == ')' then Some((filter, rest[1..])) else None
    case None => None
  }

  /** One parenthesised filter at the start of the text, and what follows it. */
  function ParseFilter(text: Octets): (result: Option<(Filter, Octets)>)
    ensures result.Some? ==> |result.value.1| < |text|
    decreases |text|, 0
  {
    if |text| < 2 || text[0] != '(' then None
    else if text[1] == '&' || text[1] == '|' then
      match ParseFilters(text[2..])
      case Some((filters, rest)) => Closed(Some((if text[1] == '&' then And(filters) else Or(filters), rest)))
      case None => None
    else if text[1] == '!' then
      match ParseFilter(text[2..])
      case Some((filter, rest)) => Closed(Some((Not(filter), rest)))
      case None => None
    else Closed(ParseItem(text[1..]))
  }

  /** One filter or more. */
  function ParseFilters(text: Octets): (result: Option<(seq<Filter>, Octets)>)
    ensures result.Some? ==> |result.value.1| < |text|
    decreases |text|, 1
  {
    match ParseFilter(text)
    case None => None
    case Some((filter, rest)) =>
      if rest == [] || rest[0] != '(' then Some(([filter], rest)) else
        match ParseFilters(rest)
        case Some((filters, rest)) => Some(([filter] + filters, rest))
        case None => None
  }

  function Parse(text: Octets): Option<Filter> {
    match ParseFilter(text)
    case Some((filter, rest)) => if rest == [] then Some(filter) else None
    case None => None
  }

  // ---------------------------------------------------------------------------------------------
  // Escaping, pass by pass and octet by octet
  // ---------------------------------------------------------------------------------------------

  predicate IsSpecial(c: Octet) {
    !IsNormal(c) || c == ' ' || c as int > 0x7F
  }

  /** What all the passes together make of a single octet. */
  function EncodeOctet(c: Octet): Octets {
    if IsSpecial(c) then ['\\'] + Hex(c) else [c]
  }

  function EncodeOctets(text: Octets): Octets {
    if text == [] then [] else EncodeOctet(text[0]) + EncodeOctets(text[1..])
  }

  lemma {:induction false} ReplaceConcatenation(a: Octets, b: Octets, what: Octet, with: Octets)
    ensures Replace(a + b, what, with) == Replace(a, what, with) + Replace(b, what, with)
  {
    if a == [] {
      assert a + b == b;
    } else {
      assert (a + b)[1..] == a[1..] + b;
      ReplaceConcatenation(a[1..], b, what, with);
    }
  }

  lemma {:induction false} EscapeHighConcatenation(a: Octets, b: Octets)
    ensures EscapeHigh(a + b) == EscapeHigh(a) + EscapeHigh(b)
  {
    if a == [] {
      assert a + b == b;
    } else {
      assert (a + b)[1..] == a[1..] + b;
      EscapeHighConcatenation(a[1..], b);
    }
  }

  lemma EncodeConcatenation(a: Octets, b: Octets)
    ensures EncodeValue(a + b) == EncodeValue(a) + EncodeValue(b)
  {
    hide Replace, EscapeHigh;
    ReplaceConcatenation(a, b, '\\', "\\5c");
    var a1, b1 := Replace(a, '\\', "\\5c"), Replace(b, '\\', "\\5c");
    ReplaceConcatenation(a1, b1, '*', "\\2a");
    var a2, b2 := Replace(a1, '*', "\\2a"), Replace(b1, '*', "\\2a");
    ReplaceConcatenation(a2, b2, '(', "\\28");
    var a3, b3 := Replace(a2, '(', "\\28"), Replace(b2, '(', "\\28");
    ReplaceConcatenation(a3, b3, ')', "\\29");
    var a4, b4 := Replace(a3, ')', "\\29"), Replace(b3, ')', "\\29");
    ReplaceConcatenation(a4, b4, '\0', "\\00");
    var a5, b5 := Replace(a4, '\0', "\\00"), Replace(b4, '\0', "\\00");
    EscapeHighConcatenation(a5, b5);
    ReplaceConcatenation(EscapeHigh(a5), EscapeHigh(b5), ' ', "\\20");
  }

  lemma ReplaceOne(c: Octet, what: Octet, with: Octets)
    ensures Replace([c], what, with) == if c == what then with else [c]
  {
    assert Replace([], what, with) == [];
  }

  /** A text of three octets without the character searched for stays as it is. */
  lemma ReplaceInEscape(text: Octets, what: Octet, with: Octets)
    requires |text| == 3 && what !in text
    ensures Replace(text, what, with) == text
  {
    hide Replace;
    assert text == [text[0]] + ([text[1]] + [text[2]]);
    ReplaceConcatenation([text[0]], [text[1]] + [text[2]], what, with);
    ReplaceConcatenation([text[1]], [text[2]], what, with);
    ReplaceOne(text[0], what, with);
    ReplaceOne(text[1], what, with);
    ReplaceOne(text[2], what, with);
  }

  lemma EscapeHighOne(c: Octet)
    ensures EscapeHigh([c]) == if c as int > 0x7F then ['\\'] + Hex(c) else [c]
  {
    assert EscapeHigh([]) == [];
  }

  lemma EscapeHighOfAscii(text: Octets)
    requires |text| == 3 && forall i | 0 <= i < 3 :: text[i] as int <= 0x7F
    ensures EscapeHigh(text) == text
  {
    hide EscapeHigh;
    assert text == [text[0]] + ([text[1]] + [text[2]]);
    EscapeHighConcatenation([text[0]], [text[1]] + [text[2]]);
    EscapeHighConcatenation([text[1]], [text[2]]);
    EscapeHighOne(text[0]);
    EscapeHighOne(text[1]);
    EscapeHighOne(text[2]);
  }

  lemma HexIsPlain(c: Octet)
    ensures forall d <- Hex(c) :: IsNameOctet(d) && d as int <= 0x7F && HexValue(d).Some?
    ensures HexPair(Hex(c)[0], Hex(c)[1]) == Some(c)
  {
    HexDigit(c as int / 16);
    HexDigit(c as int % 16);
  }

  lemma HexDigit(n: nat)
    requires n < 16
    ensures IsNameOctet(HEX_DIGITS[n]) && HEX_DIGITS[n] as int <= 0x7F && HexValue(HEX_DIGITS[n]) == Some(n)
  {
    if n < 10 {
      assert HEX_DIGITS[n] == (n + '0' as int) as char;
    } else {
      assert HEX_DIGITS[n] == (n - 10 + 'a' as int) as char;
    }
  }

  /** The first five passes turn a single special octet into its escape and leave others alone. */
  lemma EscapeFilterCharsOne(c: Octet)
    ensures EscapeFilterChars([c]) == if !IsNormal(c) || c as int > 0x7F then ['\\'] + Hex(c) else [c]
  {
    hide Replace, EscapeHigh;
    ReplaceOne(c, '\\', "\\5c");
    ReplaceOne(c, '*', "\\2a");
    ReplaceOne(c, '(', "\\28");
    ReplaceOne(c, ')', "\\29");
    ReplaceOne(c, '\0', "\\00");
    EscapeHighOne(c);
    if c == '\\' {
      EscapePasses("\\5c");
    } else if c == '*' {
      EscapePasses("\\2a");
    } else if c == '(' {
      EscapePasses("\\28");
    } else if c == ')' {
      EscapePasses("\\29");
    } else if c == '\0' {
      EscapePasses("\\00");
    }
  }

  lemma EscapePasses(text: Octets)
    requires |text| == 3 && text[0] == '\\' && IsNameOctet(text[1]) && IsNameOctet(text[2])
    ensures Replace(text, '*', "\\2a") == text
    ensures Replace(text, '(', "\\28") == text
    ensures Replace(text, ')', "\\29") == text
    ensures Replace(text, '\0', "\\00") == text
    ensures EscapeHigh(text) == text
  {
    hide Replace, EscapeHigh;
    ReplaceInEscape(text, '*', "\\2a");
    ReplaceInEscape(text, '(', "\\28");
    ReplaceInEscape(text, ')', "\\29");
    ReplaceInEscape(text, '\0', "\\00");
    EscapeHighOfAscii(text);
  }

  lemma EncodeOne(c: Octet)
    ensures EncodeValue([c]) == EncodeOctet(c)
  {
    hide EscapeFilterChars, Replace;
    EscapeFilterCharsOne(c);
    ReplaceOne(c, ' ', "\\20");
    if !IsNormal(c) || c as int > 0x7F {
      HexIsPlain(c);
      ReplaceInEscape(['\\'] + Hex(c), ' ', "\\20");
    }
  }

  /** The seven passes amount to escaping octet by octet: no pass touches what another wrote. */
  lemma {:induction false} EncodeIsOctetwise(text: Octets)
    ensures EncodeValue(text) == EncodeOctets(text)
  {
    if text != [] {
      hide EncodeValue;
      assert text == [text[0]] + text[1..];
      EncodeConcatenation([text[0]], text[1..]);
      EncodeOne(text[0]);
      EncodeIsOctetwise(text[1..]);
    }
  }

  // ---------------------------------------------------------------------------------------------
  // Printing and parsing filters
  // ---------------------------------------------------------------------------------------------

  /** The string form of a filter, with the values escaped as the printer above escapes them. */
  function Print(filter: Filter): Octets {
    match filter
    case And(filters) => "(&" + PrintAll(filters) + ")"
    case Or(filters) => "(|" + PrintAll(filters) + ")"
    case Not(f) => "(!" + Print(f) + ")"
    case Present(attribute) => "(" + attribute + "=*)"
    case Equal(attribute, value) => "(" + attribute + "=" + EncodeOctets(value) + ")"
    case Substrings(attribute, parts) => "(" + attribute + "=" + PrintParts(parts) + ")"
  }

  function PrintAll(filters: seq<Filter>): Octets {
    if filters == [] then [] else Print(filters[0]) + PrintAll(filters[1..])
  }

  function PrintParts(parts: seq<Octets>): Octets {
    if parts == [] then []
    else if |parts| == 1 then EncodeOctets(parts[0])
    else EncodeOctets(parts[0]) + "*" + PrintParts(parts[1..])
  }

  /** A filter that has a string form of its own. */
  predicate Printable(filter: Filter) {
    match filter
    case And(filters) => filters != [] && forall f <- filters :: Printable(f)
    case Or(filters) => filters != [] && forall f <- filters :: Printable(f)
    case Not(f) => Printable(f)
    case Present(attribute) => IsName(attribute)
    case Equal(attribute, _) => IsName(attribute)
    case Substrings(attribute, parts) => IsName(attribute) && |parts| >= 2 && parts != [[], []]
  }

  lemma {:induction false} ParseNameOf(name: Octets, rest: Octets)
    requires forall i | 0 <= i < |name| :: IsNameOctet(name[i])
    requires rest == [] || !IsNameOctet(rest[0])
    ensures ParseName(name + rest) == (name, rest)
  {
    if name == [] {
      assert name + rest == rest;
    } else {
      assert (name + rest)[0] == name[0] && (name + rest)[1..] == name[1..] + rest;
      ParseNameOf(name[1..], rest);
      assert [name[0]] + name[1..] == name;
    }
  }

  lemma ParseEncodedOctet(c: Octet, rest: Octets)
    ensures ParseParts(EncodeOctet(c) + rest) == Prefixed(c, ParseParts(rest))
  {
    var text := EncodeOctet(c) + rest;
    if IsSpecial(c) {
      HexIsPlain(c);
      assert text[0] == '\\' && text[1] == Hex(c)[0] && text[2] == Hex(c)[1] && text[3..] == rest;
    } else {
      assert text[0] == c && text[1..] == rest;
    }
  }

  /** Unescaping undoes escaping: the parser reads an encoded value back as part of what follows. */
  lemma {:induction false} ParseEncoded(value: Octets, rest: Octets)
    requires ParseParts(rest).Some?
    ensures ParseParts(EncodeOctets(value) + rest)
         == (var (parts, after) := ParseParts(rest).value; Some(([value + parts[0]] + parts[1..], after)))
  {
    hide ParseParts, EncodeOctet;
    var (parts, after) := ParseParts(rest).value;
    if value == [] {
      assert EncodeOctets(value) + rest == rest;
      assert value + parts[0] == parts[0];
      assert [value + parts[0]] + parts[1..] == parts;
    } else {
      ParseEncoded(value[1..], rest);
      assert EncodeOctets(value) + rest == EncodeOctet(value[0]) + (EncodeOctets(value[1..]) + rest);
      ParseEncodedOctet(value[0], EncodeOctets(value[1..]) + rest);
      assert [value[0]] + (value[1..] + parts[0]) == value + parts[0];
    }
  }

  lemma {:induction false} ParsePrintedParts(parts: seq<Octets>, rest: Octets)
    requires parts != [] && rest != [] && rest[0] == ')'
    ensures ParseParts(PrintParts(parts) + rest) == Some((parts, rest))
  {
    hide EncodeOctets, ParseParts;
    assert parts[0] + [] == parts[0];
    if |parts| == 1 {
      ParseClose(rest);
      ParseEncoded(parts[0], rest);
      assert [parts[0] + []] + [] == parts;
    } else {
      ParsePrintedParts(parts[1..], rest);
      var tail := "*" + (PrintParts(parts[1..]) + rest);
      ParseAsterisk(PrintParts(parts[1..]) + rest);
      ParseEncoded(parts[0], tail);
      assert PrintParts(parts) + rest == EncodeOctets(parts[0]) + tail;
      assert [parts[0] + []] + parts[1..] == parts;
    }
  }

  lemma ParseClose(rest: Octets)
    requires rest != [] && rest[0] == ')'
    ensures ParseParts(rest) == Some(([[]], rest))
  {
  }

  lemma ParseAsterisk(rest: Octets)
    requires ParseParts(rest).Some?
    ensures ParseParts("*" + rest) == Some(([[]] + ParseParts(rest).value.0, ParseParts(rest).value.1))
  {
    assert ("*" + rest)[0] == '*' && ("*" + rest)[1..] == rest;
  }

  /** Encoding a value loses nothing. */
  lemma EncodeIsInjective(a: Octets, b: Octets)
    requires EncodeValue(a) == EncodeValue(b)
    ensures a == b
  {
    EncodeIsOctetwise(a);
    EncodeIsOctetwise(b);
    ParsePrintedParts([a], ")");
    ParsePrintedParts([b], ")");
  }

  lemma PrintedStart(filter: Filter, rest: Octets)
    requires Printable(filter)
    ensures |Print(filter)| >= 3 && Print(filter)[0] == '(' && (Print(filter) + rest)[0] == '('
    ensures Print(filter)[1] == '&' <==> filter.And?
    ensures Print(filter)[1] == '|' <==> filter.Or?
    ensures Print(filter)[1] == '!' <==> filter.Not?
  {
    if filter.Present? || filter.Equal? || filter.Substrings? {
      assert IsNameOctet(filter.attribute[0]);
      assert Print(filter)[1] == filter.attribute[0];
    }
  }

  lemma ParsePrintedItem(name: Octets, parts: seq<Octets>, rest: Octets)
    requires IsName(name) && parts != []
    ensures ParseFilter("(" + name + "=" + PrintParts(parts) + ")" + rest) == Some((ItemOf(name, parts), rest))
  {
    hide PrintParts, ParseParts, ParseName, ItemOf;
    var tail := ")" + rest;
    var value := PrintParts(parts) + tail;
    var text := "(" + name + "=" + PrintParts(parts) + ")" + rest;
    assert text[0] == '(' && text[1] == name[0] && text[1..] == name + ("=" + value);
    assert IsNameOctet(name[0]);
    ParseNameOf(name, "=" + value);
    assert ("=" + value)[1..] == value;
    ParsePrintedParts(parts, tail);
    assert ParseItem(text[1..]) == Some((ItemOf(name, parts), tail));
    assert tail[1..] == rest;
  }

  /** Parsing inverts printing, for every filter that has a string form. */
  lemma {:induction false} ParsePrinted(filter: Filter, rest: Octets)
    requires Printable(filter)
    ensures ParseFilter(Print(filter) + rest) == Some((filter, rest))
    decreases filter, 0
  {
    match filter
    case Present(attribute) =>
      PrintPartsOfPresent();
      ParsePrintedItem(attribute, [[], []], rest);
      assert "(" + attribute + "=*)" == "(" + attribute + "=" + PrintParts([[], []]) + ")";
    case Equal(attribute, value) => ParsePrintedItem(attribute, [value], rest);
    case Substrings(attribute, parts) => ParsePrintedItem(attribute, parts, rest);
    case Not(f) =>
      hide ParseItem;
      var text := Print(filter) + rest;
      assert text[0] == '(' && text[1] == '!' && text[2..] == Print(f) + (")" + rest);
      ParsePrinted(f, ")" + rest);
      assert (")" + rest)[1..] == rest;
    case And(filters) => ParsePrintedJunction(filter, filters, rest);
    case Or(filters) => ParsePrintedJunction(filter, filters, rest);
  }

  lemma PrintPartsOfPresent()
    ensures PrintParts([[], []]) == "*"
  {
    assert PrintParts([[]]) == [];
    assert EncodeOctets([]) == [];
  }

  lemma {:induction false} ParsePrintedJunction(filter: Filter, filters: seq<Filter>, rest: Octets)
    requires Printable(filter) && (filter == And(filters) || filter == Or(filters))
    ensures ParseFilter(Print(filter) + rest) == Some((filter, rest))
    decreases filters, 2
  {
    hide ParseItem, ParseFilters;
    var text := Print(filter) + rest;
    assert text[0] == '(' && text[2..] == PrintAll(filters) + (")" + rest);
    assert text[1] == if filter.And? then '&' else '|';
    ParsePrintedAll(filters, ")" + rest);
    assert (")" + rest)[1..] == rest;
  }

  lemma ParseFiltersStep(text: Octets, filter: Filter, more: Octets)
    requires ParseFilter(text) == Some((filter, more))
    ensures more == [] || more[0] != '(' ==> ParseFilters(text) == Some(([filter], more))
    ensures more != [] && more[0] == '(' && ParseFilters(more).Some? ==>
              ParseFilters(text) == Some(([filter] + ParseFilters(more).value.0, ParseFilters(more).value.1))
  {
    hide ParseFilter;
  }

  lemma PrintAllFirst(filters: seq<Filter>, rest: Octets)
    requires filters != []
    ensures PrintAll(filters) + rest == Print(filters[0]) + (PrintAll(filters[1..]) + rest)
  {
  }

  lemma PrintAllOfNone()
    ensures PrintAll([]) == []
  {
  }

  lemma {:induction false} ParsePrintedAll(filters: seq<Filter>, rest: Octets)
    requires filters != [] && (forall f <- filters :: Printable(f)) && rest != [] && rest[0] == ')'
    ensures ParseFilters(PrintAll(filters) + rest) == Some((filters, rest))
    decreases filters, 1
  {
    hide ParseFilter, ParseFilters, Print, PrintAll, Printable;
    var more := PrintAll(filters[1..]) + rest;
    PrintAllFirst(filters, rest);
    ParsePrinted(filters[0], more);
    ParseFiltersStep(PrintAll(filters) + rest, filters[0], more);
    if |filters| == 1 {
      PrintAllOfNone();
      assert filters[1..] == [] && more == rest;
      assert [filters[0]] == filters;
    } else {
      ParsePrintedAll(filters[1..], rest);
      PrintAllFirst(filters[1..], rest);
      PrintedStart(filters[1], PrintAll(filters[1..][1..]) + rest);
      assert [filters[0]] + filters[1..] == filters;
    }
  }

  // ---------------------------------------------------------------------------------------------
  // What the constructed filter says
  // ---------------------------------------------------------------------------------------------

  function Equals(key: Octets, values: seq<Octets>): seq<Filter> {
    seq(|values|, i requires 0 <= i < |values| => Equal(key, values[i]))
  }

  function Conjunction(filters: seq<Filter>): Filter {
    if |filters| == 1 then filters[0] else And(filters)
  }

  function FilterOfPair(key: Octets, value: Value): Filter {
    match value
    case Scalar(v) => Equal(key, v)
    case List(vs) => if vs == [] then Not(Present(key)) else Conjunction(Equals(key, vs))
  }

  function FiltersOf(attributes: Attributes): seq<Filter> {
    seq(|attributes|, i requires 0 <= i < |attributes| => FilterOfPair(attributes[i].0, attributes[i].1))
  }

  lemma {:induction false} ConcatenatedIsPrintAll(texts: seq<Octets>, filters: seq<Filter>)
    requires |texts| == |filters|
    requires forall i | 0 <= i < |texts| :: texts[i] == Print(filters[i])
    ensures Concatenated(texts) == PrintAll(filters)
  {
    if texts != [] {
      ConcatenatedIsPrintAll(texts[1..], filters[1..]);
    }
  }

  lemma AndFiltersIsPrint(texts: seq<Octets>, filters: seq<Filter>)
    requires |texts| == |filters| && texts != []
    requires forall i | 0 <= i < |texts| :: texts[i] == Print(filters[i])
    ensures AndFilters(texts) == Print(Conjunction(filters))
  {
    ConcatenatedIsPrintAll(texts, filters);
  }

  lemma GeneratePairsIsPrint(key: Octets, value: Value)
    requires IsName(key)
    ensures GeneratePairs(key, value) == Print(FilterOfPair(key, value))
    ensures Printable(FilterOfPair(key, value))
  {
    hide EncodeValue;
    match value
    case Scalar(v) => EncodeIsOctetwise(v);
    case List(vs) =>
      if vs == [] {
        assert "(!(" + key + "=*))" == "(!" + Print(Present(key)) + ")";
      } else {
        var texts := seq(|vs|, i requires 0 <= i < |vs| => GeneratePair(key, vs[i]));
        var filters := Equals(key, vs);
        forall i | 0 <= i < |vs|
          ensures texts[i] == Print(filters[i]) && Printable(filters[i])
        {
          EncodeIsOctetwise(vs[i]);
        }
        AndFiltersIsPrint(texts, filters);
      }
  }

  /** What the assertion is to say of one attribute of the entry. */
  predicate Asserted(entry: Entry, key: Octets, value: Value) {
    match value
    case Scalar(v) => HasValue(entry, key, v)
    case List(vs) => if vs == [] then !HasAttribute(entry, key) else forall v <- vs :: HasValue(entry, key, v)
  }

  predicate AllAsserted(entry: Entry, attributes: Attributes) {
    if attributes == [] then HasAttribute(entry, "objectClass")
    else forall a <- attributes :: Asserted(entry, a.0, a.1)
  }

  lemma PairMeaning(entry: Entry, key: Octets, value: Value)
    ensures Evaluate(FilterOfPair(key, value), entry) <==> Asserted(entry, key, value)
  {
    if value.List? && value.values != [] {
      var filters := Equals(key, value.values);
      assert forall i | 0 <= i < |filters| :: Evaluate(filters[i], entry) <==> HasValue(entry, key, value.values[i]);
      assert forall v <- value.values :: exists i | 0 <= i < |filters| :: value.values[i] == v;
      ConjunctionMeaning(entry, filters);
    }
  }

  lemma ConjunctionMeaning(entry: Entry, filters: seq<Filter>)
    requires filters != []
    ensures Evaluate(Conjunction(filters), entry) <==> forall i | 0 <= i < |filters| :: Evaluate(filters[i], entry)
  {
  }

  /** The printed filter parses, by the grammar, to a filter that holds of an entry exactly when
      every scalar and every list item is a value of its attribute and every attribute with an
      empty list is absent; for no attributes at all, when the entry has an object class. */
  lemma AssertionRoundTrip(attributes: Attributes, entry: Entry)
    requires forall a <- attributes :: IsName(a.0)
    ensures var printed := ConstructAssertionControlFilter(attributes);
            && (printed == Err(DnInAssertion) <==> exists a <- attributes :: a.0 == "dn")
            && (printed.Ok? ==> Parse(printed.value).Some?)
            && (printed.Ok? ==> (Evaluate(Parse(printed.value).value, entry) <==> AllAsserted(entry, attributes)))
  {
    hide Evaluate, FilterOfPair, GeneratePairs, ParseFilter, Print;
    if forall a <- attributes :: a.0 != "dn" {
      if attributes == [] {
        ObjectClassFilter(entry);
      } else {
        var n := |attributes|;
        var texts := seq(n, i requires 0 <= i < n => GeneratePairs(attributes[i].0, attributes[i].1));
        var filters := FiltersOf(attributes);
        forall i | 0 <= i < |attributes|
          ensures texts[i] == Print(filters[i]) && Printable(filters[i])
          ensures Evaluate(filters[i], entry) <==> Asserted(entry, attributes[i].0, attributes[i].1)
        {
          assert attributes[i] in attributes;
          GeneratePairsIsPrint(attributes[i].0, attributes[i].1);
          PairMeaning(entry, attributes[i].0, attributes[i].1);
        }
        AndFiltersIsPrint(texts, filters);
        var printed := Print(Conjunction(filters));
        assert Printable(Conjunction(filters));
        ParsePrinted(Conjunction(filters), []);
        assert printed + [] == printed;
        ConjunctionMeaning(entry, filters);
        assert forall a <- attributes :: exists i | 0 <= i < |attributes| :: attributes[i] == a;
      }
    }
  }

  /** The text is a filter, and it is true of the entry exactly as stated. */
  ghost predicate Means(text: Octets, entry: Entry, holds: bool) {
    Parse(text).Some? && (Evaluate(Parse(text).value, entry) <==> holds)
  }

  lemma ObjectClassFilter(entry: Entry)
    ensures Means("(objectClass=*)", entry, HasAttribute(entry, "objectClass"))
  {
    hide ParseFilter;
    ParsePrinted(Present("objectClass"), []);
    assert "(objectClass=*)" + [] == "(objectClass=*)" == Print(Present("objectClass"));
  }
}
