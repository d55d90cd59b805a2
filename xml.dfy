/** XML helpers (`src/xml.rs`): the declaration header, character escaping,
  * an element builder with its serialisation, and the small tag parser.
  *
  * An element's attributes are an association list with distinct names, in
  * insertion order; `with_attribute` replaces the value of an existing name
  * in place. Serialisation writes them in that order. */
module Xml {
  import opened Common
  import opened Text

  // ---------------------------------------------------------------------
  // Header

  datatype XmlHeader = XmlHeader(version: string, encoding: string, standalone: Option<bool>)

  function DefaultHeader(): XmlHeader {
    XmlHeader("1.0", "UTF-8", None)
  }

  /** `XmlHeader::to_string`. */
  function HeaderToString(h: XmlHeader): (s: string)
    ensures StartsWith(s, "<?xml version=\"" + h.version + "\" encoding=\"" + h.encoding + "\"")
    ensures EndsWith(s, "?>")
  {
    var decl := "<?xml version=\"" + h.version + "\" encoding=\"" + h.encoding + "\"";
    var standalone := match h.standalone
                      case None => ""
                      case Some(b) => " standalone=\"" + (if b then "yes" else "no") + "\"";
    assert (decl + standalone + "?>")[..|decl|] == decl;
    decl + standalone + "?>"
  }

  /** `make_header`. */
  function MakeHeader(): string {
    HeaderToString(DefaultHeader())
  }

  /** `make_custom_header`. */
  function MakeCustomHeader(version: string, encoding: string, standalone: Option<bool>): string {
    HeaderToString(XmlHeader(version, encoding, standalone))
  }

  /** The default header is exactly the XML 1.0 / UTF-8 declaration. */
  lemma DefaultHeaderText()
    ensures MakeHeader() == "<?xml version=\"1.0\" encoding=\"UTF-8\"?>"
  {
  }

  /** A standalone flag adds `standalone="yes"` or `standalone="no"` just
    * before the closing `?>`; without one nothing is added. */
  lemma CustomHeaderText(version: string, encoding: string, standalone: Option<bool>)
    ensures var decl := "<?xml version=\"" + version + "\" encoding=\"" + encoding + "\"";
            MakeCustomHeader(version, encoding, standalone)
              == match standalone
                 case None => decl + "?>"
                 case Some(b) => decl + " standalone=\"" + (if b then "yes" else "no") + "\"" + "?>"
  {
  }

  // ---------------------------------------------------------------------
  // Escaping

  /** The replacement `escape_text` makes for one character. */
  function EscapeTextChar(c: char): string {
    match c
    case '<' => "&lt;"
    case '>' => "&gt;"
    case '&' => "&amp;"
    case '"' => "&quot;"
    case '\'' => "&apos;"
    case _ => [c]
  }

  /** The replacement `escape_attribute` makes for one character: the same,
    * plus numeric references for newline, carriage return and tab. */
  function EscapeAttributeChar(c: char): string {
    match c
    case '\n' => "&#10;"
    case '\r' => "&#13;"
    case '\t' => "&#9;"
    case _ => EscapeTextChar(c)
  }

  /** `escape_text`: every character replaced by `EscapeTextChar`. */
  function EscapeText(s: string): string {
    if s == [] then [] else EscapeTextChar(s[0]) + EscapeText(s[1..])
  }

  /** `escape_attribute`: every character replaced by `EscapeAttributeChar`. */
  function EscapeAttribute(s: string): string {
    if s == [] then [] else EscapeAttributeChar(s[0]) + EscapeAttribute(s[1..])
  }

  predicate IsMarkup(c: char) {
    c == '<' || c == '>' || c == '&' || c == '"' || c == '\''
  }

  /** Escaping works character by character. */
  lemma EscapeConcat(a: string, b: string)
    ensures EscapeText(a + b) == EscapeText(a) + EscapeText(b)
    ensures EscapeAttribute(a + b) == EscapeAttribute(a) + EscapeAttribute(b)
  {
    EscapeTextConcat(a, b);
    EscapeAttributeConcat(a, b);
  }

  lemma {:induction false} EscapeTextConcat(a: string, b: string)
    ensures EscapeText(a + b) == EscapeText(a) + EscapeText(b)
  {
    if a != [] {
      assert (a + b)[0] == a[0] && (a + b)[1..] == a[1..] + b;
      EscapeTextConcat(a[1..], b);
    } else {
      assert a + b == b;
    }
  }

  lemma {:induction false} EscapeAttributeConcat(a: string, b: string)
    ensures EscapeAttribute(a + b) == EscapeAttribute(a) + EscapeAttribute(b)
  {
    if a != [] {
      assert (a + b)[0] == a[0] && (a + b)[1..] == a[1..] + b;
      EscapeAttributeConcat(a[1..], b);
    } else {
      assert a + b == b;
    }
  }

  /** Text without markup characters is left unchanged; attribute text also
    * needs to be free of newline, carriage return and tab. */
  lemma {:induction false} EscapeIdentity(s: string)
    ensures (forall i :: 0 <= i < |s| ==> !IsMarkup(s[i])) ==> EscapeText(s) == s
    ensures (forall i :: 0 <= i < |s| ==> !IsMarkup(s[i]) && s[i] != '\n' && s[i] != '\r' && s[i] != '\t')
            ==> EscapeAttribute(s) == s
  {
    if s != [] {
      EscapeIdentity(s[1..]);
      assert s == [s[0]] + s[1..];
    }
  }

  /** No raw `<`, `>`, `"` or `'`. */
  predicate FreeOfMarkup(t: string) {
    '<' !in t && '>' !in t && '"' !in t && '\'' !in t
  }

  /** Escaping one character yields no raw markup character. */
  lemma EscapedCharHasNoMarkup(c: char)
    ensures FreeOfMarkup(EscapeTextChar(c)) && FreeOfMarkup(EscapeAttributeChar(c))
    ensures var t := EscapeAttributeChar(c); '\n' !in t && '\r' !in t && '\t' !in t
  {
    EscapedTextCharHasNoMarkup(c);
    if c != '\n' && c != '\r' && c != '\t' {
      assert EscapeAttributeChar(c) == EscapeTextChar(c);
    }
  }

  /** `EscapeTextChar` leaves no markup character, and no control character
    * it was not given. */
  lemma EscapedTextCharHasNoMarkup(c: char)
    ensures FreeOfMarkup(EscapeTextChar(c))
    ensures c != '\n' && c != '\r' && c != '\t' ==>
              '\n' !in EscapeTextChar(c) && '\r' !in EscapeTextChar(c) && '\t' !in EscapeTextChar(c)
  {
    if c != '<' && c != '>' && c != '&' && c != '"' && c != '\'' {
      assert EscapeTextChar(c) == [c];
    }
  }

  /** The output of `escape_text` contains no raw `<`, `>`, `"` or `'`. */
  lemma {:induction false} EscapedTextHasNoMarkup(s: string)
    ensures FreeOfMarkup(EscapeText(s))
  {
    if s != [] {
      EscapedTextHasNoMarkup(s[1..]);
      EscapedCharHasNoMarkup(s[0]);
    }
  }

  /** The output of `escape_attribute` contains no raw `<`, `>`, `"` or `'`,
    * and no raw newline, carriage return or tab. */
  lemma {:induction false} EscapedAttributeHasNoMarkup(s: string)
    ensures FreeOfMarkup(EscapeAttribute(s))
    ensures var t := EscapeAttribute(s); '\n' !in t && '\r' !in t && '\t' !in t
  {
    if s != [] {
      EscapedAttributeHasNoMarkup(s[1..]);
      EscapedCharHasNoMarkup(s[0]);
    }
  }

  /** Decoding of the entities the escape functions produce: the reference
    * definition against which both are checked. */
  function Unescape(s: string): string
    decreases |s|
  {
    if s == [] then []
    else if s[0] != '&' then [s[0]] + Unescape(s[1..])
    else if StartsWith(s, "&lt;") then "<" + Unescape(s[4..])
    else if StartsWith(s, "&gt;") then ">" + Unescape(s[4..])
    else if StartsWith(s, "&amp;") then "&" + Unescape(s[5..])
    else if StartsWith(s, "&quot;") then "\"" + Unescape(s[6..])
    else if StartsWith(s, "&apos;") then "'" + Unescape(s[6..])
    else if StartsWith(s, "&#10;") then "\n" + Unescape(s[5..])
    else if StartsWith(s, "&#13;") then "\r" + Unescape(s[5..])
    else if StartsWith(s, "&#9;") then "\t" + Unescape(s[4..])
    else "&" + Unescape(s[1..])
  }

  lemma UnescapePlain(c: char, rest: string)
    requires c != '&'
    ensures Unescape([c] + rest) == [c] + Unescape(rest)
  {
    var t := [c] + rest;
    assert t[0] == c && t[1..] == rest;
  }

  /** An entity the escape functions emit decodes to its character; the
    * distinguishing characters let the earlier entity tests fail. */
  lemma UnescapeEntity(entity: string, c: char, rest: string)
    requires (entity, c) in {("&lt;", '<'), ("&gt;", '>'), ("&amp;", '&'), ("&quot;", '"'), ("&apos;", '\''),
                             ("&#10;", '\n'), ("&#13;", '\r'), ("&#9;", '\t')}
    ensures Unescape(entity + rest) == [c] + Unescape(rest)
  {
    var t := entity + rest;
    assert t[..|entity|] == entity && t[|entity|..] == rest;
    assert t[0] == '&' && t[1] == entity[1] && t[2] == entity[2] && t[3] == entity[3];
    assert !StartsWith(t, "&lt;") || entity == "&lt;";
    assert !StartsWith(t, "&gt;") || entity == "&gt;";
    assert !StartsWith(t, "&amp;") || entity == "&amp;";
    assert !StartsWith(t, "&quot;") || entity == "&quot;";
    assert !StartsWith(t, "&apos;") || entity == "&apos;";
    assert !StartsWith(t, "&#10;") || entity == "&#10;";
    assert !StartsWith(t, "&#13;") || entity == "&#13;";
  }

  lemma UnescapeAfterTextChar(c: char, rest: string)
    ensures Unescape(EscapeTextChar(c) + rest) == [c] + Unescape(rest)
  {
    match c
    case '<' => UnescapeEntity("&lt;", c, rest);
    case '>' => UnescapeEntity("&gt;", c, rest);
    case '&' => UnescapeEntity("&amp;", c, rest);
    case '"' => UnescapeEntity("&quot;", c, rest);
    case '\'' => UnescapeEntity("&apos;", c, rest);
    case _ => UnescapePlain(c, rest);
  }

  lemma UnescapeAfterAttributeChar(c: char, rest: string)
    ensures Unescape(EscapeAttributeChar(c) + rest) == [c] + Unescape(rest)
  {
    match c
    case '\n' => UnescapeEntity("&#10;", c, rest);
    case '\r' => UnescapeEntity("&#13;", c, rest);
    case '\t' => UnescapeEntity("&#9;", c, rest);
    case _ => UnescapeAfterTextChar(c, rest);
  }

  /** Unescaping the escaped text gives the text back. */
  lemma {:induction false} UnescapeEscapeText(s: string)
    ensures Unescape(EscapeText(s)) == s
  {
    if s != [] {
      UnescapeEscapeText(s[1..]);
      UnescapeAfterTextChar(s[0], EscapeText(s[1..]));
      assert s == [s[0]] + s[1..];
    }
  }

  /** Unescaping the escaped attribute value gives the value back. */
  lemma {:induction false} UnescapeEscapeAttribute(s: string)
    ensures Unescape(EscapeAttribute(s)) == s
  {
    if s != [] {
      UnescapeEscapeAttribute(s[1..]);
      UnescapeAfterAttributeChar(s[0], EscapeAttribute(s[1..]));
      assert s == [s[0]] + s[1..];
    }
  }

  // ---------------------------------------------------------------------
  // Elements

  datatype XmlElement = XmlElement(
    name: string,
    attributes: seq<(string, string)>,
    content: Option<string>,
    children: seq<XmlElement>,
    selfClosing: bool)
  {
    /** `XmlElement::with_attribute`: a new name is added at the end, an
      * existing name takes the new value in place. */
    function WithAttribute(key: string, value: string): (e: XmlElement)
      ensures e.name == name && e.content == content && e.children == children
      ensures e.selfClosing == selfClosing
      ensures AttributeMap(e.attributes) == AttributeMap(attributes)[key := value]
      ensures DistinctNames(attributes) ==> DistinctNames(e.attributes)
    {
      InsertAttributeMap(attributes, key, value);
      InsertAttributeNames(attributes, key, value);
      this.(attributes := InsertAttribute(attributes, key, value))
    }

    /** `XmlElement::with_content`. */
    function WithContent(text: string): (e: XmlElement)
      ensures e == this.(content := Some(text))
    {
      this.(content := Some(text))
    }

    /** `XmlElement::with_child`: the child goes after the existing ones. */
    function WithChild(child: XmlElement): (e: XmlElement)
      ensures e.children == children + [child]
      ensures e.(children := children) == this
    {
      this.(children := children + [child])
    }

    /** `XmlElement::self_closing`. */
    function SelfClosing(): (e: XmlElement)
      ensures e == this.(selfClosing := true)
    {
      this.(selfClosing := true)
    }
  }

  /** `XmlElement::new(name)`: no attributes, content or children. */
  function NewElement(name: string): XmlElement {
    XmlElement(name, [], None, [], false)
  }

  function NameSet(attrs: seq<(string, string)>): set<string> {
    if attrs == [] then {} else {attrs[0].0} + NameSet(attrs[1..])
  }

  /** No attribute name occurs twice. */
  predicate DistinctNames(attrs: seq<(string, string)>) {
    attrs == [] || (attrs[0].0 !in NameSet(attrs[1..]) && DistinctNames(attrs[1..]))
  }

  /** The attribute table as a map: the first entry for a name decides its
    * value (names are distinct in every table `with_attribute` builds). */
  function AttributeMap(attrs: seq<(string, string)>): map<string, string> {
    if attrs == [] then map[] else AttributeMap(attrs[1..])[attrs[0].0 := attrs[0].1]
  }

  /** `HashMap::insert` on the attribute table: an existing name is
    * overwritten in place, a new one goes at the end. */
  function InsertAttribute(attrs: seq<(string, string)>, key: string, value: string): (r: seq<(string, string)>)
    ensures key !in NameSet(attrs) ==> r == attrs + [(key, value)]
    ensures key in NameSet(attrs) ==> |r| == |attrs|
  {
    if attrs == [] then [(key, value)]
    else if attrs[0].0 == key then [(key, value)] + attrs[1..]
    else
      assert attrs == [attrs[0]] + attrs[1..];
      [attrs[0]] + InsertAttribute(attrs[1..], key, value)
  }

  /** After an insertion the name maps to the new value and every other
    * name keeps its value. */
  lemma {:induction false} InsertAttributeMap(attrs: seq<(string, string)>, key: string, value: string)
    ensures AttributeMap(InsertAttribute(attrs, key, value)) == AttributeMap(attrs)[key := value]
  {
    if attrs != [] && attrs[0].0 != key {
      var r := InsertAttribute(attrs, key, value);
      assert r[0] == attrs[0] && r[1..] == InsertAttribute(attrs[1..], key, value);
      InsertAttributeMap(attrs[1..], key, value);
    } else if attrs != [] {
      var r := InsertAttribute(attrs, key, value);
      assert r[0] == (key, value) && r[1..] == attrs[1..];
    }
  }

  /** Insertion adds exactly the inserted name and keeps names distinct. */
  lemma {:induction false} InsertAttributeNames(attrs: seq<(string, string)>, key: string, value: string)
    ensures NameSet(InsertAttribute(attrs, key, value)) == NameSet(attrs) + {key}
    ensures DistinctNames(attrs) ==> DistinctNames(InsertAttribute(attrs, key, value))
  {
    if attrs != [] && attrs[0].0 != key {
      var r := InsertAttribute(attrs, key, value);
      assert r[0] == attrs[0] && r[1..] == InsertAttribute(attrs[1..], key, value);
      InsertAttributeNames(attrs[1..], key, value);
    } else if attrs != [] {
      var r := InsertAttribute(attrs, key, value);
      assert r[0] == (key, value) && r[1..] == attrs[1..];
    }
  }

  // ---------------------------------------------------------------------
  // Serialisation

  function RenderAttribute(attr: (string, string)): string {
    " " + attr.0 + "=\"" + EscapeAttribute(attr.1) + "\""
  }

  function RenderAttributes(attrs: seq<(string, string)>): string {
    if attrs == [] then [] else RenderAttribute(attrs[0]) + RenderAttributes(attrs[1..])
  }

  /** `XmlElement::to_string` as a function: `<name attrs/>` for a
    * self-closing element, otherwise `<name attrs>` + escaped content +
    * children in order + `</name>`. */
  function Render(e: XmlElement): string
    decreases e, 1
  {
    var open := "<" + e.name + RenderAttributes(e.attributes);
    if e.selfClosing then open + "/>"
    else
      var text := match e.content case None => "" case Some(c) => EscapeText(c);
      open + ">" + text + RenderChildren(e.children) + "</" + e.name + ">"
  }

  function RenderChildren(children: seq<XmlElement>): string
    decreases children, 0
  {
    if children == [] then [] else Render(children[0]) + RenderChildren(children[1..])
  }

  lemma {:induction false} RenderAttributesSnoc(attrs: seq<(string, string)>, i: nat)
    requires i < |attrs|
    ensures RenderAttributes(attrs[..i + 1]) == RenderAttributes(attrs[..i]) + RenderAttribute(attrs[i])
  {
    if i > 0 {
      RenderAttributesSnoc(attrs[1..], i - 1);
      assert attrs[1..][..i] == attrs[..i + 1][1..];
      assert attrs[1..][..i - 1] == attrs[..i][1..];
    }
  }

  lemma {:induction false} RenderChildrenSnoc(children: seq<XmlElement>, i: nat)
    requires i < |children|
    ensures RenderChildren(children[..i + 1]) == RenderChildren(children[..i]) + Render(children[i])
  {
    if i > 0 {
      RenderChildrenSnoc(children[1..], i - 1);
      assert children[1..][..i] == children[..i + 1][1..];
      assert children[1..][..i - 1] == children[..i][1..];
    }
  }

  /** `XmlElement::to_string`, pushing onto a growing string. */
  method ToString(e: XmlElement) returns (result: string)
    ensures result == Render(e)
    decreases e, 1
  {
    result := "<" + e.name;
    result := PushAttributes(result, e.attributes);
    if e.selfClosing {
      result := result + "/>";
      return;
    }
    result := result + ">";
    if e.content.Some? {
      result := result + EscapeText(e.content.value);
    }
    result := PushChildren(result, e.children);
    result := result + "</" + e.name + ">";
  }

  /** The attribute loop of `to_string`. */
  method PushAttributes(start: string, attrs: seq<(string, string)>) returns (result: string)
    ensures result == start + RenderAttributes(attrs)
  {
    result := start;
    for i := 0 to |attrs|
      invariant result == start + RenderAttributes(attrs[..i])
    {
      RenderAttributesSnoc(attrs, i);
      var (key, value) := attrs[i];
      var piece := " " + key + "=\"" + EscapeAttribute(value) + "\"";
      result := result + piece;
    }
    assert attrs[..|attrs|] == attrs;
  }

  /** The children loop of `to_string`. */
  method PushChildren(start: string, children: seq<XmlElement>) returns (result: string)
    ensures result == start + RenderChildren(children)
    decreases children, 0
  {
    result := start;
    for i := 0 to |children|
      invariant result == start + RenderChildren(children[..i])
    {
      var child := ToString(children[i]);
      PushChildStep(start, children, i, result, child);
      result := result + child;
    }
    assert children[..|children|] == children;
  }

  lemma PushChildStep(start: string, children: seq<XmlElement>, i: nat, result: string, child: string)
    requires i < |children| && result == start + RenderChildren(children[..i])
    requires child == Render(children[i])
    ensures result + child == start + RenderChildren(children[..i + 1])
  {
    RenderChildrenSnoc(children, i);
    AppendAssoc(start, RenderChildren(children[..i]), child);
  }

  /** A self-closing element serialises as `<name attrs/>`, whatever its
    * content and children. */
  lemma RenderSelfClosing(e: XmlElement)
    requires e.selfClosing
    ensures Render(e) == "<" + e.name + RenderAttributes(e.attributes) + "/>"
    ensures Render(e) == Render(e.(content := None, children := []))
  {
  }

  /** Each attribute appears in the output as ` name="escaped value"`. */
  lemma {:induction false} RenderedAttributeAppears(attrs: seq<(string, string)>, i: nat)
    requires i < |attrs|
    ensures Contains(RenderAttributes(attrs), RenderAttribute(attrs[i]))
  {
    var first, rest := RenderAttribute(attrs[0]), RenderAttributes(attrs[1..]);
    if i == 0 {
      ContainsFront(RenderAttributes(attrs), first, rest);
    } else {
      RenderedAttributeAppears(attrs[1..], i - 1);
      assert attrs[1..][i - 1] == attrs[i];
      ContainsAfter(RenderAttributes(attrs), first, rest, RenderAttribute(attrs[i]));
    }
  }

  // ---------------------------------------------------------------------
  // Parsing

  /** What `parse_simple_element` does with an input as written: returns an
    * element, returns an error, or panics on a string slice whose bounds
    * are out of order or not on a character boundary. */
  datatype ParseOutcome = Parsed(element: XmlElement) | Rejected(message: string) | Panicked

  const NO_CLOSING: string := "Invalid XML: no closing >"
  const NO_NAME: string := "Invalid XML: no element name"
  /** The error the corrected parser returns where the original panics. */
  const MALFORMED: string := "Invalid XML: malformed tag"

  /** Byte offset 1 is a character boundary exactly when the first
    * character is encoded in one UTF-8 byte. */
  predicate OneByte(c: char) {
    c as int < 0x80
  }

  /** One whitespace-separated part of a tag: split at the first `=` into a
    * name and a value, the value stripped of surrounding `"` and then `'`;
    * a part without `=` is ignored. */
  function ApplyPart(e: XmlElement, part: string): XmlElement {
    match FindChar(part, '=')
    case None => e
    case Some(eq) => e.WithAttribute(part[..eq], TrimMatches(TrimMatches(part[eq + 1..], '"'), '\''))
  }

  /** The attribute loop: the parts applied from first to last. */
  function AddAttributes(e: XmlElement, parts: seq<string>): XmlElement {
    if parts == [] then e else ApplyPart(AddAttributes(e, parts[..|parts| - 1]), parts[|parts| - 1])
  }

  /** `parse_self_closing_tag` as written: `tag[1..len - 2]` panics for the
    * two-character tag `/>` and when the first character is not ASCII. */
  function ParseSelfClosingAsWritten(tag: string): ParseOutcome {
    if |tag| < 3 || !OneByte(tag[0]) then Panicked
    else
      var parts := SplitWhitespace(tag[1..|tag| - 2]);
      if parts == [] then Rejected(NO_NAME)
      else Parsed(AddAttributes(NewElement(parts[0]).SelfClosing(), parts[1..]))
  }

  /** `parse_simple_element` as written. Besides the self-closing case it
    * panics when the first `>` is the first character, when the first
    * character is not ASCII, and when the last `</name>` starts before
    * the end of the opening tag (as in `<a </a>`). */
  function ParseAsWritten(xml: string): ParseOutcome {
    var trimmed := Trim(xml);
    if EndsWith(trimmed, "/>") then ParseSelfClosingAsWritten(trimmed)
    else match FindChar(trimmed, '>')
      case None => Rejected(NO_CLOSING)
      case Some(end) => ParseOpenTag(trimmed, end)
  }

  /** The opening tag `trimmed[..end + 1]`: its name and attributes. */
  function ParseOpenTag(trimmed: string, end: nat): ParseOutcome
    requires end < |trimmed|
  {
    if end < 1 || !OneByte(trimmed[0]) then Panicked
    else
      var parts := SplitWhitespace(trimmed[1..end]);
      if parts == [] then Rejected(NO_NAME)
      else ParseContent(trimmed, end, parts[0], AddAttributes(NewElement(parts[0]), parts[1..]))
  }

  /** The text between the opening tag and the last `</name>`, trimmed;
    * none when there is no such closing tag or the text is blank. */
  function ParseContent(trimmed: string, end: nat, name: string, element: XmlElement): ParseOutcome
    requires end < |trimmed|
  {
    match RFind(trimmed, "</" + name + ">")
    case None => Parsed(element)
    case Some(closing) =>
      if closing < end + 1 then Panicked
      else
        var content := Trim(trimmed[end + 1..closing]);
        if content == [] then Parsed(element) else Parsed(element.WithContent(content))
  }

  /** The error-returning reading of an outcome: a panic becomes the
    * malformed-tag error. */
  function ToResult(o: ParseOutcome): (r: Result<XmlElement>)
    ensures r.Success? <==> o.Parsed?
    ensures o.Parsed? ==> r.value == o.element
    ensures o.Rejected? ==> r == Failure(o.message)
    ensures o.Panicked? ==> r == Failure(MALFORMED)
  {
    match o
    case Parsed(e) => Success(e)
    case Rejected(m) => Failure(m)
    case Panicked => Failure(MALFORMED)
  }

  /** `parse_simple_element`, corrected: it returns what the original
    * returns, except that where the original panics it reports a malformed
    * tag. */
  function Parse(xml: string): Result<XmlElement> {
    ToResult(ParseAsWritten(xml))
  }

  /** The opening tag of `<a </a>` ends at its last character. */
  lemma OverlapOpening(t: string)
    requires t == "<a </a>"
    ensures Trim(t) == t && !EndsWith(t, "/>")
    ensures FindChar(t, '>') == Some(6)
  {
    TrimNoop(t);
    assert t[5] == 'a';
    FindCharAfter("<a </a", '>', []);
    assert "<a </a" + ['>'] + [] == t;
  }

  /** The opening tag of `<a </a>` has the parts `a` and `</a`. */
  lemma OverlapParts(t: string)
    requires t == "<a </a>"
    ensures SplitWhitespace(t[1..6]) == ["a", "</a"]
  {
    assert t[1..6] == "a" + [' '] + "</a";
    SplitWhitespaceWord("a", ' ', "</a");
    SplitWhitespaceSingle("</a");
  }

  /** The last `</a>` of `<a </a>` starts at position 3. */
  lemma OverlapClosing(t: string)
    requires t == "<a </a>"
    ensures RFind(t, "</" + "a" + ">") == Some(3)
  {
    RFindAtEnd("<a ", "</a>");
    assert "<a " + "</a>" == t;
  }

  /** `<a </a>`: the last `</a>` starts inside the opening tag, so the
    * content slice has its start after its end. */
  lemma ParseAsWrittenPanicsOnOverlap()
    ensures ParseAsWritten("<a </a>") == Panicked
    ensures Parse("<a </a>") == Failure(MALFORMED)
  {
    OverlapOpening("<a </a>");
    OverlapParts("<a </a>");
    OverlapClosing("<a </a>");
  }

  /** `>` alone: the opening-tag slice `[1..0]` has its bounds reversed. */
  lemma ParseAsWrittenPanicsOnBareClose()
    ensures ParseAsWritten(">") == Panicked
    ensures Parse(">") == Failure(MALFORMED)
  {
    TrimNoop(">");
    FindCharAfter([], '>', []);
    assert [] + ['>'] + [] == ">";
  }

  /** `/>` alone: the self-closing slice `[1..0]` has its bounds reversed. */
  lemma ParseAsWrittenPanicsOnBareSelfClose()
    ensures ParseAsWritten("/>") == Panicked
    ensures Parse("/>") == Failure(MALFORMED)
  {
    TrimNoop("/>");
  }

  /** An input without `>` anywhere is rejected. */
  lemma ParseNoClosing(xml: string)
    requires '>' !in xml
    ensures Parse(xml) == Failure(NO_CLOSING)
    ensures ParseAsWritten(xml) == Rejected(NO_CLOSING)
  {
    var i, j := TrimSlice(xml);
    assert '>' !in Trim(xml) by {
      forall k | 0 <= k < |Trim(xml)| ensures Trim(xml)[k] != '>' {
        assert Trim(xml)[k] == xml[i + k];
      }
    }
  }

  // ---------------------------------------------------------------------
  // The parser as a loop

  /** The attribute loop shared by both parsing functions, rebinding the
    * element once per part. */
  method ApplyParts(start: XmlElement, parts: seq<string>) returns (element: XmlElement)
    ensures element == AddAttributes(start, parts)
  {
    element := start;
    for i := 0 to |parts|
      invariant element == AddAttributes(start, parts[..i])
    {
      var part := parts[i];
      ghost var previous := element;
      match FindChar(part, '=') {
        case Some(eq) =>
          var name := part[..eq];
          var value := part[eq + 1..];
          var cleaned := TrimMatches(TrimMatches(value, '"'), '\'');
          element := element.WithAttribute(name, cleaned);
        case None =>
      }
      assert element == ApplyPart(previous, part);
      assert parts[..i + 1][..i] == parts[..i] && parts[..i + 1][i] == part;
    }
    assert parts[..|parts|] == parts;
  }

  /** `parse_self_closing_tag`, with the malformed-tag check. */
  method ParseSelfClosingTag(tag: string) returns (r: Result<XmlElement>)
    ensures r == ToResult(ParseSelfClosingAsWritten(tag))
  {
    if |tag| < 3 || !OneByte(tag[0]) {
      return Failure(MALFORMED);
    }
    var parts := SplitWhitespace(tag[1..|tag| - 2]);
    if parts == [] {
      return Failure(NO_NAME);
    }
    var element := ApplyParts(NewElement(parts[0]).SelfClosing(), parts[1..]);
    return Success(element);
  }

  /** `parse_simple_element`, with the malformed-tag checks. */
  method ParseSimpleElement(xml: string) returns (r: Result<XmlElement>)
    ensures r == Parse(xml)
  {
    var trimmed := Trim(xml);
    if EndsWith(trimmed, "/>") {
      r := ParseSelfClosingTag(trimmed);
      return;
    }
    var found := FindChar(trimmed, '>');
    if found.None? {
      return Failure(NO_CLOSING);
    }
    var end := found.value;
    assert Parse(xml) == ToResult(ParseOpenTag(trimmed, end));
    if end < 1 || !OneByte(trimmed[0]) {
      return Failure(MALFORMED);
    }
    var parts := SplitWhitespace(trimmed[1..end]);
    if parts == [] {
      return Failure(NO_NAME);
    }
    var element := ApplyParts(NewElement(parts[0]), parts[1..]);
    assert Parse(xml) == ToResult(ParseContent(trimmed, end, parts[0], element));
    var closing := RFind(trimmed, "</" + parts[0] + ">");
    if closing.Some? {
      if closing.value < end + 1 {
        return Failure(MALFORMED);
      }
      var content := Trim(trimmed[end + 1..closing.value]);
      if content != [] {
        element := element.WithContent(content);
      }
    }
    return Success(element);
  }

  // ---------------------------------------------------------------------
  // Parsing what was serialised

  /** An element name the parser reads back: non-empty, without whitespace,
    * `>` or `/`. */
  predicate PlainName(n: string) {
    n != [] && NoWhitespace(n) && '>' !in n && '/' !in n
  }

  predicate MarkupFree(s: string) {
    forall i :: 0 <= i < |s| ==> !IsMarkup(s[i])
  }

  /** An attribute the parser reads back: a name without whitespace, `=` or
    * `>`, and a value without whitespace or markup characters (the parser
    * does not decode entities). */
  predicate PlainAttribute(a: (string, string)) {
    NoWhitespace(a.0) && '=' !in a.0 && '>' !in a.0 && NoWhitespace(a.1) && MarkupFree(a.1)
  }

  predicate PlainAttributes(attrs: seq<(string, string)>) {
    forall i :: 0 <= i < |attrs| ==> PlainAttribute(attrs[i])
  }

  /** Elements that survive serialisation followed by parsing: a plain name,
    * no children, distinct plain attributes, and content (only on an element
    * that is not self-closing) that is non-empty, already trimmed and free of
    * markup characters. */
  predicate RoundTrips(e: XmlElement) {
    PlainName(e.name) && e.children == [] && DistinctNames(e.attributes) && PlainAttributes(e.attributes)
    && match e.content
       case None => true
       case Some(c) => !e.selfClosing && c != [] && Trim(c) == c && MarkupFree(c)
  }

  /** The tag part an attribute becomes, without its leading space. */
  function Part(a: (string, string)): string {
    a.0 + "=\"" + a.1 + "\""
  }

  function Parts(attrs: seq<(string, string)>): (parts: seq<string>)
    ensures |parts| == |attrs|
  {
    seq(|attrs|, i requires 0 <= i < |attrs| => Part(attrs[i]))
  }

  lemma NameSetSnoc(a: seq<(string, string)>, x: (string, string))
    ensures NameSet(a + [x]) == NameSet(a) + {x.0}
  {
    if a != [] {
      assert (a + [x])[1..] == a[1..] + [x];
      NameSetSnoc(a[1..], x);
    }
  }

  /** Appending keeps names distinct exactly when the new name is fresh. */
  lemma {:induction false} DistinctNamesSnoc(a: seq<(string, string)>, x: (string, string))
    ensures DistinctNames(a + [x]) <==> DistinctNames(a) && x.0 !in NameSet(a)
  {
    if a == [] {
      assert [] + [x] == [x] && [x][1..] == [];
    } else {
      assert (a + [x])[1..] == a[1..] + [x];
      NameSetSnoc(a[1..], x);
      DistinctNamesSnoc(a[1..], x);
    }
  }

  lemma PlainValueUnescaped(a: (string, string))
    requires PlainAttribute(a)
    ensures EscapeAttribute(a.1) == a.1
    ensures RenderAttribute(a) == [' '] + Part(a)
  {
    EscapeIdentity(a.1);
  }

  lemma PartHasNoWhitespace(a: (string, string))
    requires PlainAttribute(a)
    ensures NoWhitespace(Part(a)) && Part(a) != [] && '>' !in Part(a)
  {
    var p := Part(a);
    forall i | 0 <= i < |p| ensures !IsWhitespace(p[i]) && p[i] != '>' {
      if i < |a.0| {
        assert p[i] == a.0[i];
      } else if |a.0| + 2 <= i < |a.0| + 2 + |a.1| {
        assert p[i] == a.1[i - |a.0| - 2];
      }
    }
  }

  /** The inside of a serialised opening tag splits into the name followed
    * by one `name="value"` part per attribute. */
  lemma {:induction false} SplitRenderedTag(w: string, attrs: seq<(string, string)>)
    requires w != [] && NoWhitespace(w) && PlainAttributes(attrs)
    ensures SplitWhitespace(w + RenderAttributes(attrs)) == [w] + Parts(attrs)
    decreases |attrs|
  {
    if attrs == [] {
      assert w + RenderAttributes(attrs) == w;
      SplitWhitespaceSingle(w);
    } else {
      var p := Part(attrs[0]);
      PlainValueUnescaped(attrs[0]);
      PartHasNoWhitespace(attrs[0]);
      SplitRenderedTag(p, attrs[1..]);
      SplitRenderedStep(w, p, RenderAttributes(attrs[1..]), [p] + Parts(attrs[1..]));
      PartsCons(attrs);
    }
  }

  lemma PartsCons(attrs: seq<(string, string)>)
    requires attrs != []
    ensures Parts(attrs) == [Part(attrs[0])] + Parts(attrs[1..])
  {
  }

  /** One step of `SplitRenderedTag`: a word, a space, then the rest. */
  lemma SplitRenderedStep(w: string, p: string, rest: string, tail: seq<string>)
    requires w != [] && NoWhitespace(w)
    requires SplitWhitespace(p + rest) == tail
    ensures SplitWhitespace(w + ([' '] + p + rest)) == [w] + tail
  {
    assert [' '] + p + rest == [' '] + (p + rest);
    assert w + ([' '] + (p + rest)) == w + [' '] + (p + rest);
    SplitWhitespaceWord(w, ' ', p + rest);
  }

  lemma {:induction false} NoCloseInAttributes(attrs: seq<(string, string)>)
    requires PlainAttributes(attrs)
    ensures '>' !in RenderAttributes(attrs)
  {
    if attrs != [] {
      PlainValueUnescaped(attrs[0]);
      PartHasNoWhitespace(attrs[0]);
      NoCloseInAttributes(attrs[1..]);
    }
  }

  /** A serialised attribute part is read back as that attribute. */
  lemma ApplyPlainPart(e: XmlElement, a: (string, string))
    requires PlainAttribute(a)
    ensures ApplyPart(e, Part(a)) == e.WithAttribute(a.0, a.1)
  {
    var p := Part(a);
    assert p == a.0 + ['='] + ("\"" + a.1 + "\"");
    FindCharAfter(a.0, '=', "\"" + a.1 + "\"");
    assert p[..|a.0|] == a.0;
    assert p[|a.0| + 1..] == ['"'] + a.1 + ['"'];
    TrimMatchesQuoted(a.1, '"');
    TrimMatchesNoop(a.1, '\'');
  }

  /** The attribute loop over serialised parts rebuilds the attribute list. */
  lemma {:induction false} AddPlainAttributes(e: XmlElement, attrs: seq<(string, string)>)
    requires e.attributes == [] && PlainAttributes(attrs) && DistinctNames(attrs)
    ensures AddAttributes(e, Parts(attrs)) == e.(attributes := attrs)
    decreases |attrs|
  {
    if attrs == [] {
      assert Parts(attrs) == [];
    } else {
      var m := |attrs| - 1;
      var init := attrs[..m];
      assert attrs == init + [attrs[m]];
      DistinctNamesSnoc(init, attrs[m]);
      AddPlainAttributes(e, init);
      AddPlainAttributeStep(e, init, attrs[m]);
    }
  }

  /** Adding one more plain attribute with a new name appends it. */
  lemma AddPlainAttributeStep(e: XmlElement, init: seq<(string, string)>, x: (string, string))
    requires PlainAttribute(x) && x.0 !in NameSet(init)
    requires AddAttributes(e, Parts(init)) == e.(attributes := init)
    ensures AddAttributes(e, Parts(init + [x])) == e.(attributes := init + [x])
  {
    PartsSnoc(init, x);
    AddAttributesSnoc(e, Parts(init), Part(x));
    var before := e.(attributes := init);
    ApplyPlainPart(before, x);
    WithNewAttribute(before, x);
    ReplaceAttributesTwice(e, init, init + [x]);
  }

  lemma ReplaceAttributesTwice(e: XmlElement, a: seq<(string, string)>, b: seq<(string, string)>)
    ensures e.(attributes := a).(attributes := b) == e.(attributes := b)
  {
  }

  lemma AddAttributesSnoc(e: XmlElement, parts: seq<string>, p: string)
    ensures AddAttributes(e, parts + [p]) == ApplyPart(AddAttributes(e, parts), p)
  {
    assert (parts + [p])[..|parts|] == parts;
  }

  lemma WithNewAttribute(b: XmlElement, x: (string, string))
    requires x.0 !in NameSet(b.attributes)
    ensures b.WithAttribute(x.0, x.1) == b.(attributes := b.attributes + [x])
  {
    assert (x.0, x.1) == x;
  }

  lemma PartsSnoc(init: seq<(string, string)>, x: (string, string))
    ensures Parts(init + [x]) == Parts(init) + [Part(x)]
  {
    var a := init + [x];
    forall i | 0 <= i < |a|
      ensures Parts(a)[i] == (Parts(init) + [Part(x)])[i]
    {
      if i < |init| {
        assert a[i] == init[i];
      }
    }
  }

  /** The text a serialised element carries between its tags. */
  function ContentText(e: XmlElement): string {
    match e.content case None => "" case Some(c) => c
  }

  /** `<tag>text</n>` begins with `<` and ends with `>`, so there is nothing
    * to trim, and it does not end in `/>`. */
  lemma OpenTagEnds(r: string, n: string, tag: string, text: string)
    requires r == "<" + tag + ">" + text + "</" + n + ">"
    requires PlainName(n)
    ensures r[0] == '<' && r[|r| - 1] == '>' && !EndsWith(r, "/>") && OneByte(r[0])
  {
    assert r[|r| - 2] == n[|n| - 1];
  }

  /** In `<tag>text</n>` the first `>` closes the opening tag. */
  lemma OpenTagFirstClose(r: string, n: string, tag: string, text: string)
    requires r == "<" + tag + ">" + text + "</" + n + ">"
    requires '>' !in tag
    ensures 1 <= 1 + |tag| < |r| && FindChar(r, '>') == Some(1 + |tag|)
    ensures r[1..1 + |tag|] == tag
  {
    var open := "<" + tag;
    assert FindChar(r, '>') == Some(|open|) by {
      Regroup(open + ['>'], text, "</", n, ">");
      assert '>' !in open;
      FindCharAfter(open, '>', text + "</" + n + ">");
    }
    assert r[1..|open|] == tag by {
      assert r[..|open|] == open;
      SliceOfPrefix(r, open, 1);
      assert open == ['<'] + tag;
    }
  }

  /** In `<tag>text</n>` the last `</n>` follows the text. */
  lemma OpenTagClosing(r: string, n: string, tag: string, text: string)
    requires r == "<" + tag + ">" + text + "</" + n + ">"
    ensures 1 + |tag| + 1 + |text| <= |r| && RFind(r, "</" + n + ">") == Some(1 + |tag| + 1 + |text|)
    ensures r[1 + |tag| + 1..1 + |tag| + 1 + |text|] == text
  {
    var front := "<" + tag + ">" + text;
    assert r == front + ("</" + n + ">");
    RFindAtEnd(front, "</" + n + ">");
    assert r[|front| - |text|..|front|] == text;
  }

  /** The content step once the closing tag has been found after `text`. */
  lemma ContentAt(r: string, end: nat, n: string, text: string, element: XmlElement)
    requires end + 1 + |text| <= |r| && RFind(r, "</" + n + ">") == Some(end + 1 + |text|)
    requires r[end + 1..end + 1 + |text|] == text && Trim(text) == text
    ensures ParseContent(r, end, n, element) == Parsed(if text == [] then element else element.WithContent(text))
  {
  }

  /** A serialised opening tag reads back as the element's name and
    * attributes. */
  lemma OpenTagStep(r: string, end: nat, n: string, tag: string, attrs: seq<(string, string)>)
    requires 1 <= end < |r| && OneByte(r[0]) && r[1..end] == tag
    requires SplitWhitespace(tag) == [n] + Parts(attrs)
    requires PlainAttributes(attrs) && DistinctNames(attrs)
    ensures ParseOpenTag(r, end) == ParseContent(r, end, n, NewElement(n).(attributes := attrs))
  {
    var parts := [n] + Parts(attrs);
    assert parts[0] == n && parts[1..] == Parts(attrs);
    AddPlainAttributes(NewElement(n), attrs);
  }

  /** A serialised element that is not self-closing, with plain content. */
  lemma RenderOpenShape(e: XmlElement)
    requires RoundTrips(e) && !e.selfClosing
    ensures Render(e) == "<" + e.name + RenderAttributes(e.attributes) + ">" + ContentText(e) + "</" + e.name + ">"
  {
    var text := match e.content case None => "" case Some(c) => EscapeText(c);
    assert text == ContentText(e) by {
      if e.content.Some? {
        EscapeIdentity(e.content.value);
      }
    }
    assert RenderChildren(e.children) == [];
  }

  /** Round trip for an element that is not self-closing. */
  lemma ParseRenderOpen(e: XmlElement)
    requires RoundTrips(e) && !e.selfClosing
    ensures ParseAsWritten(Render(e)) == Parsed(e)
  {
    var n, attrs, text := e.name, e.attributes, ContentText(e);
    var tag := n + RenderAttributes(attrs);
    assert Render(e) == "<" + tag + ">" + text + "</" + n + ">" by {
      RenderOpenShape(e);
      OpenTagRegroup(n, RenderAttributes(attrs), text);
    }
    assert '>' !in tag && SplitWhitespace(tag) == [n] + Parts(attrs) by {
      NoCloseInAttributes(attrs);
      SplitRenderedTag(n, attrs);
    }
    if e.content.None? {
      TrimNoop(text);
    }
    ParseOpenText(n, tag, attrs, text);
    if e.content.None? {
      assert NewElement(n).(attributes := attrs) == e;
    } else {
      assert text == e.content.value != [];
      assert e == XmlElement(n, attrs, Some(text), [], false);
    }
  }

  /** The name and the rendered attributes read as one opening tag. */
  lemma OpenTagRegroup(n: string, ra: string, text: string)
    ensures "<" + n + ra + ">" + text + "</" + n + ">" == "<" + (n + ra) + ">" + text + "</" + n + ">"
  {
  }

  /** `<tag>text</n>`, where the tag splits into `n` and the parts of plain,
    * distinct attributes and the text is trimmed, reads back as that
    * element. */
  lemma ParseOpenText(n: string, tag: string, attrs: seq<(string, string)>, text: string)
    requires PlainName(n) && '>' !in tag && SplitWhitespace(tag) == [n] + Parts(attrs)
    requires PlainAttributes(attrs) && DistinctNames(attrs) && Trim(text) == text
    ensures ParseAsWritten("<" + tag + ">" + text + "</" + n + ">")
              == Parsed(if text == [] then NewElement(n).(attributes := attrs)
                        else NewElement(n).(attributes := attrs).WithContent(text))
  {
    var r := "<" + tag + ">" + text + "</" + n + ">";
    OpenTextShape(r, n, tag, text);
    ParseOpenParts(r, 1 + |tag|, n, tag, attrs, text, NewElement(n).(attributes := attrs));
  }

  /** `r` is `<tag>text</n>` as the parser sees it: its first `>` at `end`,
    * the last `</n>` right after `text`, no whitespace at either end. */
  predicate OpenTextLayout(r: string, end: nat, n: string, tag: string, text: string) {
    1 <= end < |r| && !IsWhitespace(r[0]) && !IsWhitespace(r[|r| - 1])
    && !EndsWith(r, "/>") && OneByte(r[0])
    && FindChar(r, '>') == Some(end) && r[1..end] == tag
    && end + 1 + |text| <= |r| && RFind(r, "</" + n + ">") == Some(end + 1 + |text|)
    && r[end + 1..end + 1 + |text|] == text
  }

  /** Where the tags of `<tag>text</n>` are. */
  lemma OpenTextShape(r: string, n: string, tag: string, text: string)
    requires r == "<" + tag + ">" + text + "</" + n + ">"
    requires PlainName(n) && '>' !in tag
    ensures OpenTextLayout(r, 1 + |tag|, n, tag, text)
  {
    OpenTagEnds(r, n, tag, text);
    OpenTagFirstClose(r, n, tag, text);
    OpenTagClosing(r, n, tag, text);
  }

  /** The parse of `<tag>text</n>`, from the positions of its first `>`
    * and its last `</n>`. */
  lemma ParseOpenParts(r: string, end: nat, n: string, tag: string, attrs: seq<(string, string)>,
                       text: string, element: XmlElement)
    requires OpenTextLayout(r, end, n, tag, text) && SplitWhitespace(tag) == [n] + Parts(attrs)
    requires Trim(text) == text && PlainAttributes(attrs) && DistinctNames(attrs)
    requires element == NewElement(n).(attributes := attrs)
    ensures ParseAsWritten(r) == Parsed(if text == [] then element else element.WithContent(text))
  {
    TrimNoop(r);
    OpenTagStep(r, end, n, tag, attrs);
    ContentAt(r, end, n, text, element);
  }

  /** `<n ra/>` is already trimmed, ends in `/>` and holds `n ra` inside. */
  lemma SelfClosingTagShape(n: string, ra: string)
    requires PlainName(n)
    ensures var r := "<" + n + ra + "/>";
            Trim(r) == r && EndsWith(r, "/>") && |r| >= 3 && OneByte(r[0]) && r[1..|r| - 2] == n + ra
  {
    var r := "<" + n + ra + "/>";
    assert r[0] == '<' && r[|r| - 1] == '>';
    TrimNoop(r);
    assert r[|r| - 2..] == "/>";
    assert r[1..|r| - 2] == n + ra;
  }

  /** A serialised self-closing tag reads back as the element's name and
    * attributes. */
  lemma SelfClosingTagStep(r: string, n: string, attrs: seq<(string, string)>)
    requires |r| >= 3 && OneByte(r[0]) && r[1..|r| - 2] == n + RenderAttributes(attrs)
    requires PlainName(n) && PlainAttributes(attrs) && DistinctNames(attrs)
    ensures ParseSelfClosingAsWritten(r) == Parsed(NewElement(n).SelfClosing().(attributes := attrs))
  {
    SplitRenderedTag(n, attrs);
    var parts := [n] + Parts(attrs);
    assert parts[0] == n && parts[1..] == Parts(attrs);
    AddPlainAttributes(NewElement(n).SelfClosing(), attrs);
  }

  /** Round trip for a self-closing element. */
  lemma ParseRenderSelfClosing(e: XmlElement)
    requires RoundTrips(e) && e.selfClosing
    ensures ParseAsWritten(Render(e)) == Parsed(e)
  {
    var n, attrs := e.name, e.attributes;
    var r := "<" + n + RenderAttributes(attrs) + "/>";
    assert Render(e) == r;
    SelfClosingTagShape(n, RenderAttributes(attrs));
    assert ParseAsWritten(r) == ParseSelfClosingAsWritten(r);
    SelfClosingTagStep(r, n, attrs);
    assert NewElement(n).SelfClosing().(attributes := attrs) == e;
  }

  /** Parsing a serialised element without children gives the element back,
    * with or without the malformed-tag correction. */
  lemma ParseRender(e: XmlElement)
    requires RoundTrips(e)
    ensures ParseAsWritten(Render(e)) == Parsed(e)
    ensures Parse(Render(e)) == Success(e)
  {
    if e.selfClosing {
      ParseRenderSelfClosing(e);
    } else {
      ParseRenderOpen(e);
    }
  }

  /** Every attribute name of a table is in its name set. */
  lemma {:induction false} NameSetHasEvery(a: seq<(string, string)>)
    ensures forall i :: 0 <= i < |a| ==> a[i].0 in NameSet(a)
  {
    if a != [] {
      NameSetHasEvery(a[1..]);
      forall i | 0 < i < |a|
        ensures a[i].0 in NameSet(a)
      {
        assert a[i] == a[1..][i - 1];
      }
    }
  }

  /** With distinct names the map view holds every entry of the table, and
    * every name in the map view comes from an entry of the table. */
  lemma {:induction false} AttributeMapEntries(a: seq<(string, string)>)
    requires DistinctNames(a)
    ensures forall i :: 0 <= i < |a| ==> a[i].0 in AttributeMap(a) && AttributeMap(a)[a[i].0] == a[i].1
    ensures forall k :: k in AttributeMap(a) ==> exists i :: 0 <= i < |a| && a[i] == (k, AttributeMap(a)[k])
  {
    if a != [] {
      var t := a[1..];
      AttributeMapEntries(t);
      NameSetHasEvery(t);
      forall i | 0 < i < |a|
        ensures a[i].0 in AttributeMap(a) && AttributeMap(a)[a[i].0] == a[i].1
      {
        assert a[i] == t[i - 1];
      }
      forall k | k in AttributeMap(a)
        ensures exists i :: 0 <= i < |a| && a[i] == (k, AttributeMap(a)[k])
      {
        if k != a[0].0 {
          var j :| 0 <= j < |t| && t[j] == (k, AttributeMap(t)[k]);
          assert a[j + 1] == t[j];
        }
      }
    }
  }

  /** `to_string` walks the attribute `HashMap` in an order left open. For
    * every listing of the same table that it may take, parsing the output
    * gives back the same table, name, content and flag. */
  lemma ParseRenderAnyOrder(e: XmlElement, listing: seq<(string, string)>)
    requires RoundTrips(e)
    requires DistinctNames(listing) && AttributeMap(listing) == AttributeMap(e.attributes)
    ensures Parse(Render(e.(attributes := listing))).Success?
    ensures var p := Parse(Render(e.(attributes := listing))).value;
      AttributeMap(p.attributes) == AttributeMap(e.attributes) && p.name == e.name
      && p.content == e.content && p.selfClosing == e.selfClosing && p.children == []
  {
    AttributeMapEntries(e.attributes);
    AttributeMapEntries(listing);
    forall i | 0 <= i < |listing|
      ensures PlainAttribute(listing[i])
    {
      var k := listing[i].0;
      var j :| 0 <= j < |e.attributes| && e.attributes[j] == (k, AttributeMap(e.attributes)[k]);
      assert listing[i] == e.attributes[j];
    }
    ParseRender(e.(attributes := listing));
  }

  lemma ContentExampleText()
    ensures "<" + "test" + ">" + "Hello World" + "</" + "test" + ">" == "<test>Hello World</test>"
  {
  }

  lemma TestNamePlain()
    ensures PlainName("test")
  {
    assert NoWhitespace("test");
  }

  lemma HelloWorldPlain()
    ensures Trim("Hello World") == "Hello World" && MarkupFree("Hello World")
  {
    TrimNoop("Hello World");
  }

  lemma ContentExampleRoundTrips(t: XmlElement)
    requires t == XmlElement("test", [], Some("Hello World"), [], false)
    ensures RoundTrips(t)
  {
    TestNamePlain();
    HelloWorldPlain();
  }

  /** An element with plain content and nothing else renders as `<n>c</n>`. */
  lemma RenderPlainContent(n: string, c: string)
    requires MarkupFree(c)
    ensures Render(XmlElement(n, [], Some(c), [], false)) == "<" + n + ">" + c + "</" + n + ">"
  {
    EscapeIdentity(c);
    assert RenderAttributes([]) == [];
    assert RenderChildren([]) == [];
  }

  lemma ContentExampleRenders(t: XmlElement)
    requires t == XmlElement("test", [], Some("Hello World"), [], false)
    ensures Render(t) == "<test>Hello World</test>"
  {
    HelloWorldPlain();
    RenderPlainContent("test", "Hello World");
    ContentExampleText();
  }

  /** `<test>Hello World</test>` parses to element `test` with that content. */
  lemma ParseContentExample()
    ensures Parse("<test>Hello World</test>") == Success(NewElement("test").WithContent("Hello World"))
  {
    var t := XmlElement("test", [], Some("Hello World"), [], false);
    assert NewElement("test").WithContent("Hello World") == t;
    ContentExampleRoundTrips(t);
    ContentExampleRenders(t);
    ParseRender(t);
  }

  /** `<br/>` parses to a self-closing `br` without content. */
  lemma ParseSelfClosingExample()
    ensures Parse("<br/>") == Success(NewElement("br").SelfClosing())
  {
    var b := NewElement("br").SelfClosing();
    assert RoundTrips(b);
    assert Render(b) == "<br/>";
    ParseRender(b);
  }
}
