/**
 What the XML report writes for texts: OutputXmlCDataSection, EscapeXml and
 RemoveInvalidXmlCharacters, against a reader of character data and attribute values as XML 1.0
 defines it. A character stands for the octet with its code.
 */
module XmlOutput {
  import opened Common

  const OPEN := "<![CDATA["
  const CLOSE := "]]>"
  const AGAIN := "]]>]]&gt;<![CDATA["

  // ---- Characters ----

  /** Tab, line feed and carriage return, which a reader turns into spaces in an attribute value. */
  predicate IsXmlSpace(c: char) {
    c as int == 9 || c as int == 10 || c as int == 13
  }

  predicate IsNormalizableWhitespace(c: char): (b: bool)
    ensures b <==> IsXmlSpace(c)
  {
    c == '\t' || c == '\n' || c == '\r'
  }

  /** IsValidXmlCharacter. Where `signed` says that char is, octets from 80 up are negative and not accepted. */
  predicate IsValidXmlCharacter(c: char, signed: bool) {
    IsNormalizableWhitespace(c) || (' ' <= c && (signed ==> c < 0x80 as char))
  }

  /** Section 2.2 of XML 1.0, octet by octet. */
  predicate IsXmlCharacter(c: char) {
    IsXmlSpace(c) || c as int >= 32
  }

  predicate AllXml(s: string) {
    forall i :: 0 <= i < |s| ==> IsXmlCharacter(s[i])
  }

  // ---- The reader ----

  /** Whether the text goes on with the end of a CDATA section. */
  predicate Closes(s: string) {
    |s| >= 3 && s[0] == ']' && s[1] == ']' && s[2] == '>'
  }

  /** strstr for that end. */
  function Find(s: string): (r: Option<nat>)
    ensures r.Some? ==> r.value + 3 <= |s| && Closes(s[r.value..])
  {
    if s == "" then None
    else if Closes(s) then Some(0)
    else
      match Find(s[1..])
      case None => None
      case Some(k) => Some(k + 1)
  }

  predicate Opens(s: string) {
    |s| >= 9 && s[..9] == "<![CDATA["
  }

  datatype Parsed = Bad | Good(text: string)

  function Before(front: string, p: Parsed): Parsed {
    if p.Good? && AllXml(front) then Good(front + p.text) else Bad
  }

  function HexDigit(c: char): int {
    if '0' <= c <= '9' then c as int - '0' as int
    else if 'A' <= c <= 'F' then c as int - 'A' as int + 10
    else if 'a' <= c <= 'f' then c as int - 'a' as int + 10
    else -1
  }

  /** Hexadecimal digits up to a semicolon: the number, and how many characters that is. */
  function Number(s: string, sofar: nat): Option<(nat, nat)> {
    if s == "" then None
    else if s[0] == ';' then Some((sofar, 1))
    else if HexDigit(s[0]) < 0 then None
    else
      match Number(s[1..], 16 * sofar + HexDigit(s[0]))
      case None => None
      case Some((n, length)) => Some((n, length + 1))
  }

  datatype Reference = NoReference | Reference(c: char, length: nat)

  /** What a text that goes on with an ampersand refers to, and how long the reference is. */
  function Refers(s: string): (r: Reference)
    requires s != "" && s[0] == '&'
    ensures r.Reference? ==> r.length >= 1
  {
    if |s| >= 4 && s[1..4] == "lt;" then Reference('<', 4)
    else if |s| >= 4 && s[1..4] == "gt;" then Reference('>', 4)
    else if |s| >= 5 && s[1..5] == "amp;" then Reference('&', 5)
    else if |s| >= 6 && s[1..6] == "apos;" then Reference('\'', 6)
    else if |s| >= 6 && s[1..6] == "quot;" then Reference('"', 6)
    else if |s| >= 4 && s[1] == '#' && s[2] == 'x' && HexDigit(s[3]) >= 0 then
      match Number(s[3..], 0)
      case Some((n, length)) => if n < 0x80 then Reference(n as char, 3 + length) else NoReference
      case None => NoReference
    else NoReference
  }

  /** Reads the whole of a text as an attribute value or as character data with CDATA sections. */
  function Read(s: string, attribute: bool): Parsed
    decreases |s|
  {
    if s == "" then Good("")
    else if s[0] == '&' then
      var r := Refers(s);
      if r.NoReference? || r.length > |s| then Bad else Before([r.c], Read(s[r.length..], attribute))
    else if attribute then
      if s[0] == '<' || s[0] == '"' || s[0] == '\'' then Bad
      else Before([if IsXmlSpace(s[0]) then ' ' else s[0]], Read(s[1..], attribute))
    else if Opens(s) then
      match Find(s[9..])
      case None => Bad
      case Some(k) => Before(s[9..9 + k], Read(s[12 + k..], attribute))
    else if s[0] == '<' || Closes(s) then Bad
    else Before([s[0]], Read(s[1..], attribute))
  }

  // ---- OutputXmlCDataSection ----

  /** What follows the opening bracket. */
  function Sections(data: string): string
    decreases |data|
  {
    match Find(data)
    case None => data + CLOSE
    case Some(k) => data[..k] + AGAIN + Sections(data[k + 3..])
  }

  function CDataSection(data: string): string {
    OPEN + Sections(data)
  }

  method OutputXmlCDataSection(data: string) returns (stream: string)
    ensures stream == CDataSection(data)
  {
    var segment := data;
    stream := OPEN;
    while true
      invariant stream + Sections(segment) == CDataSection(data)
      decreases |segment|
    {
      var found := Find(segment);
      if found.Some? {
        var k := found.value;
        ghost var rest := Sections(segment[k + 3..]);
        Associative(stream, segment[..k] + AGAIN, rest);
        Associative(stream, segment[..k], AGAIN);
        stream := stream + segment[..k] + AGAIN;
        segment := segment[k + |CLOSE|..];
      } else {
        Associative(stream, segment, CLOSE);
        stream := stream + segment;
        break;
      }
    }
    stream := stream + CLOSE;
  }

  /** The first end of a text without one, followed by one, is that one. */
  lemma {:induction false} FindFirst(s: string, rest: string)
    requires Find(s).None?
    ensures Find(s + (CLOSE + rest)) == Some(|s|)
  {
    if s == "" {
      assert s + (CLOSE + rest) == CLOSE + rest;
      assert Closes(CLOSE + rest);
    } else {
      var t := s + (CLOSE + rest);
      assert t[1..] == s[1..] + (CLOSE + rest);
      assert !Closes(t) by {
        assert t[2] == if |s| >= 3 then s[2] else ']';
        assert |s| >= 2 ==> t[1] == s[1];
      }
      FindFirst(s[1..], rest);
    }
  }

  /** One section as long as no end of one stands in the data, and each end between two of them. */
  lemma SectionsAsWritten(a: string, b: string)
    requires Find(a).None?
    ensures CDataSection(a) == "<![CDATA[" + (a + "]]>")
    ensures CDataSection(a + ("]]>" + b)) == "<![CDATA[" + (a + ("]]>" + ("]]&gt;" + CDataSection(b))))
  {
    var rest := Sections(b);
    FirstSection(a, b);
    Associative(a, AGAIN, rest);
    TheJoint(rest);
  }

  lemma FirstSection(a: string, b: string)
    requires Find(a).None?
    ensures Sections(a + ("]]>" + b)) == a + AGAIN + Sections(b)
  {
    var data := a + ("]]>" + b);
    FindFirst(a, b);
    assert data[..|a|] == a && data[|a| + 3..] == b;
  }

  lemma TheJoint(rest: string)
    ensures AGAIN + rest == "]]>" + ("]]&gt;" + ("<![CDATA[" + rest))
  {
    assert AGAIN == "]]>" + "]]&gt;" + "<![CDATA[";
    Associative("]]>" + "]]&gt;", "<![CDATA[", rest);
    Associative("]]>", "]]&gt;", "<![CDATA[" + rest);
  }

  lemma {:induction false} NoneBefore(s: string)
    requires Find(s).Some?
    ensures Find(s[..Find(s).value]).None?
  {
    var k := Find(s).value;
    if k == 0 {
    } else {
      NoneBefore(s[1..]);
      assert s[..k][1..] == s[1..][..k - 1];
    }
  }

  lemma SectionParts(content: string, rest: string)
    ensures var s := OPEN + (content + (CLOSE + rest));
            && |s| == 12 + |content| + |rest| && s[..9] == OPEN && s[9..] == content + (CLOSE + rest)
            && s[9..9 + |content|] == content && s[12 + |content|..] == rest
  {
    var s := OPEN + (content + (CLOSE + rest));
    assert |OPEN| == 9;
    DropAppended(OPEN, content + (CLOSE + rest), 9);
    assert OPEN[..9] == OPEN && OPEN[9..] == "";
  }

  lemma ReadSection(content: string, rest: string)
    requires Find(content).None?
    ensures Read(OPEN + (content + (CLOSE + rest)), false) == Before(content, Read(rest, false))
  {
    SectionParts(content, rest);
    FindFirst(content, rest);
  }

  /** The text between two sections stands for the end that was cut out. */
  lemma ReadJoint(rest: string)
    ensures Read("]]&gt;" + rest, false) == Before(CLOSE, Read(rest, false))
  {
    var a, b, c := "]]&gt;" + rest, "]&gt;" + rest, "&gt;" + rest;
    assert a[1..] == b && b[1..] == c && c[4..] == rest && c[1..4] == "gt;";
    assert Read(c, false) == Before(">", Read(rest, false));
    assert !Opens(b) && !Opens(a) by {
      assert b[..1] == "]" && a[..1] == "]";
    }
    assert Read(b, false) == Before("]", Read(c, false));
    assert Read(a, false) == Before("]", Read(b, false));
    if Read(rest, false).Good? {
      var t := Read(rest, false).text;
      assert "]" + ("]" + (">" + t)) == CLOSE + t;
    }
  }

  lemma DataSplits(data: string, k: nat)
    requires Find(data) == Some(k)
    ensures data == data[..k] + (CLOSE + data[k + 3..])
  {
    assert Closes(data[k..]) && data[k..][..3] == CLOSE;
    SplitJoin(data, k);
    SplitJoin(data[k..], 3);
    DropDrop(data, k, 3);
  }

  lemma AgainSplits(rest: string)
    ensures AGAIN + rest == CLOSE + ("]]&gt;" + (OPEN + rest))
  {
    assert AGAIN == (CLOSE + "]]&gt;") + OPEN;
    Associative(CLOSE + "]]&gt;", OPEN, rest);
    Associative(CLOSE, "]]&gt;", OPEN + rest);
  }

  lemma SplitsAt(data: string, k: nat)
    requires Find(data) == Some(k)
    ensures CDataSection(data) == OPEN + (data[..k] + (CLOSE + ("]]&gt;" + CDataSection(data[k + 3..]))))
  {
    var rest := Sections(data[k + 3..]);
    AgainSplits(rest);
    Associative(data[..k], AGAIN, rest);
  }

  function Kept(s: string): Parsed {
    if AllXml(s) then Good(s) else Bad
  }

  lemma BeforeKept(front: string, s: string)
    ensures Before(front, Kept(s)) == Kept(front + s)
  {
    var t := front + s;
    if AllXml(t) {
      assert forall i :: 0 <= i < |front| ==> front[i] == t[i];
      assert forall i :: 0 <= i < |s| ==> s[i] == t[|front| + i];
    }
  }

  /**
   A reader of the section gets the data back, whatever ends of sections it holds, if and only if
   every character may occur in XML.
   */
  lemma {:induction false} CDataRoundTrip(data: string)
    ensures Read(CDataSection(data), false) == if AllXml(data) then Good(data) else Bad
    decreases |data|
  {
    match Find(data) {
      case None =>
        assert CDataSection(data) == OPEN + (data + (CLOSE + ""));
        ReadSection(data, "");
        assert data + "" == data;
      case Some(k) =>
        var front, back := data[..k], data[k + 3..];
        NoneBefore(data);
        DataSplits(data, k);
        SplitsAt(data, k);
        CDataRoundTrip(back);
        ReadSection(front, "]]&gt;" + CDataSection(back));
        ReadJoint(CDataSection(back));
        BeforeKept(CLOSE, back);
        BeforeKept(front, CLOSE + back);
    }
  }

  // ---- EscapeXml ----

  function HexChar(d: int): char
    requires 0 <= d < 16
  {
    if d < 10 then ('0' as int + d) as char else ('A' as int + d - 10) as char
  }

  /** "%02X". */
  function FormatByte(value: byte): string {
    [HexChar(value / 16), HexChar(value % 16)]
  }

  /** The body of the loop of EscapeXml. */
  function EscapeChar(ch: char, isAttribute: bool, signed: bool): string {
    if ch == '<' then "&lt;"
    else if ch == '>' then "&gt;"
    else if ch == '&' then "&amp;"
    else if ch == '\'' then if isAttribute then "&apos;" else "'"
    else if ch == '"' then if isAttribute then "&quot;" else "\""
    else if IsValidXmlCharacter(ch, signed) then
      if isAttribute && IsNormalizableWhitespace(ch) then "&#x" + FormatByte(ch as int) + ";" else [ch]
    else ""
  }

  /** A character is written as it is exactly if it is valid and means nothing where it stands. */
  lemma WrittenAsIs(ch: char, isAttribute: bool, signed: bool)
    ensures EscapeChar(ch, isAttribute, signed) == [ch] <==>
              && IsXmlCharacter(ch) && (signed ==> ch as int < 128)
              && ch != '<' && ch != '>' && ch != '&'
              && (isAttribute ==> ch != '"' && ch != '\'' && !IsXmlSpace(ch))
  {
  }

  function Escaped(str: string, isAttribute: bool, signed: bool): string {
    if str == "" then "" else EscapeChar(str[0], isAttribute, signed) + Escaped(str[1..], isAttribute, signed)
  }

  method EscapeXml(str: string, isAttribute: bool, signed: bool) returns (m: string)
    ensures m == Escaped(str, isAttribute, signed)
  {
    m := "";
    var i := 0;
    while i < |str|
      invariant 0 <= i <= |str| && m + Escaped(str[i..], isAttribute, signed) == Escaped(str, isAttribute, signed)
    {
      assert str[i..][1..] == str[i + 1..];
      Associative(m, EscapeChar(str[i], isAttribute, signed), Escaped(str[i + 1..], isAttribute, signed));
      m := m + EscapeChar(str[i], isAttribute, signed);
      i := i + 1;
    }
  }

  /** RemoveInvalidXmlCharacters. */
  function OnlyValid(str: string, signed: bool): string {
    if str == "" then ""
    else if IsValidXmlCharacter(str[0], signed) then [str[0]] + OnlyValid(str[1..], signed)
    else OnlyValid(str[1..], signed)
  }

  method RemoveInvalidXmlCharacters(str: string, signed: bool) returns (output: string)
    ensures output == OnlyValid(str, signed)
  {
    output := "";
    var i := 0;
    while i < |str|
      invariant 0 <= i <= |str| && output + OnlyValid(str[i..], signed) == OnlyValid(str, signed)
    {
      assert str[i..][1..] == str[i + 1..];
      if IsValidXmlCharacter(str[i], signed) {
        Associative(output, [str[i]], OnlyValid(str[i + 1..], signed));
        output := output + [str[i]];
      }
      i := i + 1;
    }
  }

  /** No brackets are left that could be markup, and no quotes that could end an attribute value. */
  predicate Plain(s: string, isAttribute: bool) {
    forall i :: 0 <= i < |s| ==> s[i] != '<' && s[i] != '>' && (isAttribute ==> s[i] != '"' && s[i] != '\'')
  }

  lemma CharPlain(ch: char, isAttribute: bool, signed: bool)
    ensures Plain(EscapeChar(ch, isAttribute, signed), isAttribute)
  {
  }

  lemma {:induction false} EscapedPlain(str: string, isAttribute: bool, signed: bool)
    ensures Plain(Escaped(str, isAttribute, signed), isAttribute)
  {
    if str == "" {
    } else {
      CharPlain(str[0], isAttribute, signed);
      EscapedPlain(str[1..], isAttribute, signed);
    }
  }

  /** Any byte is read back from its two digits. */
  lemma ByteRoundTrip(value: byte)
    ensures Number(FormatByte(value) + ";", 0) == Some((value as nat, 3))
  {
    var high, low := HexChar(value / 16), HexChar(value % 16);
    var s := FormatByte(value) + ";";
    assert s == [high, low, ';'] && s[1..] == [low, ';'] && s[1..][1..] == ";";
    assert HexDigit(high) == value / 16 && HexDigit(low) == value % 16;
    assert Number(";", value) == Some((value as nat, 1));
    assert Number([low, ';'], value / 16) == Some((value as nat, 2));
  }

  lemma ReferenceToByte(ch: char, rest: string)
    requires IsNormalizableWhitespace(ch)
    ensures var s := "&#x" + FormatByte(ch as int) + ";" + rest; Refers(s) == Reference(ch, 6) && s[6..] == rest
  {
    var s := "&#x" + FormatByte(ch as int) + ";" + rest;
    var low := HexChar(ch as int % 16);
    assert s[3] == '0' && s[4] == low && s[5] == ';' && s[6..] == rest;
    assert HexDigit(low) == ch as int;
    assert s[3..][1..] == s[4..] && s[4..][1..] == s[5..];
    assert Number(s[5..], ch as int) == Some((ch as int, 1));
    assert Number(s[4..], 0) == Some((ch as int, 2));
    assert Number(s[3..], 0) == Some((ch as int, 3));
  }

  lemma ReadReference(s: string, c: char, length: nat, rest: string, attribute: bool)
    requires s != "" && s[0] == '&' && Refers(s) == Reference(c, length) && length <= |s| && s[length..] == rest
    ensures Read(s, attribute) == Before([c], Read(rest, attribute))
  {
  }

  lemma NamedReferences(rest: string)
    ensures var s := "&lt;" + rest; Refers(s) == Reference('<', 4) && s[4..] == rest
    ensures var s := "&gt;" + rest; Refers(s) == Reference('>', 4) && s[4..] == rest
    ensures var s := "&amp;" + rest; Refers(s) == Reference('&', 5) && s[5..] == rest
  {
    var l, g, a := "&lt;" + rest, "&gt;" + rest, "&amp;" + rest;
    assert l[1..4] == "lt;" && g[1..4] == "gt;" && a[1..5] == "amp;";
    assert g[1] == 'g' && a[1] == 'a';
  }

  lemma QuoteReferences(rest: string)
    ensures var s := "&apos;" + rest; Refers(s) == Reference('\'', 6) && s[6..] == rest
    ensures var s := "&quot;" + rest; Refers(s) == Reference('"', 6) && s[6..] == rest
  {
    var a, q := "&apos;" + rest, "&quot;" + rest;
    assert a[1..6] == "apos;" && q[1..6] == "quot;";
    assert a[1] == 'a' && a[2] == 'p' && q[1] == 'q';
  }

  lemma ReadLiteral(ch: char, rest: string, isAttribute: bool)
    requires Plain(rest, isAttribute) && ch != '<' && ch != '>' && ch != '&'
    requires isAttribute ==> ch != '"' && ch != '\'' && !IsNormalizableWhitespace(ch)
    ensures Read([ch] + rest, isAttribute) == Before([ch], Read(rest, isAttribute))
  {
    var s := [ch] + rest;
    assert s[0] == ch && s[1..] == rest;
    assert !Closes(s) by {
      assert |s| >= 3 ==> s[2] == rest[1];
    }
    assert !Opens(s) by {
      assert |s| >= 9 ==> s[..9][0] == ch;
    }
  }

  /** A reader takes the escape of a valid character for that character. */
  lemma ReadEscapeChar(ch: char, rest: string, isAttribute: bool, signed: bool)
    requires Plain(rest, isAttribute) && IsValidXmlCharacter(ch, signed)
    ensures Read(EscapeChar(ch, isAttribute, signed) + rest, isAttribute) == Before([ch], Read(rest, isAttribute))
  {
    var s := EscapeChar(ch, isAttribute, signed) + rest;
    if ch == '<' || ch == '>' {
      NamedReferences(rest);
      ReadReference(s, ch, 4, rest, isAttribute);
    } else if ch == '&' {
      NamedReferences(rest);
      ReadReference(s, ch, 5, rest, isAttribute);
    } else if isAttribute && (ch == '\'' || ch == '"') {
      QuoteReferences(rest);
      ReadReference(s, ch, 6, rest, isAttribute);
    } else if isAttribute && IsNormalizableWhitespace(ch) {
      ReferenceToByte(ch, rest);
      ReadReference(s, ch, 6, rest, isAttribute);
    } else {
      ReadLiteral(ch, rest, isAttribute);
    }
  }

  /** Unescaping gives back exactly the characters that IsValidXmlCharacter accepts. */
  lemma {:induction false} EscapeRoundTrip(str: string, isAttribute: bool, signed: bool)
    ensures Read(Escaped(str, isAttribute, signed), isAttribute) == Good(OnlyValid(str, signed))
  {
    if str == "" {
    } else {
      var rest := Escaped(str[1..], isAttribute, signed);
      EscapeRoundTrip(str[1..], isAttribute, signed);
      if IsValidXmlCharacter(str[0], signed) {
        EscapedPlain(str[1..], isAttribute, signed);
        ReadEscapeChar(str[0], rest, isAttribute, signed);
      } else {
        assert "" + rest == rest;
      }
    }
  }

  lemma {:induction false} OnlyValidIff(str: string, signed: bool)
    ensures AllXml(OnlyValid(str, signed))
    ensures OnlyValid(str, signed) == str <==>
              AllXml(str) && (signed ==> forall i :: 0 <= i < |str| ==> str[i] < 0x80 as char)
    ensures |OnlyValid(str, signed)| <= |str|
  {
    if str == "" {
    } else {
      OnlyValidIff(str[1..], signed);
      assert str == [str[0]] + str[1..];
      if IsValidXmlCharacter(str[0], signed) {
        assert forall i :: 0 <= i < |str[1..]| ==> str[1..][i] == str[i + 1];
        assert ([str[0]] + OnlyValid(str[1..], signed))[1..] == OnlyValid(str[1..], signed);
      }
    }
  }

  /** The detail of a failure comes back without its invalid characters. */
  lemma DetailRoundTrip(detail: string, signed: bool)
    ensures Read(CDataSection(OnlyValid(detail, signed)), false) == Good(OnlyValid(detail, signed))
  {
    OnlyValidIff(detail, signed);
    CDataRoundTrip(OnlyValid(detail, signed));
  }

  // ---- Line ends ----

  /** Section 2.11 of XML 1.0: before it reads anything, a processor makes every line end a line feed. */
  function LineEnds(s: string): string {
    if s == "" then ""
    else if s[0] == '\r' then
      if |s| >= 2 && s[1] == '\n' then LineEnds(s[1..]) else "\n" + LineEnds(s[1..])
    else [s[0]] + LineEnds(s[1..])
  }

  /** Line ends do not reach across a character that is no line feed. */
  lemma {:induction false} LineEndsAppend(a: string, b: string)
    requires b == "" || b[0] != '\n'
    ensures LineEnds(a + b) == LineEnds(a) + LineEnds(b)
  {
    if a == "" {
      assert a + b == b && LineEnds(a) + LineEnds(b) == LineEnds(b);
    } else {
      assert (a + b)[1..] == a[1..] + b;
      LineEndsAppend(a[1..], b);
      LineEndsCons(a[0], a[1..], b);
    }
  }

  lemma LineEndsCons(c: char, a: string, b: string)
    requires LineEnds(a + b) == LineEnds(a) + LineEnds(b) && (b == "" || b[0] != '\n')
    ensures LineEnds([c] + (a + b)) == LineEnds([c] + a) + LineEnds(b)
  {
    LineEndsOne(c, a);
    LineEndsOne(c, a + b);
    Associative(LineEndOf(c, a), LineEnds(a), LineEnds(b));
  }

  /** What a character in front of t becomes. */
  function LineEndOf(c: char, t: string): string {
    if c != '\r' then [c] else if t != "" && t[0] == '\n' then "" else "\n"
  }

  lemma LineEndsOne(c: char, t: string)
    ensures LineEnds([c] + t) == LineEndOf(c, t) + LineEnds(t)
  {
    assert ([c] + t)[1..] == t;
    assert "" + LineEnds(t) == LineEnds(t);
  }

  lemma {:induction false} LineEndsChanges(s: string)
    ensures LineEnds(s) == s <==> '\r' !in s
    ensures '\r' !in LineEnds(s) && |LineEnds(s)| <= |s|
  {
    if s == "" {
    } else {
      LineEndsChanges(s[1..]);
      assert s == [s[0]] + s[1..];
    }
  }

  lemma {:induction false} LineEndsXml(s: string)
    requires AllXml(s)
    ensures AllXml(LineEnds(s))
  {
    if s == "" {
    } else {
      LineEndsXml(s[1..]);
    }
  }

  lemma {:induction false} LineEndsFirst(s: string)
    ensures s == "" <==> LineEnds(s) == ""
    ensures s != "" ==> LineEnds(s)[0] == if s[0] == '\r' then '\n' else s[0]
  {
    if s == "" {
    } else {
      LineEndsFirst(s[1..]);
    }
  }

  /** A character of a section end is first in a text with proper line ends only if it was before. */
  lemma LineEndsBracket(s: string, c: char)
    requires (c == ']' || c == '>') && LineEnds(s) != "" && LineEnds(s)[0] == c
    ensures s != "" && s[0] == c && LineEnds(s)[1..] == LineEnds(s[1..])
  {
    LineEndsFirst(s);
  }

  lemma LineEndsClose(s: string)
    requires Closes(LineEnds(s))
    ensures Closes(s)
  {
    LineEndsBracket(s, ']');
    LineEndsBracket(s[1..], ']');
    LineEndsBracket(s[1..][1..], '>');
  }

  lemma {:induction false} LineEndsNoEnd(s: string)
    requires Find(s).None?
    ensures Find(LineEnds(s)).None?
  {
    if s == "" {
    } else {
      LineEndsNoEnd(s[1..]);
      var t := LineEnds(s);
      if Closes(t) {
        LineEndsClose(s);
      }
      if !(s[0] == '\r' && |s| >= 2 && s[1] == '\n') {
        assert t[1..] == LineEnds(s[1..]);
      }
    }
  }

  /** A text without carriage returns keeps its line ends, and those behind it are as they would be alone. */
  lemma {:induction false} LineEndsBehind(fixed: string, back: string)
    requires '\r' !in fixed
    ensures LineEnds(fixed + back) == fixed + LineEnds(back)
  {
    if fixed == "" {
      assert fixed + back == back && fixed + LineEnds(back) == LineEnds(back);
    } else {
      var t := fixed + back;
      assert t[0] == fixed[0] && t[1..] == fixed[1..] + back && fixed[0] in fixed;
      assert forall c :: c in fixed[1..] ==> c in fixed;
      LineEndsBehind(fixed[1..], back);
      assert [fixed[0]] + (fixed[1..] + LineEnds(back)) == fixed + LineEnds(back);
    }
  }

  lemma LineEndsAtEnd(front: string, fixed: string, back: string)
    requires fixed != "" && fixed[0] != '\n' && '\r' !in fixed
    ensures LineEnds(front + (fixed + back)) == LineEnds(front) + (fixed + LineEnds(back))
  {
    LineEndsAppend(front, fixed + back);
    LineEndsBehind(fixed, back);
  }

  lemma NoReturns()
    ensures '\r' !in OPEN && '\r' !in AGAIN && '\r' !in CLOSE
    ensures AGAIN[0] == CLOSE[0] == ']'
  {
  }

  lemma LineEndsOfParts(data: string, k: nat)
    requires Find(data) == Some(k)
    ensures Find(LineEnds(data)) == Some(|LineEnds(data[..k])|)
    ensures LineEnds(data)[..|LineEnds(data[..k])|] == LineEnds(data[..k])
    ensures LineEnds(data)[|LineEnds(data[..k])| + 3..] == LineEnds(data[k + 3..])
  {
    var front, back := data[..k], data[k + 3..];
    NoReturns();
    NoneBefore(data);
    DataSplits(data, k);
    LineEndsAtEnd(front, CLOSE, back);
    LineEndsNoEnd(front);
    FindFirst(LineEnds(front), LineEnds(back));
  }

  /** Line ends in a section are those of its data. */
  lemma {:induction false} LineEndsOfSections(data: string)
    ensures LineEnds(Sections(data)) == Sections(LineEnds(data))
    decreases |data|
  {
    NoReturns();
    match Find(data) {
      case None =>
        LineEndsNoEnd(data);
        LineEndsAtEnd(data, CLOSE, "");
        assert CLOSE + "" == CLOSE;
      case Some(k) =>
        var front, rest := data[..k], Sections(data[k + 3..]);
        LineEndsOfSections(data[k + 3..]);
        LineEndsOfParts(data, k);
        Associative(front, AGAIN, rest);
        LineEndsAtEnd(front, AGAIN, rest);
        Associative(LineEnds(front), AGAIN, LineEnds(rest));
    }
  }

  /**
   With its handling of line ends, an XML processor reads the data with proper line ends, which are
   the data if and only if there is no carriage return in them.
   */
  lemma CDataLineEnds(data: string)
    requires AllXml(data)
    ensures Read(LineEnds(CDataSection(data)), false) == Good(LineEnds(data))
    ensures Read(LineEnds(CDataSection(data)), false) == Good(data) <==> '\r' !in data
  {
    NoReturns();
    LineEndsBehind(OPEN, Sections(data));
    LineEndsOfSections(data);
    LineEndsXml(data);
    CDataRoundTrip(LineEnds(data));
    LineEndsChanges(data);
  }

  lemma {:induction false} NoReturnInValue(str: string, signed: bool)
    ensures '\r' !in Escaped(str, true, signed)
  {
    if str == "" {
    } else {
      NoReturnInValue(str[1..], signed);
      NoReturnInEscape(str[0], signed);
    }
  }

  lemma NoReturnInEscape(ch: char, signed: bool)
    ensures '\r' !in EscapeChar(ch, true, signed)
  {
  }

  /** In an attribute value, carriage returns and all other whitespace come through as well. */
  lemma AttributeLineEnds(value: string, signed: bool)
    ensures Read(LineEnds(Escaped(value, true, signed)), true) == Good(OnlyValid(value, signed))
  {
    NoReturnInValue(value, signed);
    LineEndsChanges(Escaped(value, true, signed));
    EscapeRoundTrip(value, true, signed);
  }
}
