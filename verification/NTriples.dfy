/** Writing triples as N-Triples lines, and the scanner that reads such lines back.

    Both sides work on characters here; every character either side looks at is ASCII. */
module NTriples {
  import opened Wrappers
  import opened CanonicalI32

  const XSD_INTEGER := "http://www.w3.org/2001/XMLSchema#integer"
  const XSD_STRING := "http://www.w3.org/2001/XMLSchema#string"

  // ----- writer

  function EscapeChar(c: char): string {
    if c == '"' then "\\\""
    else if c == '\\' then "\\\\"
    else if c == '\n' then "\\n"
    else if c == '\r' then "\\r"
    else if c == '\t' then "\\t"
    else [c]
  }

  function Escape(value: string): string {
    if value == "" then "" else EscapeChar(value[0]) + Escape(value[1..])
  }

  /** Read the escapes back; None for a dangling or unknown escape. */
  function Unescape(s: string): Option<string> {
    if s == "" then Some("")
    else if s[0] != '\\' then
      var rest := Unescape(s[1..]);
      if rest.None? then None else Some([s[0]] + rest.value)
    else if |s| < 2 then None
    else
      var c := UnescapeChar(s[1]);
      var rest := Unescape(s[2..]);
      if c.None? || rest.None? then None else Some([c.value] + rest.value)
  }

  function UnescapeChar(c: char): Option<char> {
    match c
    case '"' => Some('"')
    case '\\' => Some('\\')
    case 'n' => Some('\n')
    case 'r' => Some('\r')
    case 't' => Some('\t')
    case _ => None
  }

  function LastIndex(s: string, c: char): Option<nat> {
    if s == "" then None
    else if s[|s| - 1] == c then Some(|s| - 1)
    else LastIndex(s[..|s| - 1], c)
  }

  /** One term as written. */
  function TermText(term: string): string {
    if term != "" && term[0] == '"' then
      var rest := term[1..];
      match LastIndex(rest, '"')
      case Some(close) =>
        if close < |rest| then "\"" + Escape(rest[..close]) + "\"" + rest[close + 1..] else term
      case None => term
    else if |term| >= 2 && term[..2] == "_:" then term
    else "<" + term + ">"
  }

  datatype Triple = Triple(s: string, p: string, o: string)

  /** The line for one triple, without its line feed. */
  function LineText(t: Triple): string {
    TermText(t.s) + " " + TermText(t.p) + " " + TermText(t.o) + " ."
  }

  predicate LiteralSubject(t: Triple) {
    t.s != "" && t.s[0] == '"'
  }

  function FileText(ts: seq<Triple>): string {
    if ts == [] then ""
    else (if LiteralSubject(ts[0]) then "" else LineText(ts[0]) + "\n") + FileText(ts[1..])
  }

  function LiteralSubjects(ts: seq<Triple>): nat {
    if ts == [] then 0 else (if LiteralSubject(ts[0]) then 1 else 0) + LiteralSubjects(ts[1..])
  }

  // ----- scanner, on the unread part of a line

  datatype Kind = Iri | Blank | PlainLit | LangLit | TypedLit | InlineInt

  datatype Pos = S | P | O

  /** A literal's key is its lexical form, a NUL, and its tag. */
  datatype Parsed = Parsed(key: string, kind: Kind, lexicalLen: nat)

  /** `Panic` is an out-of-range slice, which ends the whole program. */
  datatype Scan = Term(t: Parsed, next: nat) | Unparsable | Panic

  predicate IsBlank(c: char) {
    c == ' ' || c == '\t'
  }

  function Blanks(s: string): (n: nat)
    ensures n <= |s|
  {
    if s != "" && IsBlank(s[0]) then 1 + Blanks(s[1..]) else 0
  }

  /** Length of the leading blank-free token. */
  function TokenLen(s: string): (n: nat)
    ensures n <= |s|
  {
    if s != "" && !IsBlank(s[0]) then 1 + TokenLen(s[1..]) else 0
  }

  function Find(s: string, c: char): (r: Option<nat>)
    ensures r.Some? ==> r.value < |s| && s[r.value] == c
  {
    if s == "" then None
    else if s[0] == c then Some(0)
    else
      var r := Find(s[1..], c);
      if r.None? then None else Some(1 + r.value)
  }

  /** Offset of the closing quote; a backslash takes the next character with it. */
  function CloseQuote(s: string): (r: Option<nat>)
    ensures r.Some? ==> r.value < |s| && s[r.value] == '"'
  {
    if s == "" then None
    else if s[0] == '"' then Some(0)
    else
      var step := if s[0] == '\\' then 2 else 1;
      if |s| < step then None
      else
        var r := CloseQuote(s[step..]);
        if r.None? then None else Some(step + r.value)
  }

  /** What follows the closing quote: kind, tag, and how much of it the term takes. */
  datatype Tail = Tail(kind: Kind, tag: string, len: nat)

  function ScanTail(s: string): (r: Option<Tail>)
    ensures r.Some? ==> r.value.len <= |s|
  {
    if s != "" && s[0] == '@' then
      var n := TokenLen(s[1..]);
      Some(Tail(LangLit, s[1..1 + n], 1 + n))
    else if |s| >= 2 && s[0] == '^' && s[1] == '^' then
      match Find(s, '<')
      case None => None
      case Some(a) =>
        match Find(s[a + 1..], '>')
        case None => None
        case Some(b) => Some(Tail(TypedLit, s[a + 1..a + 1 + b], a + b + 2))
    else Some(Tail(PlainLit, "", 0))
  }

  function LiteralKind(lexical: string, kind: Kind, tag: string): Kind {
    if kind == TypedLit && tag == XSD_INTEGER then (if IsCanonicalI32(lexical) then InlineInt else TypedLit)
    else if kind == TypedLit && tag == XSD_STRING then PlainLit
    else kind
  }

  function LiteralTerm(lexical: string, kind: Kind, tag: string): Parsed {
    var k := LiteralKind(lexical, kind, tag);
    Parsed(lexical + "\0" + (if k == PlainLit then "" else tag), k, |lexical|)
  }

  /** The term at the start of `s`, blanks already skipped. */
  function ScanHere(s: string, pos: Pos): (r: Scan)
    ensures r.Term? ==> r.next <= |s|
  {
    if s == "" then Unparsable
    else if s[0] == '<' then
      match Find(s[1..], '>')
      case None => Unparsable
      case Some(n) => Term(Parsed(s[1..1 + n], Iri, n), n + 2)
    else if s[0] == '_' then
      var n := TokenLen(s);
      if n < 2 then Panic else Term(Parsed(s[2..n], Blank, n - 2), n)
    else if s[0] == '"' then
      if pos != O then Unparsable
      else
        match CloseQuote(s[1..])
        case None => Unparsable
        case Some(n) =>
          match ScanTail(s[n + 2..])
          case None => Unparsable
          case Some(tail) => Term(LiteralTerm(s[1..1 + n], tail.kind, tail.tag), n + 2 + tail.len)
    else Unparsable
  }

  function ScanSuffix(s: string, pos: Pos): (r: Scan)
    ensures r.Term? ==> r.next <= |s|
  {
    var b := Blanks(s);
    Shift(ScanHere(s[b..], pos), b)
  }

  function Shift(r: Scan, k: nat): Scan {
    match r
    case Term(t, next) => Term(t, next + k)
    case _ => r
  }

  // ----- round trip

  /** An escaped character is itself, or a backslash and one more character that names it. */
  lemma EscapeShape(c: char)
    ensures var e := EscapeChar(c);
      (e == [c] && c != '"' && c != '\\') || (|e| == 2 && e[0] == '\\' && UnescapeChar(e[1]) == Some(c))
  {
  }

  lemma UnescapePair(c: char, rest: string)
    ensures Unescape(['\\', c] + rest) ==
              if UnescapeChar(c).None? || Unescape(rest).None? then None
              else Some([UnescapeChar(c).value] + Unescape(rest).value)
  {
    var s := ['\\', c] + rest;
    assert s[2..] == rest;
  }

  lemma UnescapeSingle(c: char, rest: string)
    requires c != '\\'
    ensures Unescape([c] + rest) == if Unescape(rest).None? then None else Some([c] + Unescape(rest).value)
  {
    var s := [c] + rest;
    assert s[1..] == rest;
  }

  lemma UnescapeHead(c: char, rest: string)
    requires Unescape(rest).Some?
    ensures Unescape(EscapeChar(c) + rest) == Some([c] + Unescape(rest).value)
  {
    EscapeShape(c);
    hide Unescape;
    hide UnescapeChar;
    hide EscapeChar;
    var e := EscapeChar(c);
    if e == [c] && c != '\\' {
      UnescapeSingle(c, rest);
    } else {
      assert e == ['\\', e[1]];
      UnescapePair(e[1], rest);
    }
  }

  lemma {:induction false} UnescapeEscape(value: string)
    ensures Unescape(Escape(value)) == Some(value)
    decreases |value|
  {
    hide Unescape;
    hide EscapeChar;
    if value == "" {
      UnescapeNothing();
    } else {
      UnescapeEscape(value[1..]);
      UnescapeHead(value[0], Escape(value[1..]));
      assert value == [value[0]] + value[1..];
    }
  }

  lemma UnescapeNothing()
    ensures Unescape("") == Some("")
  {
  }

  /** The writer never leaves a raw line feed inside a literal. */
  lemma {:induction false} EscapeOneLine(value: string)
    ensures '\n' !in Escape(value)
    decreases |value|
  {
    if value != "" {
      EscapeOneLine(value[1..]);
    }
  }

  lemma {:induction false} FindHit(x: string, c: char, y: string)
    requires c !in x
    ensures Find(x + [c] + y, c) == Some(|x|)
    decreases |x|
  {
    var s := x + [c] + y;
    if x != "" {
      assert s[1..] == x[1..] + [c] + y;
      FindHit(x[1..], c, y);
    }
  }

  lemma {:induction false} TokenWhole(x: string, y: string)
    requires (forall k :: 0 <= k < |x| ==> !IsBlank(x[k])) && (y == "" || IsBlank(y[0]))
    ensures TokenLen(x + y) == |x|
    decreases |x|
  {
    var s := x + y;
    if x == "" {
      assert s == y;
    } else {
      assert s[1..] == x[1..] + y;
      TokenWhole(x[1..], y);
    }
  }

  function StepOver(c: char): nat {
    if c == '\\' then 2 else 1
  }

  function Moved(r: Option<nat>, k: nat): Option<nat> {
    if r.None? then None else Some(k + r.value)
  }

  lemma CloseQuoteStep(s: string)
    requires s != "" && s[0] != '"'
    ensures |s| < StepOver(s[0]) ==> CloseQuote(s) == None
    ensures |s| >= StepOver(s[0]) ==> CloseQuote(s) == Moved(CloseQuote(s[StepOver(s[0])..]), StepOver(s[0]))
  {
  }

  lemma CloseQuoteFound(s: string)
    ensures s == "" ==> CloseQuote(s) == None
    ensures s != "" && s[0] == '"' ==> CloseQuote(s) == Some(0)
  {
  }

  lemma CloseQuoteHead(c: char, rest: string)
    ensures CloseQuote(EscapeChar(c) + rest) == Moved(CloseQuote(rest), |EscapeChar(c)|)
  {
    EscapeShape(c);
    hide CloseQuote;
    hide EscapeChar;
    var e := EscapeChar(c);
    var s := e + rest;
    assert s[0] == e[0] && s[|e|..] == rest;
    CloseQuoteStep(s);
    assert StepOver(s[0]) == |e|;
  }

  /** The first unescaped quote after an escaped value is the one that closes it. */
  lemma {:induction false} CloseQuoteEscaped(value: string, y: string)
    ensures CloseQuote(Escape(value) + "\"" + y) == Some(|Escape(value)|)
    decreases |value|
  {
    hide CloseQuote;
    hide EscapeChar;
    if value == "" {
      assert Escape(value) + "\"" + y == "\"" + y;
      CloseQuoteFound("\"" + y);
    } else {
      var e, rest := EscapeChar(value[0]), Escape(value[1..]);
      CloseQuoteEscaped(value[1..], y);
      CloseQuoteHead(value[0], rest + "\"" + y);
      assert Escape(value) + "\"" + y == e + (rest + "\"" + y);
    }
  }

  lemma {:induction false} LastQuoteSplits(value: string, suffix: string)
    ensures '"' !in suffix ==> LastIndex(value + "\"" + suffix, '"') == Some(|value|)
    ensures '"' in suffix ==> LastIndex(value + "\"" + suffix, '"') != Some(|value|)
    decreases |suffix|
  {
    var s := value + "\"" + suffix;
    if suffix != "" {
      var n := |suffix| - 1;
      assert s[..|s| - 1] == value + "\"" + suffix[..n];
      LastQuoteSplits(value, suffix[..n]);
      assert suffix == suffix[..n] + [suffix[n]];
      LastIndexBound(s, '"');
    }
  }

  lemma {:induction false} LastIndexBound(s: string, c: char)
    ensures LastIndex(s, c).Some? ==> LastIndex(s, c).value < |s| && s[LastIndex(s, c).value] == c
    decreases |s|
  {
    if s != "" && s[|s| - 1] != c {
      LastIndexBound(s[..|s| - 1], c);
    }
  }

  /** The engine's terms. */
  datatype Node = IriNode(text: string) | BlankNode(name: string) | Literal(value: string, suffix: Suffix)

  datatype Suffix = NoSuffix | Lang(tag: string) | Datatype(iri: string)

  function SuffixText(s: Suffix): string {
    match s
    case NoSuffix => ""
    case Lang(tag) => "@" + tag
    case Datatype(iri) => "^^<" + iri + ">"
  }

  /** The engine's key form: bare IRI, prefixed label, raw unescaped literal. */
  function Lexical(n: Node): string {
    match n
    case IriNode(text) => text
    case BlankNode(name) => "_:" + name
    case Literal(value, suffix) => "\"" + value + "\"" + SuffixText(suffix)
  }

  predicate BlankFree(s: string) {
    forall k :: 0 <= k < |s| ==> !IsBlank(s[k])
  }

  /** What the grammar allows in the parts the writer passes through; a literal's value is free. */
  predicate WellFormed(n: Node) {
    match n
    case IriNode(text) =>
      '>' !in text && '\n' !in text && !(text != "" && text[0] == '"') && !(|text| >= 2 && text[..2] == "_:")
    case BlankNode(name) => BlankFree(name) && '\n' !in name
    case Literal(_, NoSuffix) => true
    case Literal(_, Lang(tag)) => BlankFree(tag) && '"' !in tag && '\n' !in tag
    case Literal(_, Datatype(iri)) => '>' !in iri && '"' !in iri && '\n' !in iri
  }

  function Written(n: Node): string {
    match n
    case IriNode(text) => "<" + text + ">"
    case BlankNode(name) => "_:" + name
    case Literal(value, suffix) => "\"" + Escape(value) + "\"" + SuffixText(suffix)
  }

  /** What the scanner should make of a term.  The key of a literal is its escaped lexical form, a
      NUL, and the language or datatype; xsd:string counts as no datatype, and an xsd:integer in the
      decimal form of a 32-bit value is one the dictionary never sees. */
  ghost function Expected(n: Node): Parsed {
    match n
    case IriNode(text) => Parsed(text, Iri, |text|)
    case BlankNode(name) => Parsed(name, Blank, |name|)
    case Literal(value, NoSuffix) => Parsed(Escape(value) + "\0", PlainLit, |Escape(value)|)
    case Literal(value, Lang(tag)) => Parsed(Escape(value) + "\0" + tag, LangLit, |Escape(value)|)
    case Literal(value, Datatype(iri)) =>
      var e := Escape(value);
      if iri == "http://www.w3.org/2001/XMLSchema#string" then Parsed(e + "\0", PlainLit, |e|)
      else if iri == "http://www.w3.org/2001/XMLSchema#integer" && DecimalI32(e) then
        Parsed(e + "\0" + iri, InlineInt, |e|)
      else Parsed(e + "\0" + iri, TypedLit, |e|)
  }

  lemma TermTextIsWritten(n: Node)
    requires WellFormed(n)
    ensures TermText(Lexical(n)) == Written(n)
  {
    hide Escape;
    hide LastIndex;
    match n
    case IriNode(text) =>
    case BlankNode(name) =>
      assert Lexical(n)[..2] == "_:";
    case Literal(value, suffix) =>
      SuffixQuoteFree(suffix, value);
      LiteralSplits(value, SuffixText(suffix));
  }

  lemma SuffixQuoteFree(suffix: Suffix, value: string)
    requires WellFormed(Literal(value, suffix))
    ensures '"' !in SuffixText(suffix) && '\n' !in SuffixText(suffix)
  {
  }

  lemma LiteralSplits(value: string, suffix: string)
    requires '"' !in suffix
    ensures TermText("\"" + value + "\"" + suffix) == "\"" + Escape(value) + "\"" + suffix
  {
    hide Escape;
    hide LastIndex;
    var term, rest := "\"" + value + "\"" + suffix, value + "\"" + suffix;
    assert term[1..] == rest;
    LastQuoteSplits(value, suffix);
    assert rest[..|value|] == value && rest[|value| + 1..] == suffix;
  }

  lemma LangTail(tag: string, y: string)
    requires BlankFree(tag) && (y == "" || IsBlank(y[0]))
    ensures ScanTail("@" + tag + y) == Some(Tail(LangLit, tag, 1 + |tag|))
  {
    hide TokenLen;
    var s := "@" + tag + y;
    assert s[1..] == tag + y;
    TokenWhole(tag, y);
    assert s[1..1 + |tag|] == tag;
  }

  lemma DatatypeTail(iri: string, y: string)
    requires '>' !in iri
    ensures ScanTail("^^<" + iri + ">" + y) == Some(Tail(TypedLit, iri, |iri| + 4))
  {
    hide Find;
    var s := "^^<" + iri + ">" + y;
    assert s == "^^" + ['<'] + (iri + ">" + y);
    FindHit("^^", '<', iri + ">" + y);
    assert s[3..] == iri + ['>'] + y;
    FindHit(iri, '>', y);
    assert s[3..3 + |iri|] == iri;
  }

  function ExpectedTail(suffix: Suffix): Tail {
    match suffix
    case NoSuffix => Tail(PlainLit, "", 0)
    case Lang(tag) => Tail(LangLit, tag, 1 + |tag|)
    case Datatype(iri) => Tail(TypedLit, iri, |iri| + 4)
  }

  lemma TailRecovered(suffix: Suffix, y: string)
    requires WellFormed(Literal("", suffix)) && y != "" && y[0] == ' '
    ensures ScanTail(SuffixText(suffix) + y) == Some(ExpectedTail(suffix))
    ensures ExpectedTail(suffix).len == |SuffixText(suffix)|
  {
    match suffix
    case NoSuffix => assert SuffixText(suffix) + y == y;
    case Lang(tag) =>
      hide ScanTail;
      LangTail(tag, y);
    case Datatype(iri) =>
      hide ScanTail;
      DatatypeTail(iri, y);
      assert SuffixText(suffix) + y == "^^<" + iri + ">" + y;
  }

  lemma IriRecovered(text: string, y: string, pos: Pos)
    requires '>' !in text
    ensures ScanHere("<" + text + ">" + y, pos) == Term(Parsed(text, Iri, |text|), |text| + 2)
  {
    hide Find;
    var s := "<" + text + ">" + y;
    assert s[1..] == text + ['>'] + y;
    FindHit(text, '>', y);
    assert s[1..1 + |text|] == text;
  }

  lemma BlankRecovered(name: string, y: string, pos: Pos)
    requires BlankFree(name) && y != "" && y[0] == ' '
    ensures ScanHere("_:" + name + y, pos) == Term(Parsed(name, Blank, |name|), |name| + 2)
  {
    hide TokenLen;
    var s := "_:" + name + y;
    TokenWhole("_:" + name, y);
    assert s[2..|name| + 2] == name;
  }

  /** The key, kind and lexical length of a literal, case by case. */
  lemma LiteralMeans(e: string, tag: string)
    ensures LiteralTerm(e, PlainLit, "") == Parsed(e + "\0", PlainLit, |e|)
    ensures LiteralTerm(e, LangLit, tag) == Parsed(e + "\0" + tag, LangLit, |e|)
    ensures LiteralTerm(e, TypedLit, tag) ==
              if tag == "http://www.w3.org/2001/XMLSchema#string" then Parsed(e + "\0", PlainLit, |e|)
              else if tag == "http://www.w3.org/2001/XMLSchema#integer" && DecimalI32(e) then
                Parsed(e + "\0" + tag, InlineInt, |e|)
              else Parsed(e + "\0" + tag, TypedLit, |e|)
  {
    CanonicalIsDecimal(e);
    hide IsCanonicalI32;
    hide DecimalI32;
    assert e + "\0" + "" == e + "\0";
    XsdApart();
  }

  lemma XsdApart()
    ensures XSD_STRING != XSD_INTEGER
  {
    assert |XSD_STRING| != |XSD_INTEGER|;
  }

  lemma LiteralRecovered(value: string, suffix: Suffix, y: string)
    requires WellFormed(Literal(value, suffix)) && y != "" && y[0] == ' '
    ensures ScanHere("\"" + Escape(value) + "\"" + SuffixText(suffix) + y, O) ==
              Term(LiteralTerm(Escape(value), ExpectedTail(suffix).kind, ExpectedTail(suffix).tag),
                   |Escape(value)| + 2 + |SuffixText(suffix)|)
  {
    hide ScanHere;
    hide Escape;
    hide CloseQuote;
    hide ScanTail;
    hide LiteralTerm;
    hide SuffixText;
    hide ExpectedTail;
    var e, rest := Escape(value), SuffixText(suffix) + y;
    CloseQuoteEscaped(value, rest);
    TailRecovered(suffix, y);
    QuotedScans(e, rest);
    assert "\"" + e + "\"" + SuffixText(suffix) + y == "\"" + e + "\"" + rest;
  }

  /** A quoted text whose closing quote and tail are known. */
  lemma QuotedScans(e: string, rest: string)
    requires CloseQuote(e + "\"" + rest) == Some(|e|) && ScanTail(rest).Some?
    ensures var tail := ScanTail(rest).value;
      ScanHere("\"" + e + "\"" + rest, O) == Term(LiteralTerm(e, tail.kind, tail.tag), |e| + 2 + tail.len)
  {
    hide CloseQuote;
    hide ScanTail;
    hide LiteralTerm;
    hide Find;
    hide TokenLen;
    QuoteCuts(e, rest);
    var s := "\"" + e + "\"" + rest;
    assert ScanHere(s, O) ==
           Term(LiteralTerm(s[1..1 + |e|], ScanTail(rest).value.kind, ScanTail(rest).value.tag),
                |e| + 2 + ScanTail(rest).value.len);
  }

  lemma QuoteCuts(e: string, rest: string)
    ensures var s := "\"" + e + "\"" + rest;
      |s| >= |e| + 2 && s[0] == '"' && s[1..] == e + "\"" + rest && s[1..1 + |e|] == e && s[|e| + 2..] == rest
  {
  }

  /** A written term followed by a space scans to exactly that term and stops exactly behind it. */
  lemma TermRecovered(n: Node, y: string, pos: Pos)
    requires WellFormed(n) && y != "" && y[0] == ' ' && (n.Literal? ==> pos == O)
    ensures ScanHere(Written(n) + y, pos) == Term(Expected(n), |Written(n)|)
  {
    hide ScanHere;
    hide Escape;
    match n
    case IriNode(text) => IriRecovered(text, y, pos);
    case BlankNode(name) => BlankRecovered(name, y, pos);
    case Literal(value, suffix) =>
      hide LiteralTerm;
      hide DecimalI32;
      LiteralRecovered(value, suffix, y);
      LiteralMeans(Escape(value), ExpectedTail(suffix).tag);
  }

  /** An angle-bracketed IRI is read back whole exactly when it contains no closing bracket. */
  lemma IriRecoveredIff(text: string, y: string, pos: Pos)
    ensures ScanHere("<" + text + ">" + y, pos) == Term(Parsed(text, Iri, |text|), |text| + 2) <==> '>' !in text
  {
    var s := "<" + text + ">" + y;
    assert s[1..] == text + ['>'] + y;
    if '>' !in text {
      FindHit(text, '>', y);
      assert s[1..1 + |text|] == text;
    } else {
      FindEarly(text, '>', ['>'] + y);
      assert s[1..] == text + (['>'] + y);
    }
  }

  lemma {:induction false} FindEarly(x: string, c: char, y: string)
    requires c in x
    ensures Find(x + y, c).Some? && Find(x + y, c).value < |x|
    decreases |x|
  {
    var s := x + y;
    if s[0] != c {
      assert s[1..] == x[1..] + y;
      FindEarly(x[1..], c, y);
    }
  }

  // ----- what the scanner makes of any text

  /** The character before `k` is a backslash that is not itself escaped. */
  ghost predicate Escaped(s: string, k: nat) {
    0 < k <= |s| && s[k - 1] == '\\' && !Escaped(s, k - 1)
  }

  /** The first quote that no backslash escapes. */
  ghost predicate ClosesAt(s: string, n: nat) {
    n < |s| && s[n] == '"' && !Escaped(s, n) && forall k: nat :: k < n && s[k] == '"' ==> Escaped(s, k)
  }

  lemma {:induction false} EscapedTail(s: string, step: nat, k: nat)
    requires step <= k <= |s| && !Escaped(s, step)
    ensures Escaped(s, k) <==> Escaped(s[step..], k - step)
    decreases k
  {
    if k > step {
      EscapedTail(s, step, k - 1);
      assert s[step..][k - step - 1] == s[k - 1];
    }
  }

  /** The scan for the closing quote finds the first unescaped one, and fails when there is none. */
  lemma {:induction false} CloseQuoteMeans(s: string)
    ensures CloseQuote(s).Some? ==> ClosesAt(s, CloseQuote(s).value)
    ensures CloseQuote(s) == None ==> forall k: nat :: k < |s| && s[k] == '"' ==> Escaped(s, k)
    decreases |s|
  {
    if s != "" && s[0] != '"' {
      var step := StepOver(s[0]);
      CloseQuoteStep(s);
      if |s| < step {
        assert |s| == 1;
      } else {
        CloseQuoteMeans(s[step..]);
        hide CloseQuote;
        assert !Escaped(s, 0) && !Escaped(s, step);
        forall k: nat | step <= k <= |s| ensures Escaped(s, k) <==> Escaped(s[step..], k - step) {
          EscapedTail(s, step, k);
        }
        assert step == 2 ==> Escaped(s, 1);
        forall k: nat | k < |s| && s[k] == '"' && k >= step ensures s[step..][k - step] == '"' {
        }
      }
    }
  }

  lemma CloseQuoteIff(s: string, n: nat)
    ensures CloseQuote(s) == Some(n) <==> ClosesAt(s, n)
  {
    CloseQuoteMeans(s);
  }

  lemma ClosedBy(e: string, rest: string)
    requires ClosesAt(e + "\"" + rest, |e|)
    ensures CloseQuote(e + "\"" + rest) == Some(|e|)
  {
    CloseQuoteIff(e + "\"" + rest, |e|);
  }

  /** Spaces and tabs in front of a term are passed over, and nothing else is. */
  lemma {:induction false} BlanksArePassedOver(b: string, u: string)
    requires forall k :: 0 <= k < |b| ==> b[k] == ' ' || b[k] == '\t'
    requires u == "" || (u[0] != ' ' && u[0] != '\t')
    ensures Blanks(b + u) == |b|
    decreases |b|
  {
    if b == "" {
      assert b + u == u;
    } else {
      BlanksArePassedOver(b[1..], u);
      assert (b + u)[1..] == b[1..] + u;
    }
  }

  lemma SuffixScanned(b: string, u: string, pos: Pos)
    requires forall k :: 0 <= k < |b| ==> b[k] == ' ' || b[k] == '\t'
    requires u == "" || (u[0] != ' ' && u[0] != '\t')
    ensures match ScanHere(u, pos)
      case Term(t, next) => ScanSuffix(b + u, pos) == Term(t, |b| + next)
      case Unparsable => ScanSuffix(b + u, pos) == Unparsable
      case Panic => ScanSuffix(b + u, pos) == Panic
  {
    BlanksArePassedOver(b, u);
    hide ScanHere;
    hide Blanks;
    assert (b + u)[|b|..] == u;
  }

  /** Any quoted text, as the object of a line, with neither a language nor a datatype behind it. */
  lemma PlainScanned(e: string, rest: string)
    requires ClosesAt(e + "\"" + rest, |e|)
    requires rest == "" || (rest[0] != '@' && !(|rest| >= 2 && rest[0] == '^' && rest[1] == '^'))
    ensures ScanHere("\"" + e + "\"" + rest, O) == Term(Parsed(e + "\0", PlainLit, |e|), |e| + 2)
  {
    ClosedBy(e, rest);
    assert ScanTail(rest) == Some(Tail(PlainLit, "", 0));
    hide CloseQuote;
    hide ScanTail;
    hide LiteralTerm;
    hide ScanHere;
    hide ClosesAt;
    QuotedScans(e, rest);
    LiteralMeans(e, "");
  }

  /** With a language tag, which runs to the next blank. */
  lemma LangScanned(e: string, tag: string, y: string)
    requires ClosesAt(e + "\"" + ("@" + tag + y), |e|) && BlankFree(tag) && (y == "" || IsBlank(y[0]))
    ensures ScanHere("\"" + e + "\"" + ("@" + tag + y), O) ==
              Term(Parsed(e + "\0" + tag, LangLit, |e|), |e| + 3 + |tag|)
  {
    var rest := "@" + tag + y;
    ClosedBy(e, rest);
    LangTail(tag, y);
    hide CloseQuote;
    hide ScanTail;
    hide LiteralTerm;
    hide ScanHere;
    hide ClosesAt;
    QuotedScans(e, rest);
    LiteralMeans(e, tag);
  }

  /** With a datatype: the first bracketed text behind the carets, whatever stands before it. */
  lemma TypedScanned(e: string, junk: string, iri: string, y: string)
    requires ClosesAt(e + "\"" + ("^^" + junk + "<" + iri + ">" + y), |e|) && '<' !in junk && '>' !in iri
    ensures ScanHere("\"" + e + "\"" + ("^^" + junk + "<" + iri + ">" + y), O) ==
              Term(if iri == "http://www.w3.org/2001/XMLSchema#string" then Parsed(e + "\0", PlainLit, |e|)
                   else if iri == "http://www.w3.org/2001/XMLSchema#integer" && DecimalI32(e) then
                     Parsed(e + "\0" + iri, InlineInt, |e|)
                   else Parsed(e + "\0" + iri, TypedLit, |e|),
                   |e| + |junk| + |iri| + 6)
  {
    var rest := "^^" + junk + "<" + iri + ">" + y;
    ClosedBy(e, rest);
    JunkTail(junk, iri, y);
    hide CloseQuote;
    hide ScanTail;
    hide LiteralTerm;
    hide ScanHere;
    hide DecimalI32;
    hide ClosesAt;
    QuotedScans(e, rest);
    LiteralMeans(e, iri);
  }

  lemma JunkTail(junk: string, iri: string, y: string)
    requires '<' !in junk && '>' !in iri
    ensures ScanTail("^^" + junk + "<" + iri + ">" + y) == Some(Tail(TypedLit, iri, |junk| + |iri| + 4))
  {
    hide Find;
    var s := "^^" + junk + "<" + iri + ">" + y;
    assert s == ("^^" + junk) + ['<'] + (iri + ">" + y);
    FindHit("^^" + junk, '<', iri + ">" + y);
    var a := |junk| + 2;
    assert s[a + 1..] == iri + ['>'] + y;
    FindHit(iri, '>', y);
    assert s[a + 1..a + 1 + |iri|] == iri;
  }

  /** A term that starts with an underscore and is not a panic: two characters are passed over. */
  lemma BlankScanned(c: char, name: string, y: string, pos: Pos)
    requires !IsBlank(c) && BlankFree(name) && (y == "" || IsBlank(y[0]))
    ensures ScanHere("_" + [c] + name + y, pos) == Term(Parsed(name, Blank, |name|), |name| + 2)
  {
    var s := "_" + [c] + name + y;
    assert s == ("_" + [c] + name) + y;
    TokenWhole("_" + [c] + name, y);
    hide TokenLen;
    assert s[2..|name| + 2] == name;
  }

  /** As an object a quoted text is unparsable exactly when its quote is never closed, or carets behind
      it are not followed by a bracketed text. */
  lemma QuotedUnparsableIff(u: string)
    ensures ScanHere("\"" + u, O) == Unparsable <==>
            (forall k: nat :: k < |u| && u[k] == '"' ==> Escaped(u, k)) ||
            exists n: nat :: ClosesAt(u, n) && BadDatatype(u[n + 1..])
  {
    hide ScanHere;
    hide ClosesAt;
    hide Escaped;
    hide BadDatatype;
    CloseQuoteMeans(u);
    QuotedFails(u);
    match CloseQuote(u)
    case None =>
      forall n: nat ensures !ClosesAt(u, n) {
        CloseQuoteIff(u, n);
      }
    case Some(n) =>
      ClosesHere(u, n);
      BadTailIff(u[n + 1..]);
      forall m: nat | ClosesAt(u, m) ensures m == n {
        CloseQuoteIff(u, m);
      }
  }

  lemma ClosesHere(u: string, n: nat)
    requires ClosesAt(u, n)
    ensures n < |u| && u[n] == '"' && !Escaped(u, n)
  {
  }

  lemma QuotedFails(u: string)
    ensures ScanHere("\"" + u, O) == Unparsable <==>
            CloseQuote(u) == None || ScanTail(u[CloseQuote(u).value + 1..]) == None
  {
    hide CloseQuote;
    hide ScanTail;
    hide LiteralTerm;
    hide Find;
    hide TokenLen;
    var s := "\"" + u;
    assert s[0] == '"' && s[1..] == u;
    if CloseQuote(u).Some? {
      assert s[CloseQuote(u).value + 2..] == u[CloseQuote(u).value + 1..];
    }
  }

  ghost predicate BadDatatype(rest: string) {
    && |rest| >= 2 && rest[0] == '^' && rest[1] == '^'
    && !exists a: nat, b: nat :: a < b < |rest| && rest[a] == '<' && rest[b] == '>'
  }

  lemma BadTailIff(rest: string)
    ensures ScanTail(rest) == None <==> BadDatatype(rest)
  {
    if |rest| >= 2 && rest[0] == '^' && rest[1] == '^' {
      FindFirst(rest, '<');
      match Find(rest, '<')
      case None =>
      case Some(a) =>
        FindFirst(rest[a + 1..], '>');
        if Find(rest[a + 1..], '>').Some? {
          var b := a + 1 + Find(rest[a + 1..], '>').value;
          assert rest[a] == '<' && rest[b] == '>';
        } else {
          forall c: nat, b: nat | c < b < |rest| && rest[c] == '<' ensures rest[b] != '>' {
            assert b > a ==> rest[a + 1..][b - a - 1] == rest[b];
          }
        }
    }
  }

  lemma {:induction false} FindFirst(s: string, c: char)
    ensures match Find(s, c)
      case None => c !in s
      case Some(n) => c !in s[..n]
    decreases |s|
  {
    if s != "" && s[0] != c {
      FindFirst(s[1..], c);
      assert s == [s[0]] + s[1..];
      if Find(s, c).Some? {
        var n := Find(s, c).value;
        assert s[..n] == [s[0]] + s[1..][..n - 1];
      }
    }
  }

  // ----- what the writer makes of any text

  /** Escaping works character by character, and touches five of them. */
  lemma {:induction false} EscapeJoins(a: string, b: string)
    ensures Escape(a + b) == Escape(a) + Escape(b)
    decreases |a|
  {
    if a == "" {
      assert a + b == b;
    } else {
      hide EscapeChar;
      EscapeJoins(a[1..], b);
      assert (a + b)[1..] == a[1..] + b;
      var e, x, y := EscapeChar(a[0]), Escape(a[1..]), Escape(b);
      assert Escape(a + b) == e + (x + y) && Escape(a) == e + x;
      hide Escape;
    }
  }

  lemma EscapeOne(c: char)
    ensures Escape("") == ""
    ensures Escape([c]) ==
              if c == '"' then ['\\', '"'] else if c == '\\' then ['\\', '\\'] else if c == '\n' then ['\\', 'n']
              else if c == '\r' then ['\\', 'r'] else if c == '\t' then ['\\', 't'] else [c]
  {
    assert [c][1..] == "";
  }

  /** How any term is written: a literal is split at its last quote, one without a second quote goes out
      as it is, as does a blank node, and all else is put in brackets. */
  lemma TermIsWrittenAs(term: string, value: string, suffix: string)
    ensures '"' !in suffix && term == "\"" + value + "\"" + suffix ==>
              TermText(term) == "\"" + Escape(value) + "\"" + suffix
    ensures term == "\"" + suffix && '"' !in suffix ==> TermText(term) == term
    ensures term == "_:" + suffix ==> TermText(term) == term
    ensures !("\"" <= term) && !("_:" <= term) ==> TermText(term) == "<" + term + ">"
  {
    if '"' !in suffix && term == "\"" + value + "\"" + suffix {
      LiteralSplits(value, suffix);
    }
    if term == "\"" + suffix && '"' !in suffix {
      assert term[1..] == suffix;
      NoLastIndex(suffix, '"');
    }
    if term == "_:" + suffix {
      assert term[..2] == "_:";
    }
    if |term| >= 2 && term[..2] == "_:" {
      assert "_:" <= term;
    }
    if term != "" && term[0] == '"' {
      assert "\"" <= term;
    }
  }

  /** How a file is put together: a triple whose subject starts with a quote is left out and counted,
      any other one is a line of its three terms, a space behind each, a full stop and a line feed. */
  lemma FileIsWrittenAs(t: Triple, ts: seq<Triple>)
    ensures t.s != "" && t.s[0] == '"' ==>
              FileText([t] + ts) == FileText(ts) && LiteralSubjects([t] + ts) == LiteralSubjects(ts) + 1
    ensures t.s == "" || t.s[0] != '"' ==>
              && FileText([t] + ts) ==
                   TermText(t.s) + " " + TermText(t.p) + " " + TermText(t.o) + " ." + "\n" + FileText(ts)
              && LiteralSubjects([t] + ts) == LiteralSubjects(ts)
    ensures FileText([]) == "" && LiteralSubjects([]) == 0
  {
    hide TermText;
    assert ([t] + ts)[1..] == ts && ([t] + ts)[0] == t;
  }

  lemma {:induction false} NoLastIndex(s: string, c: char)
    requires c !in s
    ensures LastIndex(s, c) == None
    decreases |s|
  {
    if s != "" {
      NoLastIndex(s[..|s| - 1], c);
    }
  }

  // ----- whole lines and files

  datatype Ending = Complete | Skipped | Aborted

  /** The terms of a line that were scanned and counted, and how the line ended. */
  datatype LineScan = LineScan(terms: seq<Parsed>, ending: Ending)

  /** Scan the positions in turn.  An unparsable one skips the rest of the line. */
  function ScanPositions(s: string, positions: seq<Pos>): LineScan
    decreases |positions|
  {
    if positions == [] then LineScan([], Complete)
    else
      match ScanSuffix(s, positions[0])
      case Term(t, i) =>
        var rest := ScanPositions(s[i..], positions[1..]);
        LineScan([t] + rest.terms, rest.ending)
      case Unparsable => LineScan([], Skipped)
      case Panic => LineScan([], Aborted)
  }

  function ScanLine(line: string): LineScan {
    ScanPositions(line, [S, P, O])
  }

  /** Lines are what a line feed ends; an unterminated remainder is not a line. */
  function Lines(s: string): seq<string> {
    match Find(s, '\n')
    case None => []
    case Some(n) => [s[..n]] + Lines(s[n + 1..])
  }

  datatype FileScan = FileScan(lines: seq<LineScan>, aborted: bool)

  /** Empty lines and comments are passed over; a panic ends the run. */
  function ReadLines(lines: seq<string>): FileScan {
    if lines == [] then FileScan([], false)
    else if lines[0] == "" || lines[0][0] == '#' then ReadLines(lines[1..])
    else
      var first := ScanLine(lines[0]);
      if first.ending.Aborted? then FileScan([first], true)
      else
        var rest := ReadLines(lines[1..]);
        FileScan([first] + rest.lines, rest.aborted)
  }

  datatype NodeTriple = NodeTriple(s: Node, p: Node, o: Node)

  /** Predicates are IRIs; a subject may be anything, since the engine works on generalized RDF. */
  predicate WellFormedTriple(t: NodeTriple) {
    WellFormed(t.s) && WellFormed(t.p) && WellFormed(t.o) && t.p.IriNode?
  }

  function Raw(ts: seq<NodeTriple>): seq<Triple> {
    if ts == [] then [] else [Triple(Lexical(ts[0].s), Lexical(ts[0].p), Lexical(ts[0].o))] + Raw(ts[1..])
  }

  ghost function ExpectedLine(t: NodeTriple): LineScan {
    LineScan([Expected(t.s), Expected(t.p), Expected(t.o)], Complete)
  }

  ghost function ExpectedTriples(ts: seq<NodeTriple>): seq<LineScan> {
    if ts == [] then [] else (if ts[0].s.Literal? then [] else [ExpectedLine(ts[0])]) + ExpectedTriples(ts[1..])
  }

  lemma WrittenStart(n: Node)
    ensures Written(n) != "" && !IsBlank(Written(n)[0]) && Written(n)[0] != '#'
  {
  }

  lemma FirstRecovered(n: Node, y: string, pos: Pos)
    requires WellFormed(n) && y != "" && y[0] == ' ' && (n.Literal? ==> pos == O)
    ensures ScanSuffix(Written(n) + y, pos) == Term(Expected(n), |Written(n)|)
    ensures ScanSuffix(" " + Written(n) + y, pos) == Term(Expected(n), |Written(n)| + 1)
  {
    hide ScanHere;
    hide Expected;
    WrittenStart(n);
    hide Written;
    TermRecovered(n, y, pos);
    var s, s' := Written(n) + y, " " + Written(n) + y;
    assert s[0] == Written(n)[0] && s[0..] == s;
    assert s'[1..] == s;
    assert Blanks(s) == 0;
    assert Blanks(s') == 1;
  }

  lemma LineRecovered(t: NodeTriple)
    requires WellFormedTriple(t) && !t.s.Literal?
    ensures ScanLine(Written(t.s) + " " + Written(t.p) + " " + Written(t.o) + " .") == ExpectedLine(t)
  {
    hide ScanSuffix;
    hide Expected;
    hide Written;
    var a, b, c := Written(t.s), Written(t.p), Written(t.o);
    var line := a + " " + b + " " + c + " .";
    var y1, y2 := " " + b + " " + c + " .", " " + c + " .";
    FirstRecovered(t.s, y1, S);
    assert line == a + y1;
    FirstRecovered(t.p, y2, P);
    assert line[|a|..] == " " + b + y2;
    FirstRecovered(t.o, " .", O);
    var s1 := line[|a|..];
    var s2 := s1[|b| + 1..];
    assert s2 == " " + c + " .";
    ThreePositions(line, s1, s2);
  }

  /** Three scanned positions make a complete line. */
  lemma ThreePositions(line: string, s1: string, s2: string)
    requires var r := ScanSuffix(line, S); r.Term? && s1 == line[r.next..]
    requires var r := ScanSuffix(s1, P); r.Term? && s2 == s1[r.next..]
    requires ScanSuffix(s2, O).Term?
    ensures ScanLine(line) ==
              LineScan([ScanSuffix(line, S).t, ScanSuffix(s1, P).t, ScanSuffix(s2, O).t], Complete)
  {
    hide ScanSuffix;
    var o := ScanSuffix(s2, O);
    assert [S, P, O][1..] == [P, O] && [P, O][1..] == [O] && [O][1..] == [];
    assert ScanPositions(s2, [O]) == LineScan([o.t] + [], Complete);
    assert ScanPositions(s1, [P, O]).terms == [ScanSuffix(s1, P).t] + [o.t];
  }

  lemma WrittenOneLine(n: Node)
    requires WellFormed(n)
    ensures '\n' !in Written(n)
  {
    hide Escape;
    match n
    case IriNode(_) =>
    case BlankNode(_) =>
    case Literal(value, suffix) =>
      EscapeOneLine(value);
      SuffixQuoteFree(suffix, value);
  }

  lemma LineTextIsWritten(t: NodeTriple)
    requires WellFormedTriple(t)
    ensures var raw := Triple(Lexical(t.s), Lexical(t.p), Lexical(t.o));
      && LineText(raw) == Written(t.s) + " " + Written(t.p) + " " + Written(t.o) + " ."
      && (LiteralSubject(raw) <==> t.s.Literal?)
      && '\n' !in LineText(raw)
  {
    hide TermText;
    TermTextIsWritten(t.s);
    TermTextIsWritten(t.p);
    TermTextIsWritten(t.o);
    WrittenOneLine(t.s);
    WrittenOneLine(t.p);
    WrittenOneLine(t.o);
  }

  lemma LinesCons(line: string, rest: string)
    requires '\n' !in line
    ensures Lines(line + "\n" + rest) == [line] + Lines(rest)
  {
    var s := line + "\n" + rest;
    FindHit(line, '\n', rest);
    assert s == line + ['\n'] + rest;
    assert s[..|line|] == line && s[|line| + 1..] == rest;
  }

  lemma ReadLinesCons(line: string, lines: seq<string>)
    requires line != "" && line[0] != '#' && !ScanLine(line).ending.Aborted?
    ensures ReadLines([line] + lines) == FileScan([ScanLine(line)] + ReadLines(lines).lines, ReadLines(lines).aborted)
  {
    hide ScanLine;
    assert ([line] + lines)[1..] == lines;
  }

  /** Reading a written file gives back every triple whose subject is not a literal, in order,
      with nothing added; and the writer's count is exactly what is missing. */
  lemma {:induction false} FileRoundTrip(ts: seq<NodeTriple>)
    requires forall k :: 0 <= k < |ts| ==> WellFormedTriple(ts[k])
    ensures ReadLines(Lines(FileText(Raw(ts)))) == FileScan(ExpectedTriples(ts), false)
    ensures |ExpectedTriples(ts)| + LiteralSubjects(Raw(ts)) == |ts|
    decreases |ts|
  {
    hide LineText;
    hide ScanLine;
    hide Lines;
    hide ReadLines;
    hide Lexical;
    hide Expected;
    hide LiteralSubject;
    hide Written;
    if ts == [] {
      NothingToRead();
    } else {
      var t, raw := ts[0], Raw(ts);
      var r0 := Triple(Lexical(t.s), Lexical(t.p), Lexical(t.o));
      FileRoundTrip(ts[1..]);
      assert raw[1..] == Raw(ts[1..]) && raw[0] == r0;
      LineTextIsWritten(t);
      if t.s.Literal? {
        assert FileText(raw) == FileText(raw[1..]);
      } else {
        LineRecovered(t);
        LinesCons(LineText(r0), FileText(raw[1..]));
        WrittenStart(t.s);
        assert LineText(r0)[0] == Written(t.s)[0];
        ReadLinesCons(LineText(r0), Lines(FileText(raw[1..])));
        assert FileText(raw) == LineText(r0) + "\n" + FileText(raw[1..]);
      }
    }
  }

  /** Empty lines and lines that start with a number sign are passed over. */
  lemma CommentsArePassedOver(line: string, lines: seq<string>)
    requires line == "" || line[0] == '#'
    ensures ReadLines([line] + lines) == ReadLines(lines)
  {
    assert ([line] + lines)[1..] == lines;
  }

  /** Any other line is scanned, and the lines after it too unless it ends the run. */
  lemma OthersAreScanned(line: string, lines: seq<string>)
    requires line != "" && line[0] != '#'
    ensures ReadLines([line] + lines) ==
              if ScanLine(line).ending == Aborted then FileScan([ScanLine(line)], true)
              else FileScan([ScanLine(line)] + ReadLines(lines).lines, ReadLines(lines).aborted)
  {
    hide ScanLine;
    assert ([line] + lines)[1..] == lines;
  }

  /** What is left behind the last line feed is not read. */
  lemma UnfinishedLineIsDropped(s: string)
    requires '\n' !in s
    ensures Lines(s) == []
  {
    FindFirst(s, '\n');
  }

  lemma NothingToRead()
    ensures ReadLines(Lines("")) == FileScan([], false)
  {
  }

  // ----- where the code and its documentation part

  /** The scanner panics, where its comment promises None, exactly on an underscore that ends the
      line or has a blank behind it. */
  lemma PanicsIff(s: string, pos: Pos)
    ensures ScanSuffix(s, pos) == Panic <==>
              var u := s[Blanks(s)..]; u != "" && u[0] == '_' && (|u| == 1 || IsBlank(u[1]))
  {
    hide CloseQuote;
    hide ScanTail;
    hide LiteralTerm;
    hide Find;
    hide Blanks;
    var u := s[Blanks(s)..];
    if u != "" && u[0] == '_' && |u| >= 2 {
      assert TokenLen(u) == 1 + TokenLen(u[1..]);
    }
  }

  /** A file with such a line ends the program at it, whatever follows. */
  lemma LoneUnderscoreAborts(rest: seq<string>)
    ensures ReadLines(["_ <p> <o> ."] + rest) == FileScan([LineScan([], Aborted)], true)
  {
    var line := "_ <p> <o> .";
    assert Blanks(line) == 0 && line[0..] == line;
    PanicsIff(line, S);
    assert ([line] + rest)[0] == line;
  }

  /** The text, blanks passed over, that no subject or predicate starts with. */
  predicate NoTermHere(u: string) {
    || u == ""
    || (u[0] != '<' && u[0] != '_')
    || (u[0] == '<' && '>' !in u[1..])
  }

  lemma {:induction false} FindIff(s: string, c: char)
    ensures Find(s, c).Some? <==> c in s
    decreases |s|
  {
    if s != "" {
      FindIff(s[1..], c);
      assert s == [s[0]] + s[1..];
    }
  }

  /** Away from the object position the scanner answers None exactly at the end of the line, on a
      bracket that is not closed, and on anything but a bracket or an underscore. */
  lemma UnparsableIff(s: string, pos: Pos)
    requires pos != O
    ensures ScanSuffix(s, pos) == Unparsable <==> NoTermHere(s[Blanks(s)..])
  {
    var u := s[Blanks(s)..];
    if u != "" {
      FindIff(u[1..], '>');
    }
  }

  /** A skipped line is not skipped altogether: the terms in front of the bad position have been
      counted.  It leaves nothing behind exactly when no term starts the line: the line is blank, its
      first character is neither a bracket nor an underscore, or the bracket is never closed. */
  lemma SkippedLeavesNothingIff(line: string)
    requires ScanLine(line).ending == Skipped
    ensures ScanLine(line).terms == [] <==> NoTermHere(line[Blanks(line)..])
    ensures |ScanLine(line).terms| < 3
  {
    hide ScanPositions;
    hide ScanSuffix;
    hide NoTermHere;
    UnparsableIff(line, S);
    SkippedEarly(line, [S, P, O]);
  }

  /** A skipped line has fewer terms than positions, and none exactly when the first does not scan. */
  lemma {:induction false} SkippedEarly(s: string, positions: seq<Pos>)
    requires ScanPositions(s, positions).ending == Skipped
    ensures positions != [] && |ScanPositions(s, positions).terms| < |positions|
    ensures ScanPositions(s, positions).terms == [] <==> ScanSuffix(s, positions[0]) == Unparsable
    decreases |positions|
  {
    hide ScanSuffix;
    if positions != [] {
      match ScanSuffix(s, positions[0])
      case Term(_, i) => SkippedEarly(s[i..], positions[1..]);
      case _ =>
    }
  }

  lemma SkippedLineIsPartlyCounted()
    ensures ScanLine("<s> junk") == LineScan([Parsed("s", Iri, 1)], Skipped)
  {
    hide ScanSuffix;
    SubjectScans();
    JunkDoesNotScan();
    assert "<s> junk"[3..] == " junk";
    assert [S, P, O][1..] == [P, O];
  }

  lemma SubjectScans()
    ensures ScanSuffix("<s> junk", S) == Term(Parsed("s", Iri, 1), 3)
  {
    var line := "<s> junk";
    FindHit("s", '>', " junk");
    assert line[1..] == "s" + ['>'] + " junk";
    assert line[1..2] == "s" && line[0..] == line;
  }

  lemma JunkDoesNotScan()
    ensures ScanSuffix(" junk", P) == Unparsable
  {
    var u := "junk";
    assert u[0] == 'j' && " " + u == " junk";
    OneBlank(u);
    UnparsableIff(" " + u, P);
  }

  lemma OneBlank(u: string)
    requires u != "" && !IsBlank(u[0])
    ensures Blanks(" " + u) == 1 && (" " + u)[1..] == u
  {
  }

  predicate Special(c: char) {
    c == '"' || c == '\\' || c == '\n' || c == '\r' || c == '\t'
  }

  lemma {:induction false} EscapeLength(value: string)
    ensures |Escape(value)| >= |value|
    ensures |Escape(value)| == |value| <==> forall k :: 0 <= k < |value| ==> !Special(value[k])
    ensures |Escape(value)| == |value| ==> Escape(value) == value
    decreases |value|
  {
    if value != "" {
      EscapeLength(value[1..]);
      assert value == [value[0]] + value[1..];
      assert |EscapeChar(value[0])| == 1 <==> !Special(value[0]);
    }
  }

  /** A literal passes through verbatim, as the writer's comment has it, exactly when its value
      holds no quote, backslash, line feed, carriage return or tab. */
  lemma VerbatimIff(value: string, suffix: string)
    requires '"' !in suffix
    ensures TermText("\"" + value + "\"" + suffix) == "\"" + value + "\"" + suffix <==>
            forall k :: 0 <= k < |value| ==> !Special(value[k])
  {
    var rest := value + "\"" + suffix;
    var term := "\"" + value + "\"" + suffix;
    LastQuoteSplits(value, suffix);
    assert term[1..] == rest && rest[..|value|] == value && rest[|value| + 1..] == suffix;
    hide Escape;
    EscapeLength(value);
    assert TermText(term) == "\"" + Escape(value) + "\"" + suffix;
    if |Escape(value)| != |value| {
      assert |TermText(term)| != |term|;
    }
  }

  /** A tab, for one, does not. */
  lemma TabIsRewritten()
    ensures TermText("\"a\tb\"") == "\"a\\tb\"" != "\"a\tb\""
  {
    LastQuoteSplits("a\tb", "");
    var term := "\"a\tb\"";
    assert term[1..] == "a\tb" + "\"" + "";
    assert term[1..][..3] == "a\tb" && term[1..][4..] == "";
    assert "a\tb"[1..] == "\tb" && "\tb"[1..] == "b" && "b"[1..] == "";
  }

  // ----- the loops

  /** A reused output line. */
  class Buffer {
    var text: string

    constructor ()
      ensures text == ""
    {
      text := "";
    }
  }

  lemma {:induction false} EscapeAppend(a: string, c: char)
    ensures Escape(a + [c]) == Escape(a) + EscapeChar(c)
    decreases |a|
  {
    hide EscapeChar;
    if a == "" {
      assert a + [c] == [c];
      assert Escape("") == "" && Escape([c]) == EscapeChar(c) + Escape([c][1..]);
    } else {
      assert (a + [c])[1..] == a[1..] + [c];
      EscapeAppend(a[1..], c);
    }
  }

  method EscapeNtLiteral(out: Buffer, value: string)
    modifies out
    ensures out.text == old(out.text) + Escape(value)
  {
    hide EscapeChar;
    hide Escape;
    var i := 0;
    EscapeEmpty();
    while i < |value|
      invariant 0 <= i <= |value| && out.text == old(out.text) + Escape(value[..i])
    {
      EscapeAppend(value[..i], value[i]);
      assert value[..i + 1] == value[..i] + [value[i]];
      out.text := out.text + EscapeChar(value[i]);
      i := i + 1;
    }
    assert value[..i] == value;
  }

  lemma EscapeEmpty()
    ensures Escape("") == ""
  {
  }

  method PushTerm(out: Buffer, term: string)
    modifies out
    ensures out.text == old(out.text) + TermText(term)
  {
    hide Escape;
    if term != "" && term[0] == '"' {
      var rest := term[1..];
      var close := LastIndex(rest, '"');
      LastIndexBound(rest, '"');
      if close.Some? {
        out.text := out.text + "\"";
        EscapeNtLiteral(out, rest[..close.value]);
        out.text := out.text + "\"" + rest[close.value + 1..];
      } else {
        out.text := out.text + term;
      }
    } else if |term| >= 2 && term[..2] == "_:" {
      out.text := out.text + term;
    } else {
      out.text := out.text + "<" + term + ">";
    }
  }

  lemma {:induction false} FileAppend(ts: seq<Triple>, t: Triple)
    ensures FileText(ts + [t]) == FileText(ts) + if LiteralSubject(t) then "" else LineText(t) + "\n"
    ensures LiteralSubjects(ts + [t]) == LiteralSubjects(ts) + if LiteralSubject(t) then 1 else 0
    decreases |ts|
  {
    hide LineText;
    hide LiteralSubject;
    if ts == [] {
      assert ts + [t] == [t] && [t][1..] == [];
    } else {
      assert (ts + [t])[1..] == ts[1..] + [t];
      FileAppend(ts[1..], t);
    }
  }

  /** Write every triple but those with a literal subject, which are counted. */
  method WriteNTriples(triples: seq<Triple>) returns (file: string, skipped: nat)
    ensures file == FileText(triples) && skipped == LiteralSubjects(triples)
  {
    hide FileText;
    hide LiteralSubjects;
    hide TermText;
    file, skipped := "", 0;
    var line := new Buffer();
    var i := 0;
    FileNone();
    while i < |triples|
      invariant 0 <= i <= |triples|
      invariant file == FileText(triples[..i]) && skipped == LiteralSubjects(triples[..i])
    {
      var t := triples[i];
      FileAppend(triples[..i], t);
      assert triples[..i + 1] == triples[..i] + [t];
      if t.s != "" && t.s[0] == '"' {
        skipped := skipped + 1;
      } else {
        line.text := "";
        PushTerm(line, t.s);
        line.text := line.text + " ";
        PushTerm(line, t.p);
        line.text := line.text + " ";
        PushTerm(line, t.o);
        assert line.text + " .\n" == LineText(t) + "\n";
        line.text := line.text + " .\n";
        file := file + line.text;
      }
      i := i + 1;
    }
    assert triples[..i] == triples;
  }

  lemma FileNone()
    ensures FileText([]) == "" && LiteralSubjects([]) == 0
  {
  }

  method SkipBlanks(line: string, start: nat) returns (i: nat)
    requires start <= |line|
    ensures start <= i <= |line| && i == start + Blanks(line[start..])
  {
    i := start;
    while i < |line| && IsBlank(line[i])
      invariant start <= i <= |line| && Blanks(line[start..]) == (i - start) + Blanks(line[i..])
    {
      assert line[i..][1..] == line[i + 1..];
      i := i + 1;
    }
  }

  method TokenEnd(line: string, start: nat) returns (end: nat)
    requires start <= |line|
    ensures start <= end <= |line| && end == start + TokenLen(line[start..])
  {
    end := start;
    while end < |line| && !IsBlank(line[end])
      invariant start <= end <= |line| && TokenLen(line[start..]) == (end - start) + TokenLen(line[end..])
    {
      assert line[end..][1..] == line[end + 1..];
      end := end + 1;
    }
  }

  method MemChr(line: string, c: char, from: nat) returns (r: Option<nat>)
    requires from <= |line|
    ensures r == match Find(line[from..], c) case None => None case Some(n) => Some(from + n)
  {
    var i := from;
    while i < |line| && line[i] != c
      invariant from <= i <= |line|
      invariant Find(line[from..], c) == match Find(line[i..], c) case None => None case Some(n) => Some(i - from + n)
    {
      assert line[i..][1..] == line[i + 1..];
      i := i + 1;
    }
    r := if i < |line| then Some(i) else None;
  }

  method FindCloseQuote(line: string, start: nat) returns (r: Option<nat>)
    requires start <= |line|
    ensures r == Moved(CloseQuote(line[start..]), start)
  {
    hide CloseQuote;
    var j := start;
    while j < |line| && line[j] != '"'
      invariant start <= j
      invariant j <= |line| ==> Moved(CloseQuote(line[start..]), start) == Moved(CloseQuote(line[j..]), j)
      invariant j > |line| ==> CloseQuote(line[start..]) == None
      decreases |line| - j
    {
      CloseQuoteStep(line[j..]);
      var step := StepOver(line[j]);
      assert j + step <= |line| ==> line[j..][step..] == line[j + step..];
      j := j + step;
    }
    if j <= |line| {
      CloseQuoteFound(line[j..]);
    }
    r := if j < |line| then Some(j) else None;
  }

  method ScanTag(line: string, k: nat) returns (r: Option<Tail>)
    requires k <= |line|
    ensures r == ScanTail(line[k..])
  {
    hide TokenLen;
    hide Find;
    ghost var s := line[k..];
    if k < |line| && line[k] == '@' {
      var te := TokenEnd(line, k + 1);
      assert s[1..] == line[k + 1..] && s[1..te - k] == line[k + 1..te];
      r := Some(Tail(LangLit, line[k + 1..te], te - k));
    } else if k + 1 < |line| && line[k] == '^' && line[k + 1] == '^' {
      r := ScanDatatype(line, k);
    } else {
      r := Some(Tail(PlainLit, "", 0));
    }
  }

  method ScanDatatype(line: string, k: nat) returns (r: Option<Tail>)
    requires k + 1 < |line| && line[k] == '^' && line[k + 1] == '^'
    ensures r == ScanTail(line[k..])
  {
    hide TokenLen;
    hide Find;
    ghost var s := line[k..];
    assert s[0] == '^' && s[1] == '^';
    var lt := MemChr(line, '<', k);
    if lt == None {
      return None;
    }
    var ts := lt.value + 1;
    assert s[ts - k..] == line[ts..];
    var te := MemChr(line, '>', ts);
    if te == None {
      return None;
    }
    assert s[ts - k..te.value - k] == line[ts..te.value];
    r := Some(Tail(TypedLit, line[ts..te.value], te.value + 1 - k));
  }

  method ScanQuoted(line: string, i: nat) returns (r: Scan)
    requires i < |line| && line[i] == '"'
    ensures r == Shift(ScanHere(line[i..], O), i)
  {
    hide CloseQuote;
    hide ScanTail;
    hide LiteralTerm;
    ghost var s := line[i..];
    assert s[0] == '"' && s[1..] == line[i + 1..];
    var j := FindCloseQuote(line, i + 1);
    if j == None {
      return Unparsable;
    }
    var end := j.value;
    assert s[end + 1 - i..] == line[end + 1..];
    assert s[1..end - i] == line[i + 1..end];
    var tail := ScanTag(line, end + 1);
    if tail == None {
      return Unparsable;
    }
    r := Term(LiteralTerm(line[i + 1..end], tail.value.kind, tail.value.tag), end + 1 + tail.value.len);
  }

  method ScanIri(line: string, i: nat, pos: Pos) returns (r: Scan)
    requires i < |line| && line[i] == '<'
    ensures r == Shift(ScanHere(line[i..], pos), i)
  {
    hide Find;
    ghost var s := line[i..];
    assert s[0] == '<' && s[1..] == line[i + 1..];
    var end := MemChr(line, '>', i + 1);
    if end == None {
      return Unparsable;
    }
    assert s[1..end.value - i] == line[i + 1..end.value];
    r := Term(Parsed(line[i + 1..end.value], Iri, end.value - (i + 1)), end.value + 1);
  }

  method ScanBlank(line: string, i: nat, pos: Pos) returns (r: Scan)
    requires i < |line| && line[i] == '_'
    ensures r == Shift(ScanHere(line[i..], pos), i)
  {
    hide TokenLen;
    ghost var s := line[i..];
    assert s[0] == '_';
    var end := TokenEnd(line, i);
    if end < i + 2 {
      return Panic;
    }
    assert s[2..end - i] == line[i + 2..end];
    r := Term(Parsed(line[i + 2..end], Blank, end - (i + 2)), end);
  }

  /** Scan one term at or after `start`; on success also the index just past it. */
  method ScanTerm(line: string, start: nat, pos: Pos) returns (r: Scan)
    requires start <= |line|
    ensures r == Shift(ScanSuffix(line[start..], pos), start)
  {
    hide Blanks;
    hide TokenLen;
    hide Find;
    hide CloseQuote;
    hide ScanTail;
    hide LiteralTerm;
    var i := SkipBlanks(line, start);
    assert line[start..][i - start..] == line[i..];
    if i >= |line| {
      return Unparsable;
    }
    assert line[i..][0] == line[i];
    if line[i] == '<' {
      r := ScanIri(line, i, pos);
    } else if line[i] == '_' {
      r := ScanBlank(line, i, pos);
    } else if line[i] == '"' && pos == O {
      r := ScanQuoted(line, i);
    } else {
      r := Unparsable;
    }
  }
}
