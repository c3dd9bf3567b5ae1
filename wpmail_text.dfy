/**
 * The text handling of WPMail (src/WPMail.php): its private static helpers
 * trim() and formatEmail(), the parsing of a header block (parseHeaders()),
 * the reading of a `content-type` header, the fallback sender of
 * setSender(), and the shape of the attachments argument.
 */
module WPMailText {
  import opened Wrappers
  import Php
  import OrderedMap
  import opened Mailer

  /** PHPMailer::CRLF, the line break between header lines. */
  const CRLF: string := "\r\n"

  /** PHPMailer::CONTENT_TYPE_PLAINTEXT, the initial content type. */
  const ContentTypePlain: string := "text/plain"

  /** PHPMailer::CHARSET_UTF8, the initial character set. */
  const CharsetUtf8: string := "utf-8"

  /** A wp_mail() argument that is either a string or an array of strings. */
  datatype TextOrList = Text(text: string) | List(items: seq<string>)

  /** empty() on such an argument; a missing or null argument is Text(""). */
  predicate IsEmpty(v: TextOrList) {
    match v
    case Text(s) => Php.Falsy(s)
    case List(items) => |items| == 0
  }

  // ---------------------------------------------------------------------
  // WPMail::trim

  /** Neither end of `s` is a character trim() strips. */
  predicate Trimmed(s: string) {
    s == [] || (s[0] !in Php.TrimChars && s[|s| - 1] !in Php.TrimChars)
  }

  /** What WPMail::trim produces: no double whitespace and trimmed ends. */
  predicate Tidy(s: string) {
    Php.NoDoubleSpace(s) && Trimmed(s)
  }

  /**
   * WPMail::trim: every run of two or more whitespace characters becomes a
   * single space, then trim() strips both ends.
   */
  function Trim(s: string): (r: string)
    ensures Tidy(r)
    ensures |r| <= |s|
    ensures forall c :: c in r ==> c == ' ' || c in s
  {
    var c := Php.CollapseSpaces(s);
    TrimOfCollapsed(c);
    Php.Trim(c, Php.TrimChars)
  }

  /** trim() of a string without double whitespace is tidy and takes its characters from it. */
  lemma TrimOfCollapsed(c: string)
    requires Php.NoDoubleSpace(c)
    ensures Tidy(Php.Trim(c, Php.TrimChars))
    ensures forall x :: x in Php.Trim(c, Php.TrimChars) ==> x in c
  {
    Php.TrimNoDoubleSpace(c, Php.TrimChars);
    ValueShape(c);
    Php.TrimSubset(c, Php.TrimChars);
  }

  /** A string is left unchanged exactly when it is already tidy. */
  lemma TrimFixpoint(s: string)
    ensures Trim(s) == s <==> Tidy(s)
  {
    if Tidy(s) {
      Php.CollapseFixpoint(s);
      Php.TrimOfTrimmed(s, Php.TrimChars);
    }
  }

  /** Trimming twice is trimming once. */
  lemma TrimIdempotent(s: string)
    ensures Trim(Trim(s)) == Trim(s)
  {
    TrimFixpoint(Trim(s));
  }

  /** Only whitespace is dropped or replaced: every glyph survives, in order. */
  lemma TrimKeepsGlyphs(s: string)
    ensures Php.Glyphs(Trim(s)) == Php.Glyphs(s)
  {
    Php.CollapseKeepsGlyphs(s);
    Php.TrimKeepsGlyphs(Php.CollapseSpaces(s));
  }

  /** A non-empty tidy string that starts and ends with a glyph. */
  predicate Clean(s: string) {
    |s| > 0 && Php.NoDoubleSpace(s) && Php.IsGlyph(s[0]) && Php.IsGlyph(s[|s| - 1])
  }

  /** A single whitespace character between two clean words is kept as it is. */
  lemma TrimKeepsLoneSpace(a: string, c: char, b: string)
    requires Clean(a) && Clean(b) && Php.IsSpace(c)
    ensures Trim(a + [c] + b) == a + [c] + b
  {
    Php.NoDoubleSpaceConcat(a, [c]);
    Php.NoDoubleSpaceConcat(a + [c], b);
    TrimFixpoint(a + [c] + b);
  }

  /** trim() removes a single leading space from a trimmed string. */
  lemma PhpTrimLeadingSpace(v: string)
    requires Trimmed(v)
    ensures Php.Trim(" " + v, Php.TrimChars) == v
  {
    Php.LTrimCons(' ', v, Php.TrimChars);
    assert " " + v == [' '] + v;
    Php.TrimOfTrimmed(v, Php.TrimChars);
  }

  /** WPMail::trim removes a single leading space from a clean string. */
  lemma TrimLeadingSpace(v: string)
    requires Clean(v)
    ensures Trim(" " + v) == v
  {
    var s := " " + v;
    Php.NoDoubleSpaceConcat(" ", v);
    Php.CollapseFixpoint(s);
    PhpTrimLeadingSpace(v);
  }

  // ---------------------------------------------------------------------
  // WPMail::parseHeaders

  /** The header block as one string: an array is imploded with CRLF. */
  function HeaderBlock(headers: TextOrList): string {
    match headers
    case Text(s) => s
    case List(lines) => Php.Implode(CRLF, lines)
  }

  /** array_filter() on strings: the ones that are not empty(), in order. */
  function NonEmpty(xs: seq<string>): (r: seq<string>)
    ensures |r| <= |xs|
    ensures forall x :: x in r <==> x in xs && !Php.Falsy(x)
  {
    if |xs| == 0 then []
    else
      assert xs == [xs[0]] + xs[1..];
      (if Php.Falsy(xs[0]) then [] else [xs[0]]) + NonEmpty(xs[1..])
  }

  /** array_filter() of a single string: kept unless it is empty(). */
  lemma NonEmptySingle(x: string)
    ensures NonEmpty([x]) == if Php.Falsy(x) then [] else [x]
  {
    assert [x][1..] == [];
  }

  /**
   * array_filter() works line by line: filtering a concatenation is
   * filtering each part, so the survivors keep their order and repeats.
   */
  lemma {:induction false} NonEmptyAppend(a: seq<string>, b: seq<string>)
    ensures NonEmpty(a + b) == NonEmpty(a) + NonEmpty(b)
  {
    if |a| > 0 {
      var x, rest := a[0], a[1..];
      var head := if Php.Falsy(x) then [] else [x];
      calc {
        NonEmpty(a + b);
        { assert a + b == [x] + (rest + b); }
        NonEmpty([x] + (rest + b));
        { NonEmptyCons(x, rest + b); }
        head + NonEmpty(rest + b);
        { NonEmptyAppend(rest, b); }
        head + (NonEmpty(rest) + NonEmpty(b));
        (head + NonEmpty(rest)) + NonEmpty(b);
        { assert a == [x] + rest; NonEmptyCons(x, rest); }
        NonEmpty(a) + NonEmpty(b);
      }
    } else {
      assert a + b == b;
    }
  }

  /** array_filter() of a list with a first line. */
  lemma NonEmptyCons(x: string, rest: seq<string>)
    ensures NonEmpty([x] + rest) == (if Php.Falsy(x) then [] else [x]) + NonEmpty(rest)
  {
    assert ([x] + rest)[1..] == rest;
  }

  /** A list without empty() strings passes array_filter() unchanged. */
  lemma {:induction false} NonEmptyKeepsAll(xs: seq<string>)
    requires forall x :: x in xs ==> !Php.Falsy(x)
    ensures NonEmpty(xs) == xs
  {
    if |xs| > 0 {
      assert xs[0] in xs;
      NonEmptyKeepsAll(xs[1..]);
      assert xs == [xs[0]] + xs[1..];
    }
  }

  /**
   * The lines parseHeaders() visits: the block, passed through PHPMailer's
   * DKIM_HeaderC (a parameter here), exploded at CRLF, empty lines dropped.
   */
  function HeaderLines(headerC: string -> string, headers: TextOrList): seq<string> {
    NonEmpty(Php.Explode(CRLF, headerC(HeaderBlock(headers))))
  }

  /**
   * One header line: `explode(':', trim($line), 2)`, the name trimmed and
   * lower-cased, the content trimmed; a line without a colon has no content.
   */
  function SplitHeaderLine(line: string): (string, string) {
    SplitAtColon(Trim(line))
  }

  /** The split of an already tidied line at its first colon. */
  function SplitAtColon(t: string): (string, string) {
    match Php.IndexOf(t, ":")
    case None => (Php.Lower(Php.Trim(t, Php.TrimChars)), "")
    case Some(i) =>
      (Php.Lower(Php.Trim(t[..i], Php.TrimChars)), Php.Trim(t[i + 1..], Php.TrimChars))
  }

  /** The shape of a parsed header: a trimmed lower-case name without a colon, a trimmed value. */
  predicate HeaderShape(h: (string, string)) {
    ':' !in h.0 && Php.IsLower(h.0) && Trimmed(h.0) && Trimmed(h.1)
  }

  /** A name without a colon comes out trimmed, lower-case and without a colon. */
  lemma NameShape(x: string)
    requires ':' !in x
    ensures var n := Php.Lower(Php.Trim(x, Php.TrimChars));
      ':' !in n && Php.IsLower(n) && Trimmed(n)
  {
    var y := Php.Trim(x, Php.TrimChars);
    Php.TrimSubset(x, Php.TrimChars);
    Php.LowerKeepsOthers(y, ':');
    Php.LowerIsLower(y);
    LowerKeepsTrimmed(y);
  }

  /** strtolower() does not touch the characters trim() strips. */
  lemma LowerKeepsTrimmed(y: string)
    requires Trimmed(y)
    ensures Trimmed(Php.Lower(y))
  {
    if y != [] {
      assert Php.Lower(y)[0] == Php.LowerChar(y[0]);
      assert Php.Lower(y)[|y| - 1] == Php.LowerChar(y[|y| - 1]);
    }
  }

  /** No colon stands before the first one. */
  lemma BeforeFirstColon(t: string, i: nat)
    requires Php.IndexOf(t, ":") == Some(i)
    ensures ':' !in t[..i]
  {
    forall j | 0 <= j < i ensures t[j] != ':' {
      if t[j] == ':' {
        assert t[j..j + 1] == ":";
        assert Php.MatchAt(t, ":", j);
      }
    }
  }

  /** A line without a colon is still without one after WPMail::trim. */
  lemma NoColonAfterTrim(line: string)
    requires ':' !in line
    ensures Php.IndexOf(Trim(line), ":") == None
  {
    Php.ContainsChar(Trim(line), ':');
  }

  /** A tidied line splits into a well-shaped header; without a colon its value is empty. */
  lemma SplitAtColonShape(t: string)
    ensures HeaderShape(SplitAtColon(t))
    ensures Php.IndexOf(t, ":") == None ==> SplitAtColon(t).1 == ""
  {
    match Php.IndexOf(t, ":")
    case None => ShapeWithoutColon(t);
    case Some(i) => ShapeWithColon(t, i);
  }

  /** A line without a colon is all name. */
  lemma ShapeWithoutColon(t: string)
    requires Php.IndexOf(t, ":") == None
    ensures HeaderShape((Php.Lower(Php.Trim(t, Php.TrimChars)), ""))
  {
    Php.ContainsChar(t, ':');
    NameShape(t);
  }

  /** A line with a colon splits at its first one. */
  lemma ShapeWithColon(t: string, i: nat)
    requires Php.IndexOf(t, ":") == Some(i)
    ensures i < |t|
    ensures HeaderShape((Php.Lower(Php.Trim(t[..i], Php.TrimChars)), Php.Trim(t[i + 1..], Php.TrimChars)))
  {
    assert Php.MatchAt(t, ":", i);
    BeforeFirstColon(t, i);
    NameShape(t[..i]);
    ValueShape(t[i + 1..]);
  }

  /** trim() leaves a value trimmed. */
  lemma ValueShape(v: string)
    ensures Trimmed(Php.Trim(v, Php.TrimChars))
  {
    var r := Php.Trim(v, Php.TrimChars);
    assert r == [] || (r[0] !in Php.TrimChars && r[|r| - 1] !in Php.TrimChars);
  }

  /** Every header line splits into a well-shaped header; without a colon its value is empty. */
  lemma HeaderLineShape(line: string)
    ensures HeaderShape(SplitHeaderLine(line))
    ensures ':' !in line ==> SplitHeaderLine(line).1 == ""
  {
    SplitAtColonShape(Trim(line));
    if ':' !in line {
      NoColonAfterTrim(line);
    }
  }

  /**
   * A header written as "name:value", the form relaxed header
   * canonicalisation (section 3.4.2 of RFC 6376) gives every header line.
   */
  function FormatHeader(h: (string, string)): string {
    h.0 + ":" + h.1
  }

  /**
   * The names and values that survive a round trip through a header line:
   * no line break, a lower-case name without a colon, and a value without
   * tabs (relaxed canonicalisation turns a tab into a space).
   */
  predicate Writable(h: (string, string)) {
    && Clean(h.0) && ':' !in h.0 && Php.IsLower(h.0) && '\r' !in h.0 && '\n' !in h.0
    && Clean(h.1) && '\r' !in h.1 && '\n' !in h.1 && '\t' !in h.1
  }

  /**
   * A header line that relaxed canonicalisation (section 3.4.2 of RFC 6376,
   * PHPMailer's DKIM_HeaderC) leaves as it is: no line break, a colon, a
   * name without capitals and without a space or tab at either end, and a
   * value without tabs, without a run of spaces and without a space at
   * either end.
   */
  predicate RelaxedLine(line: string) {
    && '\r' !in line && '\n' !in line
    && match Php.IndexOf(line, ":")
       case None => false
       case Some(i) => RelaxedName(line[..i]) && RelaxedValue(line[i + 1..])
  }

  predicate RelaxedName(n: string) {
    Php.IsLower(n) && (n == [] || (n[0] !in {' ', '\t'} && n[|n| - 1] !in {' ', '\t'}))
  }

  predicate RelaxedValue(v: string) {
    && '\t' !in v
    && (forall i :: 0 <= i < |v| - 1 ==> !(v[i] == ' ' && v[i + 1] == ' '))
    && (v == [] || (v[0] != ' ' && v[|v| - 1] != ' '))
  }

  /** A header canonicalisation that leaves blocks of relaxed-canonical lines unchanged. */
  ghost predicate FixesRelaxed(headerC: string -> string) {
    forall lines: seq<string> :: (forall l :: l in lines ==> RelaxedLine(l)) ==>
      headerC(Php.Implode(CRLF, lines)) == Php.Implode(CRLF, lines)
  }

  /** A written header is already in relaxed canonical form. */
  lemma FormattedRelaxed(h: (string, string))
    requires Writable(h)
    ensures RelaxedLine(FormatHeader(h))
  {
    var line := h.0 + ":" + h.1;
    Php.IndexOfAfter(h.0, ":", h.1);
    assert line[..|h.0|] == h.0;
    assert line[|h.0| + 1..] == h.1;
    assert Php.IsSpace(' ') && Php.IsSpace('\t');
    assert RelaxedName(h.0);
    assert RelaxedValue(h.1);
  }

  /** "name:value" is read back as (name, value). */
  lemma SplitFormatted(name: string, value: string)
    requires Clean(name) && ':' !in name && Php.IsLower(name) && Clean(value)
    ensures SplitHeaderLine(name + ":" + value) == (name, value)
  {
    var line := name + ":" + value;
    Php.NoDoubleSpaceConcat(name, ":");
    Php.NoDoubleSpaceConcat(name + ":", value);
    assert Tidy(line);
    TrimFixpoint(line);
    SplitAtFirstColon(name, value);
    Php.TrimOfTrimmed(name, Php.TrimChars);
    Php.TrimOfTrimmed(value, Php.TrimChars);
    Php.LowerOfLower(name);
  }

  /** "name: value", as headers are usually written, is read back as (name, value) too. */
  lemma SplitSpaced(name: string, value: string)
    requires Clean(name) && ':' !in name && Php.IsLower(name) && Clean(value)
    ensures SplitHeaderLine(name + ": " + value) == (name, value)
  {
    var line := name + ":" + (" " + value);
    assert line == name + ": " + value;
    FormattedTidy(name, value);
    TrimFixpoint(line);
    SplitAtFirstColon(name, " " + value);
    Php.TrimOfTrimmed(name, Php.TrimChars);
    Php.LowerOfLower(name);
    PhpTrimLeadingSpace(value);
  }

  /** "name: value" built from clean parts is already tidy. */
  lemma FormattedTidy(name: string, value: string)
    requires Clean(name) && Clean(value)
    ensures Tidy(name + ":" + (" " + value))
  {
    Php.NoDoubleSpaceConcat(name, ":");
    Php.NoDoubleSpaceConcat(" ", value);
    Php.NoDoubleSpaceConcat(name + ":", " " + value);
  }

  /** A line splits at the colon that follows a colon-free name. */
  lemma SplitAtFirstColon(name: string, rest: string)
    requires ':' !in name
    ensures SplitAtColon(name + ":" + rest)
         == (Php.Lower(Php.Trim(name, Php.TrimChars)), Php.Trim(rest, Php.TrimChars))
  {
    var line := name + ":" + rest;
    Php.IndexOfAfter(name, ":", rest);
    assert line[..|name|] == name;
    assert line[|name| + 1..] == rest;
  }

  /** Each line split on its own. */
  function SplitAll(lines: seq<string>): seq<(string, string)> {
    seq(|lines|, i requires 0 <= i < |lines| => SplitHeaderLine(lines[i]))
  }

  /**
   * parseHeaders(): the headers as a PHP array keyed by lower-case name;
   * a repeated name keeps its first position and its last value.
   */
  function ParseHeaders(headerC: string -> string, headers: TextOrList): (m: OrderedMap.Entries)
    ensures OrderedMap.UniqueKeys(m)
  {
    OrderedMap.FromPairs(SplitAll(HeaderLines(headerC, headers)))
  }

  /** Every parsed header is well shaped. */
  lemma ParseHeadersShape(headerC: string -> string, headers: TextOrList)
    ensures forall h :: h in ParseHeaders(headerC, headers) ==> HeaderShape(h)
  {
    var hs := SplitAll(HeaderLines(headerC, headers));
    forall h | h in hs ensures HeaderShape(h) {
      var i :| 0 <= i < |hs| && hs[i] == h;
      HeaderLineShape(HeaderLines(headerC, headers)[i]);
    }
  }

  /** A repeated header name takes the value of its last line. */
  lemma ParseHeadersLastWins(headerC: string -> string, headers: TextOrList, name: string)
    ensures OrderedMap.Get(ParseHeaders(headerC, headers), name)
         == OrderedMap.LastValue(SplitAll(HeaderLines(headerC, headers)), name)
  {
    OrderedMap.FromPairsLastWins(SplitAll(HeaderLines(headerC, headers)), name);
  }

  /** Each header name stands where it first occurred. */
  lemma ParseHeadersOrder(headerC: string -> string, headers: TextOrList)
    ensures OrderedMap.Keys(ParseHeaders(headerC, headers))
         == OrderedMap.FirstOccurrences(OrderedMap.Keys(SplitAll(HeaderLines(headerC, headers))))
  {
    OrderedMap.FromPairsFirstPosition(SplitAll(HeaderLines(headerC, headers)));
  }

  /** Headers written one per line. */
  function FormatHeaders(hs: seq<(string, string)>): seq<string> {
    seq(|hs|, i requires 0 <= i < |hs| => FormatHeader(hs[i]))
  }

  /**
   * Headers with distinct names, written one per line and imploded with
   * CRLF, are parsed back as they were, for a DKIM_HeaderC that, like
   * relaxed canonicalisation, leaves relaxed-canonical lines as they are.
   */
  lemma ParseFormattedHeaders(headerC: string -> string, hs: seq<(string, string)>)
    requires OrderedMap.UniqueKeys(hs)
    requires forall h :: h in hs ==> Writable(h)
    requires FixesRelaxed(headerC)
    ensures ParseHeaders(headerC, List(FormatHeaders(hs))) == hs
  {
    var lines := FormatHeaders(hs);
    forall l | l in lines ensures RelaxedLine(l) {
      var i :| 0 <= i < |hs| && lines[i] == l;
      assert hs[i] in hs;
      FormattedRelaxed(hs[i]);
    }
    assert headerC(Php.Implode(CRLF, lines)) == Php.Implode(CRLF, lines);
    if |hs| == 0 {
      assert Php.Explode(CRLF, "") == [""];
    } else {
      FormattedLinesSplit(hs);
      Php.ExplodeImplode(CRLF, lines);
      NonEmptyKeepsAll(lines);
      SplitAllFormatted(hs);
      OrderedMap.FromPairsDistinct(hs);
    }
  }

  /** A written header holds no CR and is never empty(). */
  lemma FormattedLinesSplit(hs: seq<(string, string)>)
    requires forall h :: h in hs ==> Writable(h)
    ensures forall p :: p in FormatHeaders(hs) ==> CRLF[0] !in p && !Php.Falsy(p)
  {
    var lines := FormatHeaders(hs);
    forall p | p in lines ensures CRLF[0] !in p && !Php.Falsy(p) {
      var i :| 0 <= i < |hs| && lines[i] == p;
      assert hs[i] in hs;
    }
  }

  /** Each written header line is split back into its header. */
  lemma SplitAllFormatted(hs: seq<(string, string)>)
    requires forall h :: h in hs ==> Writable(h)
    ensures SplitAll(FormatHeaders(hs)) == hs
  {
    var lines := FormatHeaders(hs);
    forall i | 0 <= i < |hs| ensures SplitAll(lines)[i] == hs[i] {
      assert hs[i] in hs;
      SplitFormatted(hs[i].0, hs[i].1);
    }
  }

  // ---------------------------------------------------------------------
  // WPMail::formatEmail

  /** The pieces formatEmail() parses: a string is exploded at every comma. */
  function AddressPieces(address: TextOrList): seq<string> {
    match address
    case Text(s) => Php.Explode(",", s)
    case List(items) => items
  }

  /**
   * array_merge() of the parsed pieces, in order; `parse` stands for
   * PHPMailer::parseAddresses. Skipping an empty result, as the source
   * does, merges the same addresses.
   */
  function MergeParsed(parse: string -> seq<Address>, items: seq<string>): seq<Address> {
    if |items| == 0 then []
    else MergeParsed(parse, items[..|items| - 1]) + parse(items[|items| - 1])
  }

  /** An address is merged exactly when some piece yields it. */
  lemma {:induction false} MergeParsedMembers(parse: string -> seq<Address>, items: seq<string>)
    ensures forall a :: a in MergeParsed(parse, items) <==>
      exists i :: 0 <= i < |items| && a in parse(items[i])
    decreases |items|
  {
    if |items| > 0 {
      var init := items[..|items| - 1];
      MergeParsedMembers(parse, init);
      assert forall i :: 0 <= i < |init| ==> init[i] == items[i];
    }
  }

  /** formatEmail(): every address parsed out of a string or an array of strings. */
  function FormatEmail(parse: string -> seq<Address>, address: TextOrList): seq<Address> {
    MergeParsed(parse, AddressPieces(address))
  }

  lemma {:induction false} MergeParsedAppend(parse: string -> seq<Address>, a: seq<string>, b: seq<string>)
    ensures MergeParsed(parse, a + b) == MergeParsed(parse, a) + MergeParsed(parse, b)
    decreases |b|
  {
    if |b| == 0 {
      assert a + b == a;
    } else {
      var init := b[..|b| - 1];
      assert (a + b)[..|a + b| - 1] == a + init;
      assert (a + b)[|a + b| - 1] == b[|b| - 1];
      MergeParsedAppend(parse, a, init);
    }
  }

  /** The result is empty exactly when no piece yields an address. */
  lemma FormatEmailEmpty(parse: string -> seq<Address>, address: TextOrList)
    ensures FormatEmail(parse, address) == [] <==>
      forall p :: p in AddressPieces(address) ==> parse(p) == []
  {
    var pieces := AddressPieces(address);
    var r := FormatEmail(parse, address);
    MergeParsedMembers(parse, pieces);
    if r != [] {
      assert r[0] in r;
    }
    if p :| p in pieces && parse(p) != [] {
      var i :| 0 <= i < |pieces| && pieces[i] == p;
      assert parse(pieces[i])[0] in r;
    }
  }

  /** A string without a comma is parsed whole. */
  lemma FormatEmailSingle(parse: string -> seq<Address>, s: string)
    requires ',' !in s
    ensures FormatEmail(parse, Text(s)) == parse(s)
  {
    Php.ContainsChar(s, ',');
    assert Php.IndexOf(s, ",") == None;
    assert Php.Explode(",", s) == [s];
    assert [s][..0] == [];
    assert MergeParsed(parse, [s]) == MergeParsed(parse, []) + parse(s);
  }

  /** Every comma separates two pieces, even one inside a quoted display name. */
  lemma FormatEmailSplitsAtComma(parse: string -> seq<Address>, a: string, b: string)
    ensures FormatEmail(parse, Text(a + "," + b))
         == FormatEmail(parse, Text(a)) + FormatEmail(parse, Text(b))
  {
    Php.ExplodeAppend(',', a, b);
    MergeParsedAppend(parse, Php.Explode(",", a), Php.Explode(",", b));
  }

  /** Two comma-free pieces joined by a comma are parsed one after the other. */
  lemma FormatEmailTwoPieces(parse: string -> seq<Address>, a: string, b: string)
    requires ',' !in a && ',' !in b
    ensures FormatEmail(parse, Text(a + "," + b)) == parse(a) + parse(b)
  {
    FormatEmailSplitsAtComma(parse, a, b);
    FormatEmailSingle(parse, a);
    FormatEmailSingle(parse, b);
  }

  /** `"Doe, Jane" <jane@example.org>` reaches parseAddresses as two pieces. */
  lemma FormatEmailQuotedName(parse: string -> seq<Address>)
    ensures FormatEmail(parse, Text("\"Doe, Jane\" <jane@example.org>"))
         == parse("\"Doe") + parse(" Jane\" <jane@example.org>")
  {
    var a, b := "\"Doe", " Jane\" <jane@example.org>";
    assert a + "," + b == "\"Doe, Jane\" <jane@example.org>";
    FormatEmailTwoPieces(parse, a, b);
  }

  // ---------------------------------------------------------------------
  // The `content-type` case of addMailHeaders

  /**
   * The character set selected by the parameter segment of a content-type
   * header: `charset=` (found ignoring case) is removed case-sensitively
   * together with every double quote and the rest is trimmed; otherwise a
   * `boundary=` selects utf-8; otherwise the character set is kept.
   */
  function SegmentCharset(segment: string, charset: string): (r: string)
    ensures r == charset || (Tidy(r) && '"' !in r)
  {
    if Php.ContainsIgnoringCase(segment, "charset=") then
      var unquoted := Php.StrReplace("\"", "", Php.StrReplace("charset=", "", segment));
      Php.RemoveCharLeavesNone('"', Php.StrReplace("charset=", "", segment));
      Trim(unquoted)
    else if Php.ContainsIgnoringCase(segment, "boundary=") then CharsetUtf8
    else charset
  }

  /**
   * The content type and character set after a `content-type` header: with
   * a `;` the first segment is the type and the second selects the
   * character set; without one, a non-blank value is the type.
   */
  function ContentTypeHeader(content: string, contentType: string, charset: string): (r: (string, string))
    ensures r.0 == contentType || Tidy(r.0)
    ensures r.1 == charset || (Tidy(r.1) && '"' !in r.1)
  {
    if Php.Contains(content, ";") then
      Php.ExplodeSplits(";", content);
      var parts := Php.Explode(";", content);
      (Trim(parts[0]), SegmentCharset(parts[1], charset))
    else if Trim(content) != "" then (Trim(content), charset)
    else (contentType, charset)
  }

  /** Two semicolon-free segments joined by a semicolon explode into those two. */
  lemma SplitOnce(a: string, b: string)
    requires ';' !in a && ';' !in b
    ensures Php.Contains(a + ";" + b, ";")
    ensures Php.Explode(";", a + ";" + b) == [a, b]
  {
    Php.ExplodeAppend(';', a, b);
    Php.ExplodeWhole(';', a);
    Php.ExplodeWhole(';', b);
    assert (a + ";" + b)[|a|] == ';';
    Php.ContainsChar(a + ";" + b, ';');
  }

  /** A header value without parameters sets the type and keeps the character set. */
  lemma ContentTypeWithoutParameters(ty: string, contentType: string, charset: string)
    requires Clean(ty) && ';' !in ty
    ensures ContentTypeHeader(ty, contentType, charset) == (ty, charset)
  {
    Php.ContainsChar(ty, ';');
    TrimFixpoint(ty);
  }

  /** str_replace('charset=', '', ' charset=' + cs) leaves ' ' + cs. */
  lemma StripCharsetName(cs: string)
    requires !Php.Contains(cs, "charset=")
    ensures Php.StrReplace("charset=", "", " charset=" + cs) == " " + cs
  {
    SpaceBefore(" charset=", "charset=", cs);
    StripName("charset=", cs);
  }

  /** Removing a name that follows a space and does not occur again. */
  lemma StripName(w: string, cs: string)
    requires |w| > 0 && w[0] != ' ' && !Php.Contains(cs, w)
    ensures Php.StrReplace(w, "", [' '] + (w + cs)) == [' '] + cs
  {
    Php.StrReplaceSkip(w, "", ' ', w + cs);
    Php.StrReplaceHit(w, "", cs);
    Php.StrReplaceAbsent(w, "", cs);
  }

  /** A literal made of a space and a word, followed by `cs`. */
  lemma SpaceBefore(lit: string, w: string, cs: string)
    requires |lit| == |w| + 1 && lit[0] == ' '
    requires forall i :: 0 <= i < |w| ==> lit[i + 1] == w[i]
    ensures lit + cs == [' '] + (w + cs)
  {
    assert lit == [' '] + w;
  }

  /** The segment ` charset=cs` selects the character set `cs`. */
  lemma CharsetSegment(cs: string, charset: string)
    requires Clean(cs) && '"' !in cs && !Php.Contains(cs, "charset=")
    ensures SegmentCharset(" charset=" + cs, charset) == cs
  {
    var seg := " charset=" + cs;
    Php.LowerOfLower("charset=");
    assert seg[1..9] == "charset=";
    forall i | 1 <= i < 9 ensures Php.Lower(seg)[i] == seg[i] {
    }
    assert Php.Lower(seg)[1..9] == "charset=";
    assert Php.MatchAt(Php.Lower(seg), "charset=", 1);
    StripCharsetName(cs);
    Php.ContainsChar(" " + cs, '"');
    Php.StrReplaceAbsent("\"", "", " " + cs);
    TrimLeadingSpace(cs);
  }

  /** `type; charset=cs` is read back as the type and the character set. */
  lemma ContentTypeWithCharset(ty: string, cs: string, contentType: string, charset: string)
    requires Clean(ty) && ';' !in ty
    requires Clean(cs) && ';' !in cs && '"' !in cs && !Php.Contains(cs, "charset=")
    ensures ContentTypeHeader(ty + "; charset=" + cs, contentType, charset) == (ty, cs)
  {
    var seg := " charset=" + cs;
    assert ty + ";" + seg == ty + "; charset=" + cs;
    assert ';' !in seg;
    SplitOnce(ty, seg);
    TrimFixpoint(ty);
    CharsetSegment(cs, charset);
  }

  /**
   * `Charset=` is found, since the search ignores case, but it is not
   * removed, since the removal does not: the segment ` Charset=cs` selects
   * the character set `Charset=cs`.
   */
  lemma CapitalCharsetSegment(cs: string, charset: string)
    requires Clean(cs) && '"' !in cs && !Php.Contains(cs, "charset=")
    ensures SegmentCharset(" Charset=" + cs, charset) == "Charset=" + cs
  {
    CapitalCharsetFound(cs);
    CapitalCharsetNotRemoved(cs);
    CapitalSpace();
    CapitalCharsetClean();
    CleanPrefixed("Charset=", cs);
    AppendSpaced(" Charset=", "Charset=", cs);
    SegmentCharsetKept(" Charset=" + cs, "Charset=" + cs, charset);
  }

  /** A literal that is a space before `w`, followed by `cs`. */
  lemma AppendSpaced(lit: string, w: string, cs: string)
    requires lit == [' '] + w
    ensures lit + cs == [' '] + (w + cs)
  {
  }

  /** The literal ` Charset=` is a space before `Charset=`. */
  lemma CapitalSpace()
    ensures " Charset=" == [' '] + "Charset="
  {
  }

  /** A segment that names a character set the removals leave alone is only trimmed. */
  lemma SegmentCharsetKept(seg: string, value: string, charset: string)
    requires Php.ContainsIgnoringCase(seg, "charset=")
    requires Php.StrReplace("\"", "", Php.StrReplace("charset=", "", seg)) == seg
    requires seg == [' '] + value && Clean(value)
    ensures SegmentCharset(seg, charset) == value
  {
    assert seg == " " + value;
    TrimLeadingSpace(value);
  }

  lemma CapitalCharsetClean()
    ensures Clean("Charset=")
  {
    var w := "Charset=";
    forall i | 0 <= i < |w| ensures Php.IsGlyph(w[i]) {
    }
  }

  /** A clean word before a clean string with no space between them. */
  lemma CleanPrefixed(w: string, cs: string)
    requires Clean(w) && Clean(cs)
    ensures Clean(w + cs)
  {
    Php.NoDoubleSpaceConcat(w, cs);
  }

  lemma CapitalCharsetFound(cs: string)
    ensures Php.ContainsIgnoringCase(" Charset=" + cs, "charset=")
  {
    var seg := " Charset=" + cs;
    Php.LowerOfLower("charset=");
    forall i | 1 <= i < 9 ensures Php.Lower(seg)[i] == "charset="[i - 1] {
    }
    assert Php.Lower(seg)[1..9] == "charset=";
    assert Php.MatchAt(Php.Lower(seg), "charset=", 1);
  }

  lemma CapitalCharsetNotRemoved(cs: string)
    requires '"' !in cs && !Php.Contains(cs, "charset=")
    ensures var seg := " Charset=" + cs;
      Php.StrReplace("\"", "", Php.StrReplace("charset=", "", seg)) == seg
  {
    var seg := " Charset=" + cs;
    Php.StrReplaceSkipPrefix("charset=", "", " Charset=", cs);
    Php.StrReplaceAbsent("charset=", "", cs);
    Php.ContainsChar(seg, '"');
    Php.StrReplaceAbsent("\"", "", seg);
  }

  /** So `type; Charset=cs` keeps the parameter name in the character set. */
  lemma ContentTypeCapitalCharset(ty: string, cs: string, contentType: string, charset: string)
    requires Clean(ty) && ';' !in ty
    requires Clean(cs) && ';' !in cs && '"' !in cs && !Php.Contains(cs, "charset=")
    ensures ContentTypeHeader(ty + "; Charset=" + cs, contentType, charset) == (ty, "Charset=" + cs)
  {
    var seg := " Charset=" + cs;
    assert ty + ";" + seg == ty + "; Charset=" + cs;
    assert ';' !in seg;
    SplitOnce(ty, seg);
    TrimFixpoint(ty);
    CapitalCharsetSegment(cs, charset);
  }

  /** A `boundary=` parameter without a `charset=` one selects utf-8. */
  lemma ContentTypeWithBoundary(ty: string, seg: string, contentType: string, charset: string)
    requires Clean(ty) && ';' !in ty && ';' !in seg
    requires !Php.ContainsIgnoringCase(seg, "charset=") && Php.ContainsIgnoringCase(seg, "boundary=")
    ensures ContentTypeHeader(ty + ";" + seg, contentType, charset) == (ty, CharsetUtf8)
  {
    SplitOnce(ty, seg);
    TrimFixpoint(ty);
  }

  /** Any other parameter sets the type and keeps the character set. */
  lemma ContentTypeOtherParameter(ty: string, seg: string, contentType: string, charset: string)
    requires Clean(ty) && ';' !in ty && ';' !in seg
    requires !Php.ContainsIgnoringCase(seg, "charset=") && !Php.ContainsIgnoringCase(seg, "boundary=")
    ensures ContentTypeHeader(ty + ";" + seg, contentType, charset) == (ty, charset)
  {
    SplitOnce(ty, seg);
    TrimFixpoint(ty);
  }

  /** A blank value without parameters changes neither the type nor the character set. */
  lemma ContentTypeBlank(content: string, contentType: string, charset: string)
    requires forall c :: c in content ==> c in Php.TrimChars
    ensures ContentTypeHeader(content, contentType, charset) == (contentType, charset)
  {
    assert ';' !in content;
    Php.ContainsChar(content, ';');
  }

  /** Segments after the second one are never looked at. */
  lemma ContentTypeIgnoresLaterSegments(a: string, b: string, c: string, contentType: string, charset: string)
    requires ';' !in a && ';' !in b
    ensures ContentTypeHeader(a + ";" + b + ";" + c, contentType, charset)
         == ContentTypeHeader(a + ";" + b, contentType, charset)
  {
    SplitOnce(a, b);
    ExplodeThree(a, b, c);
    var s := a + ";" + b + ";" + c;
    assert s[|a|] == ';';
    Php.ContainsChar(s, ';');
  }

  lemma ExplodeThree(a: string, b: string, c: string)
    requires ';' !in a && ';' !in b
    ensures Php.Explode(";", a + ";" + b + ";" + c) == [a, b] + Php.Explode(";", c)
  {
    var bc := b + ";" + c;
    assert a + ";" + b + ";" + c == a + ";" + bc;
    Php.ExplodeFirstPiece(';', a, bc);
    Php.ExplodeFirstPiece(';', b, c);
  }

  // ---------------------------------------------------------------------
  // The fallback sender of setSender

  /** empty() on a ?string property: null, "" and "0" are empty. */
  predicate IsBlank(v: Option<string>) {
    v.None? || Php.Falsy(v.value)
  }

  /** ltrim(strtolower($host), 'www.'): every leading 'w' and '.' is dropped. */
  function SiteDomain(host: string): (d: string)
    ensures Php.IsLower(d)
    ensures d == [] || (d[0] != 'w' && d[0] != '.')
  {
    Php.LTrim(Php.Lower(host), {'w', '.'})
  }

  /** A leading 'w', 'W' or '.' makes no difference to the domain. */
  lemma SiteDomainSkips(x: char, host: string)
    requires x == 'w' || x == 'W' || x == '.'
    ensures SiteDomain([x] + host) == SiteDomain(host)
  {
    assert Php.Lower([x] + host) == [Php.LowerChar(x)] + Php.Lower(host);
    Php.LTrimCons(Php.LowerChar(x), Php.Lower(host), {'w', '.'});
  }

  /** A host that does not start with 'w', 'W' or '.' is only lower-cased. */
  lemma SiteDomainPlain(host: string)
    requires host == [] || (host[0] != 'w' && host[0] != 'W' && host[0] != '.')
    ensures SiteDomain(host) == Php.Lower(host)
  {
  }

  lemma SiteDomainOfLower(host: string)
    requires Php.IsLower(host) && host != [] && host[0] != 'w' && host[0] != '.'
    ensures SiteDomain(host) == host
  {
    SiteDomainPlain(host);
    Php.LowerOfLower(host);
  }

  /** "www." is dropped from a host name. */
  lemma SiteDomainWww(host: string)
    ensures SiteDomain("www." + host) == SiteDomain(host)
  {
    var h1 := ['.'] + host;
    var h2 := ['w'] + h1;
    var h3 := ['w'] + h2;
    assert "www." + host == ['w'] + h3;
    SiteDomainSkips('w', h3);
    SiteDomainSkips('w', h2);
    SiteDomainSkips('w', h1);
    SiteDomainSkips('.', host);
  }

  /** www. followed by a lower-case host name is served as that host name. */
  lemma SiteDomainOfWww(host: string)
    requires Php.IsLower(host) && host != [] && host[0] != 'w' && host[0] != '.'
    ensures SiteDomain("www." + host) == host
  {
    SiteDomainWww(host);
    SiteDomainOfLower(host);
  }

  lemma SiteDomainW(host: string)
    ensures SiteDomain("w" + host) == SiteDomain(host)
  {
    assert "w" + host == ['w'] + host;
    SiteDomainSkips('w', host);
  }

  /**
   * A leading 'w' is dropped even when it does not begin "www.": ltrim()
   * takes a character set, not a prefix, so web.example.org becomes
   * eb.example.org.
   */
  lemma SiteDomainDropsLoneW(host: string)
    requires Php.IsLower(host) && host != [] && host[0] != 'w' && host[0] != '.'
    ensures SiteDomain("w" + host) == host
  {
    SiteDomainW(host);
    SiteDomainOfLower(host);
  }

  /**
   * The sender address setSender() settles on: the one already set, else
   * the admin e-mail, else `website@` and the site's domain. It is never
   * empty(), and an address already set is kept whatever the defaults.
   */
  function SenderEmail(fromEmail: Option<string>, adminEmail: string, host: string): (e: string)
    ensures !Php.Falsy(e)
    ensures !IsBlank(fromEmail) ==> e == fromEmail.value
    ensures IsBlank(fromEmail) && !Php.Falsy(adminEmail) ==> e == adminEmail
    ensures IsBlank(fromEmail) && Php.Falsy(adminEmail) ==> e == "website@" + SiteDomain(host)
  {
    if !IsBlank(fromEmail) then fromEmail.value
    else if !Php.Falsy(adminEmail) then adminEmail
    else "website@" + SiteDomain(host)
  }

  /** Once settled, the sender address stays: later defaults are not consulted. */
  lemma SenderEmailSettles(fromEmail: Option<string>, adminEmail: string, host: string,
                           adminEmail': string, host': string)
    ensures var e := SenderEmail(fromEmail, adminEmail, host);
      SenderEmail(Some(e), adminEmail', host') == e
  {
  }

  /** The sender name: the one already set, else the site name. */
  function SenderName(fromName: Option<string>, siteName: string): (n: string)
    ensures !IsBlank(fromName) ==> n == fromName.value
    ensures IsBlank(fromName) ==> n == siteName
  {
    if IsBlank(fromName) then siteName else fromName.value
  }

  // ---------------------------------------------------------------------
  // Attachments

  /** The key of an entry of the attachments array. */
  datatype AttachmentKey = Index(n: int) | Named(name: string)

  /** The attachments argument: a string of paths, or an array of paths. */
  datatype Attachments = Paths(text: string) | Keyed(entries: seq<(AttachmentKey, string)>)

  /** empty() on the attachments argument. */
  predicate AttachmentsEmpty(a: Attachments) {
    match a
    case Paths(s) => Php.Falsy(s)
    case Keyed(entries) => |entries| == 0
  }

  /** A string of paths: CRLF becomes LF, then it is exploded at LF. */
  function AttachmentLines(s: string): seq<string> {
    Php.Explode("\n", Php.StrReplace(CRLF, "\n", s))
  }

  /** The array the foreach walks: a string becomes its lines under keys 0, 1, ... */
  function AttachmentArray(a: Attachments): seq<(AttachmentKey, string)> {
    match a
    case Paths(s) =>
      var lines := AttachmentLines(s);
      seq(|lines|, i requires 0 <= i < |lines| => (Index(i), lines[i]))
    case Keyed(entries) => entries
  }

  /** The name passed for an entry: its key when that is a string, else ''. */
  function KeyName(k: AttachmentKey): string {
    match k
    case Named(name) => name
    case Index(_) => ""
  }

  /** addAttachment($attachment, $filename) for each entry, in order. */
  function AttachmentList(a: Attachments): seq<Attachment> {
    var entries := AttachmentArray(a);
    seq(|entries|, i requires 0 <= i < |entries| => Attachment(entries[i].1, KeyName(entries[i].0)))
  }

  /**
   * A string of paths yields one unnamed attachment per line: no path holds
   * a line feed, and joining the paths with LF gives back the string with
   * its CRLFs made LF.
   */
  lemma AttachmentPaths(s: string)
    ensures var r := AttachmentList(Paths(s));
      && |r| >= 1
      && (forall i :: 0 <= i < |r| ==> '\n' !in r[i].path && r[i].name == "")
      && Php.Implode("\n", seq(|r|, i requires 0 <= i < |r| => r[i].path))
         == Php.StrReplace(CRLF, "\n", s)
  {
    var r := AttachmentList(Paths(s));
    var t := Php.StrReplace(CRLF, "\n", s);
    var lines := AttachmentLines(s);
    Php.ImplodeExplode("\n", t);
    Php.ExplodePiecesLackSeparator("\n", t);
    forall i | 0 <= i < |r| ensures '\n' !in r[i].path {
      assert r[i].path == lines[i];
      assert lines[i] in lines;
      Php.ContainsChar(lines[i], '\n');
    }
    assert seq(|r|, i requires 0 <= i < |r| => r[i].path) == lines;
  }
}
