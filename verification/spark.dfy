/** The string-processing core of the DBpedia report script: per-line
    trimming of query text, assembly of a query from the namespace prefix
    table, naming of sampled entities, and truncation of report lines.
    Everything that talks to the endpoint, the file system or the random
    source stays outside this module. */
module Spark {
  import opened PyStr
  import UrlParse

  // ---------------------------------------------------------------------
  // dedent: split on "\n", strip every line, join with "\n"
  // ---------------------------------------------------------------------

  /** `s.split("\n")`. */
  function Lines(s: string): seq<string>
  {
    Split(s, "\n")
  }

  /** `"\n".join(ls)`. */
  function Unlines(ls: seq<string>): string
  {
    Join(ls, "\n")
  }

  function StripEach(ls: seq<string>): seq<string>
  {
    seq(|ls|, i requires 0 <= i < |ls| => Strip(ls[i]))
  }

  /** The script's `dedent`: every line stripped of leading and trailing
      whitespace, the line structure kept. Splitting its output gives back
      exactly the stripped input lines, one for one. */
  function Dedent(s: string): (r: string)
    ensures Lines(r) == StripEach(Lines(s))
  {
    SplitPiecesFree(s, '\n');
    UnlinesStripped(Lines(s));
    Unlines(StripEach(Lines(s)))
  }

  /** Stripping lines that hold no line break keeps them apart: the joined
      text splits back into the stripped lines. */
  lemma UnlinesStripped(ls: seq<string>)
    requires |ls| >= 1
    requires forall i :: 0 <= i < |ls| ==> '\n' !in ls[i]
    ensures Lines(Unlines(StripEach(ls))) == StripEach(ls)
  {
    forall i | 0 <= i < |ls| ensures '\n' !in StripEach(ls)[i] {
      StripKeepsOut(ls[i], '\n');
    }
    SplitJoin(StripEach(ls), '\n');
  }

  /** `dedent` keeps the number of lines. */
  lemma DedentLineCount(s: string)
    ensures |Lines(Dedent(s))| == |Lines(s)|
  {
  }

  /** No line of the output of `dedent` begins or ends with whitespace. */
  lemma DedentLinesStripped(s: string)
    ensures forall i :: 0 <= i < |Lines(Dedent(s))| ==> Stripped(Lines(Dedent(s))[i])
  {
    forall i | 0 <= i < |Lines(s)| ensures Stripped(StripEach(Lines(s))[i]) {
      StripIsStripped(Lines(s)[i]);
    }
  }

  /** Each output line is the corresponding input line with only its
      leading and trailing whitespace cut off: a contiguous piece of it. */
  lemma DedentLinesAreStrips(s: string)
    ensures |Lines(Dedent(s))| == |Lines(s)|
    ensures forall i :: 0 <= i < |Lines(s)| ==> IsStripOf(Lines(Dedent(s))[i], Lines(s)[i])
  {
  }

  /** `dedent` is idempotent. */
  lemma DedentIdempotent(s: string)
    ensures Dedent(Dedent(s)) == Dedent(s)
  {
    var ls := StripEach(Lines(s));
    assert StripEach(ls) == ls by {
      forall i | 0 <= i < |ls| ensures Strip(ls[i]) == ls[i] {
        StripIdempotent(Lines(s)[i]);
      }
    }
  }

  /** `dedent` changes a text exactly when some line of it begins or ends
      with whitespace. */
  lemma DedentFixedPoints(s: string)
    ensures Dedent(s) == s <==> forall i :: 0 <= i < |Lines(s)| ==> Stripped(Lines(s)[i])
  {
    var ls := Lines(s);
    if forall i :: 0 <= i < |ls| ==> Stripped(ls[i]) {
      forall i | 0 <= i < |ls| ensures Strip(ls[i]) == ls[i] {
        StrippedFixed(ls[i]);
      }
      assert StripEach(ls) == ls;
      JoinSplit(s, "\n");
    }
    if Dedent(s) == s {
      DedentLinesStripped(s);
    }
  }

  // ---------------------------------------------------------------------
  // Query assembly: the prefix table and the loop in `send`
  // ---------------------------------------------------------------------

  /** One entry of the namespace table: a short name and the IRI it stands
      for, written with its angle brackets. */
  datatype Prefix = Prefix(name: string, iri: string)

  /** The script's `PREFIXES`, in the dictionary's insertion order. */
  const Prefixes: seq<Prefix> := [Dbo, Dbp, Res, Geo, Foaf, Dbr, Rdfs]

  const Dbo := Prefix("dbo", "<http://dbpedia.org/ontology/>")
  const Dbp := Prefix("dbp", "<http://dbpedia.org/property/>")
  const Res := Prefix("res", "<http://dbpedia.org/resource/Valencia>")
  const Geo := Prefix("geo", "<http://www.w3.org/2003/01/geo/wgs84_pos#>")
  const Foaf := Prefix("foaf", "<http://xmlns.com/foaf/0.1/>")
  const Dbr := Prefix("dbr", "<http://dbpedia.org/resource/>")
  const Rdfs := Prefix("rdfs", "<http://www.w3.org/2000/01/rdf-schema#>")

  /** The SPARQL declaration line of one prefix. */
  function Declaration(p: Prefix): string
  {
    "PREFIX " + p.name + ": " + p.iri
  }

  function Declarations(table: seq<Prefix>): seq<string>
  {
    seq(|table|, i requires 0 <= i < |table| => Declaration(table[i]))
  }

  /** The declarations in table order, each followed by a newline. The
      header is empty only for an empty table, and otherwise ends in a
      newline, so the query that follows it starts on a line of its own. */
  function Header(table: seq<Prefix>): (r: string)
    ensures |r| >= 10 * |table|
    ensures r == [] <==> table == []
    ensures r != [] ==> r[|r| - 1] == '\n'
  {
    if table == [] then "" else Declaration(table[0]) + "\n" + Header(table[1..])
  }

  /** No declaration spans more than one line. */
  predicate SingleLineEntries(table: seq<Prefix>) {
    forall i :: 0 <= i < |table| ==> '\n' !in Declaration(table[i])
  }

  /** Every declaration is one line with nothing for `strip` to remove. */
  predicate TrimmedEntries(table: seq<Prefix>) {
    && SingleLineEntries(table)
    && forall i :: 0 <= i < |table| ==> Stripped(Declaration(table[i]))
  }

  /** The query `send` submits, as a pure function: the header, then the
      body, then `dedent` over the whole text. Running `dedent` over it
      again changes nothing. */
  function Build(table: seq<Prefix>, body: string): (r: string)
    ensures Dedent(r) == r
  {
    DedentIdempotent(Header(table) + body);
    Dedent(Header(table) + body)
  }

  /** The loop of `send`: walking the table backwards and putting each
      declaration in front of the text so far leaves the declarations in
      forward table order ahead of the unchanged body. */
  method PrependPrefixes(table: seq<Prefix>, body: string) returns (query: string)
    ensures query == Header(table) + body
  {
    query := body;
    var i := |table|;
    while i > 0
      invariant 0 <= i <= |table|
      invariant query == Header(table[i..]) + body
      decreases i
    {
      i := i - 1;
      var p := table[i];
      query := "PREFIX " + p.name + ": " + p.iri + "\n" + query;
      assert table[i..][1..] == table[i + 1..];
    }
    assert table[0..] == table;
  }

  /** `send` up to the hand-off to the endpoint client: the loop, then
      `dedent`. Its result is the pure `Build`, and when every declaration is
      a single line, its lines are the stripped declarations followed by
      the stripped body lines. */
  method AssembleQuery(table: seq<Prefix>, body: string) returns (query: string)
    ensures query == Build(table, body)
    ensures SingleLineEntries(table) ==>
      Lines(query) == StripEach(Declarations(table)) + StripEach(Lines(body))
  {
    query := PrependPrefixes(table, body);
    query := Dedent(query);
    if SingleLineEntries(table) {
      BuildLines(table, body);
    }
  }

  /** Before trimming, the header contributes exactly one line per table
      entry, in table order, ahead of the body's own lines. */
  lemma {:induction false} HeaderLines(table: seq<Prefix>, body: string)
    requires SingleLineEntries(table)
    ensures Lines(Header(table) + body) == Declarations(table) + Lines(body)
  {
    if table == [] {
      assert Header(table) + body == body;
    } else {
      SingleLineTail(table);
      HeaderLines(table[1..], body);
      HeaderStep(table, body);
      DeclarationsCons(table);
      AppendAssoc([Declaration(table[0])], Declarations(table[1..]), Lines(body));
    }
  }

  lemma HeaderStep(table: seq<Prefix>, body: string)
    requires |table| > 0 && '\n' !in Declaration(table[0])
    ensures Lines(Header(table) + body)
      == [Declaration(table[0])] + Lines(Header(table[1..]) + body)
  {
    assert Header(table) == Declaration(table[0]) + "\n" + Header(table[1..]);
    SplitConsThen(Declaration(table[0]), '\n', Header(table[1..]), body);
  }

  lemma SingleLineTail(table: seq<Prefix>)
    requires |table| > 0 && SingleLineEntries(table)
    ensures '\n' !in Declaration(table[0])
    ensures SingleLineEntries(table[1..])
  {
    forall i | 0 <= i < |table[1..]| ensures '\n' !in Declaration(table[1..][i]) {
      assert table[1..][i] == table[i + 1];
    }
  }

  lemma DeclarationsCons(table: seq<Prefix>)
    requires |table| > 0
    ensures Declarations(table) == [Declaration(table[0])] + Declarations(table[1..])
  {
  }

  lemma StripEachAppend(a: seq<string>, b: seq<string>)
    ensures StripEach(a + b) == StripEach(a) + StripEach(b)
  {
    var l, r := StripEach(a + b), StripEach(a) + StripEach(b);
    forall i | 0 <= i < |a + b| ensures l[i] == r[i] {
      if i < |a| {
        assert (a + b)[i] == a[i];
      } else {
        assert (a + b)[i] == b[i - |a|];
      }
    }
  }

  /** The assembled query has one line per declaration and then one line
      per body line, each the stripped original. */
  lemma BuildLines(table: seq<Prefix>, body: string)
    requires SingleLineEntries(table)
    ensures Lines(Build(table, body)) == StripEach(Declarations(table)) + StripEach(Lines(body))
  {
    var text := Header(table) + body;
    HeaderLines(table, body);
    StripEachAppend(Declarations(table), Lines(body));
  }

  /** The number of lines of the assembled query. */
  lemma BuildLineCount(table: seq<Prefix>, body: string)
    requires SingleLineEntries(table)
    ensures |Lines(Build(table, body))| == |table| + |Lines(body)|
  {
    BuildLines(table, body);
  }

  /** When every declaration is already trimmed, the assembled query is the
      header verbatim followed by the dedented body. */
  lemma BuildHeaderVerbatim(table: seq<Prefix>, body: string)
    requires TrimmedEntries(table)
    ensures Build(table, body) == Header(table) + Dedent(body)
  {
    var ds := Declarations(table);
    forall i | 0 <= i < |ds| ensures Strip(ds[i]) == ds[i] {
      StrippedFixed(ds[i]);
    }
    assert StripEach(ds) == ds;
    BuildLines(table, body);
    HeaderLines(table, Dedent(body));
    JoinSplit(Build(table, body), "\n");
    JoinSplit(Header(table) + Dedent(body), "\n");
  }

  /** A table entry as the script writes them: neither part holds a line
      break, and the IRI ends with its closing angle bracket. */
  predicate WellFormedPrefix(p: Prefix) {
    NoBreak(p.name) && NoBreak(p.iri) && |p.iri| > 0 && p.iri[|p.iri| - 1] == '>'
  }

  predicate NoBreak(s: string) {
    forall k :: 0 <= k < |s| ==> s[k] != '\n'
  }

  /** A well-formed entry declares itself on one line with nothing for
      `strip` to remove. */
  lemma WellFormedDeclaration(p: Prefix)
    requires WellFormedPrefix(p)
    ensures '\n' !in Declaration(p)
    ensures Stripped(Declaration(p))
  {
    var d := Declaration(p);
    assert d == "PREFIX " + (p.name + ": " + p.iri);
    forall k | 0 <= k < |d| ensures d[k] != '\n' {
      if k >= 7 + |p.name| + 2 {
        assert d[k] == p.iri[k - 9 - |p.name|];
      } else if k >= 7 && k < 7 + |p.name| {
        assert d[k] == p.name[k - 7];
      }
    }
    assert d[0] == 'P' && d[|d| - 1] == '>';
  }

  lemma PrefixesWellFormed()
    ensures forall i :: 0 <= i < |Prefixes| ==> WellFormedPrefix(Prefixes[i])
  {
    DboWellFormed();
    DbpWellFormed();
    ResWellFormed();
    GeoWellFormed();
    FoafWellFormed();
    DbrWellFormed();
    RdfsWellFormed();
  }

  // One lemma per entry keeps each character-by-character check small.
  lemma DboWellFormed() ensures WellFormedPrefix(Dbo) {}
  lemma DbpWellFormed() ensures WellFormedPrefix(Dbp) {}
  lemma ResWellFormed() ensures WellFormedPrefix(Res) {}
  lemma GeoWellFormed() ensures WellFormedPrefix(Geo) {}
  lemma FoafWellFormed() ensures WellFormedPrefix(Foaf) {}
  lemma DbrWellFormed() ensures WellFormedPrefix(Dbr) {}
  lemma RdfsWellFormed() ensures WellFormedPrefix(Rdfs) {}

  /** Every entry of the script's table declares itself on one trimmed line. */
  lemma PrefixesTrimmed()
    ensures TrimmedEntries(Prefixes)
  {
    PrefixesWellFormed();
    forall i | 0 <= i < |Prefixes|
      ensures '\n' !in Declaration(Prefixes[i]) && Stripped(Declaration(Prefixes[i]))
    {
      WellFormedDeclaration(Prefixes[i]);
    }
  }

  /** Every query the script sends begins with the seven declarations of its
      table, `dbo` first and `rdfs` last, verbatim, each on its own line,
      followed by the dedented body. */
  lemma PrefixesQuery(body: string)
    ensures Build(Prefixes, body) == Header(Prefixes) + Dedent(body)
    ensures Lines(Build(Prefixes, body)) == Declarations(Prefixes) + Lines(Dedent(body))
    ensures Lines(Build(Prefixes, body))[0] == Declaration(Dbo)
    ensures Lines(Build(Prefixes, body))[6] == Declaration(Rdfs)
  {
    PrefixesTrimmed();
    BuildHeaderVerbatim(Prefixes, body);
    HeaderLines(Prefixes, Dedent(body));
  }

  // ---------------------------------------------------------------------
  // Naming the sampled entities
  // ---------------------------------------------------------------------

  const ResourceMarker: string := "resource/"

  /** `"dbr:" + quote(uri.split('resource/')[1], safe='')`; `None` where
      Python raises `IndexError` because the URI has no `resource/`. */
  function EntityName(uri: string): (r: Option<string>)
    ensures r.None? <==> forall k :: !OccursAt(uri, ResourceMarker, k)
    ensures r.Some? ==> |r.value| >= 4 && r.value[..4] == "dbr:"
  {
    var parts := Split(uri, ResourceMarker);
    if |parts| < 2 then None else Some("dbr:" + UrlParse.Quote(parts[1]))
  }

  /** For a URI `pre + "resource/" + seg + "resource/" + post`, where
      those are the first two occurrences of `resource/`, the name is `dbr:`
      followed by `seg` percent-encoded. */
  lemma EntityNameMiddleSegment(uri: string, pre: string, seg: string, post: string)
    requires uri == pre + ResourceMarker + seg + ResourceMarker + post
    requires forall k :: 0 <= k < |pre| ==> !OccursAt(uri, ResourceMarker, k)
    requires forall k :: 0 <= k < |seg| ==> !OccursAt(seg + ResourceMarker + post, ResourceMarker, k)
    ensures EntityName(uri) == Some("dbr:" + UrlParse.Quote(seg))
  {
    SplitSecond(uri, pre, ResourceMarker, seg, post);
  }

  /** For a URI `pre + "resource/" + seg` with exactly one `resource/`, the
      name is `dbr:` followed by `seg` percent-encoded. */
  lemma EntityNameLastSegment(pre: string, seg: string)
    requires forall k :: 0 <= k < |pre| ==> !OccursAt(pre + ResourceMarker + seg, ResourceMarker, k)
    requires forall k :: 0 <= k < |seg| ==> !OccursAt(seg, ResourceMarker, k)
    ensures EntityName(pre + ResourceMarker + seg) == Some("dbr:" + UrlParse.Quote(seg))
  {
    SplitFirst(pre, ResourceMarker, seg);
    SplitNoSeparator(seg, ResourceMarker);
  }

  /** A name is `dbr:` and then only always-safe characters and `%`: no
      whitespace, so names joined with spaces stay apart. */
  lemma EntityNameAlphabet(uri: string)
    requires EntityName(uri).Some?
    ensures EntityName(uri).value[..4] == "dbr:"
    ensures forall k :: 4 <= k < |EntityName(uri).value| ==>
      UrlParse.IsUnreserved(EntityName(uri).value[k]) || EntityName(uri).value[k] == '%'
  {
    var q := UrlParse.Quote(Split(uri, ResourceMarker)[1]);
    UrlParse.QuoteAlphabet(Split(uri, ResourceMarker)[1]);
    assert forall k :: 4 <= k < |"dbr:" + q| ==> ("dbr:" + q)[k] == q[k - 4];
  }

  /** Different segments give different names. */
  lemma EntityNameInjective(pre1: string, seg1: string, pre2: string, seg2: string)
    requires forall k :: 0 <= k < |pre1| ==> !OccursAt(pre1 + ResourceMarker + seg1, ResourceMarker, k)
    requires forall k :: 0 <= k < |seg1| ==> !OccursAt(seg1, ResourceMarker, k)
    requires forall k :: 0 <= k < |pre2| ==> !OccursAt(pre2 + ResourceMarker + seg2, ResourceMarker, k)
    requires forall k :: 0 <= k < |seg2| ==> !OccursAt(seg2, ResourceMarker, k)
    requires EntityName(pre1 + ResourceMarker + seg1) == EntityName(pre2 + ResourceMarker + seg2)
    ensures seg1 == seg2
  {
    EntityNameLastSegment(pre1, seg1);
    EntityNameLastSegment(pre2, seg2);
    assert UrlParse.Quote(seg1) == ("dbr:" + UrlParse.Quote(seg1))[4..];
    assert UrlParse.Quote(seg2) == ("dbr:" + UrlParse.Quote(seg2))[4..];
    UrlParse.QuoteInjective(seg1, seg2);
  }

  /** No name holds a space. */
  lemma EntityNameNoSpace(uri: string)
    requires EntityName(uri).Some?
    ensures ' ' !in EntityName(uri).value
  {
    var name := EntityName(uri).value;
    EntityNameAlphabet(uri);
    forall k | 0 <= k < |name| ensures name[k] != ' ' {
      if k < 4 { assert name[k] == "dbr:"[k]; }
    }
  }

  /** The `VALUES` list of the follow-up query, `' '.join(names)`, splits
      back on spaces into exactly the names, in order: no name is merged
      with or split across its neighbours. */
  lemma ValuesRoundTrip(uris: seq<string>, names: seq<string>)
    requires |uris| >= 1 && |names| == |uris|
    requires forall i :: 0 <= i < |uris| ==> EntityName(uris[i]) == Some(names[i])
    ensures Split(Join(names, " "), " ") == names
  {
    assert forall i :: 0 <= i < |names| ==> ' ' !in names[i] by {
      forall i | 0 <= i < |names| ensures ' ' !in names[i] {
        EntityNameNoSpace(uris[i]);
      }
    }
    SplitJoin(names, ' ');
  }

  /** The loop that turns the sampled location URIs into `dbr:` names, in
      sample order; the first URI without `resource/` aborts it. */
  method SampledNames(uris: seq<string>) returns (names: Option<seq<string>>)
    ensures names.Some? <==> forall i :: 0 <= i < |uris| ==> EntityName(uris[i]).Some?
    ensures names.Some? ==> |names.value| == |uris|
    ensures names.Some? ==> forall i :: 0 <= i < |uris| ==> names.value[i] == EntityName(uris[i]).value
  {
    var acc: seq<string> := [];
    var i := 0;
    while i < |uris|
      invariant 0 <= i <= |uris|
      invariant |acc| == i
      invariant forall j :: 0 <= j < i ==> EntityName(uris[j]).Some? && acc[j] == EntityName(uris[j]).value
    {
      var name := EntityName(uris[i]);
      if name.None? {
        return None;
      }
      acc := acc + [name.value];
      i := i + 1;
    }
    names := Some(acc);
  }

  // ---------------------------------------------------------------------
  // Report lines
  // ---------------------------------------------------------------------

  const MaxLineLength: nat := 300

  /** A result cell: its RDF term type and its lexical value. */
  datatype Binding = Binding(kind: string, value: string)

  /** The text a report line would hold before truncation. */
  function FieldText(key: string, b: Binding): string
  {
    key + ": " + b.value
  }

  /** `f"{key}: {value['value']}"[:300]`. */
  function ReportLine(key: string, b: Binding): (line: string)
    ensures |line| <= MaxLineLength
    ensures line <= FieldText(key, b)
    ensures |FieldText(key, b)| <= MaxLineLength ==> line == FieldText(key, b)
    ensures |FieldText(key, b)| > MaxLineLength ==> |line| == MaxLineLength
  {
    Head(FieldText(key, b), MaxLineLength)
  }

  /** Truncation never cuts into a key short enough to leave room for its
      `": "`. */
  lemma ReportLineKeepsKey(key: string, b: Binding)
    requires |key| + 2 <= MaxLineLength
    ensures ReportLine(key, b)[..|key| + 2] == key + ": "
  {
    var line := ReportLine(key, b);
    assert FieldText(key, b)[..|key| + 2] == key + ": ";
    assert line == FieldText(key, b)[..|line|];
  }

  /** The lines written for one result row, one per field in field order
      (the DETAILS section and each entry of the LOCATIONS section). */
  function FieldLines(row: seq<(string, Binding)>): (lines: seq<string>)
    ensures |lines| == |row|
    ensures forall i :: 0 <= i < |row| ==> |lines[i]| <= MaxLineLength
    ensures forall i :: 0 <= i < |row| ==> lines[i] <= FieldText(row[i].0, row[i].1)
    ensures forall i :: 0 <= i < |row| ==>
      (|FieldText(row[i].0, row[i].1)| <= MaxLineLength ==> lines[i] == FieldText(row[i].0, row[i].1))
    ensures forall i :: 0 <= i < |row| ==>
      (|FieldText(row[i].0, row[i].1)| > MaxLineLength ==> |lines[i]| == MaxLineLength)
  {
    seq(|row|, i requires 0 <= i < |row| => ReportLine(row[i].0, row[i].1))
  }
}
