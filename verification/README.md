# spark.py string core, in Dafny

The script `spark.py` queries the public DBpedia SPARQL endpoint about
Valencia and writes a text report. Around the network calls sit four
pieces of pure string processing, and this project models them:

- `dedent`: split a query on `"\n"`, `strip()` every line, and join the
  lines back with `"\n"`.
- The query assembly in `send`. It walks the `PREFIXES` table backwards,
  puts `PREFIX <name>: <iri>\n` in front of the query for each entry, and
  then dedents the result.
- Entity naming. The script takes a sampled location URI and builds
  `"dbr:" + quote(uri.split('resource/')[1], safe='')`.
- Report lines. Each `key: value` line of the report is cut to its first
  300 characters.

The project has three modules:

- `PyStr` (`pystr.dfy`) models the Python `str` built-ins the script
  uses. Whitespace is Python's own `isspace` set of 29 code points. The
  module covers `strip`, `find`, `split(sep)`, `sep.join` and slicing
  `s[:n]`.
- `UrlParse` (`urlparse.dfy`) models `urllib.parse.quote` with
  `safe=''`. Characters are UTF-8 encoded. Bytes outside
  `A-Z a-z 0-9 _ . - ~` become `%XY` with upper-case hex digits. The
  module also gives a percent-decoder and a UTF-8 decoder as partners.
- `Spark` (`spark.dfy`) models the script's own logic on top of the
  other two.

A Python exception becomes `None` in the model. For example, `split(...)[1]`
on a URI without `resource/` raises `IndexError`, and the model returns
`None` there.

## Model

| member | source | states |
|---|---|---|
| PyStr.Strip | spark.py:21 | `line.strip()` returns a contiguous piece of the line. Everything cut off both sides is whitespace, and the result neither begins nor ends with whitespace |
| PyStr.StripCharacterization | spark.py:21 | A string is a strip of a line in that sense exactly when it equals `strip()` of the line, so the strip is unique |
| PyStr.StripIdempotent | spark.py:21 | Stripping twice gives the same as stripping once |
| PyStr.StrippedFixed | spark.py:21 | A line with no whitespace at either end is left unchanged by `strip()` |
| PyStr.StripKeepsOut | spark.py:21 | `strip()` adds no characters, so a character absent from the line is absent from the stripped line |
| PyStr.Find | spark.py:100 | The search `split` performs returns the first occurrence of the separator, with none before it, or reports that there is none |
| PyStr.Split | spark.py:22 | `s.split(sep)` always gives at least one piece. `PyStr.Find` fixes where it cuts, and `PyStr.JoinSplit` and `PyStr.SplitJoin` pair it with `join` |
| PyStr.Join | spark.py:20 | The first part begins the joined text. `PyStr.JoinSplit` and `PyStr.SplitJoin` pair it with `split` |
| PyStr.JoinSplit | spark.py:20-22 | Joining the pieces of `s.split(sep)` with `sep` gives back `s`, for any non-empty separator |
| PyStr.SplitJoin | spark.py:20-22 | For at least one part, with a one-character separator absent from every part, splitting the joined parts gives the same parts back (no parts join to `""`, which splits into `[""]`) |
| PyStr.SplitPiecesFree | spark.py:22 | No piece of `s.split(c)` contains `c` |
| PyStr.Head | spark.py:130 | `s[:n]` is a prefix of `s` of length `min(len(s), n)` |
| UrlParse.Utf8 | spark.py:100 | A character encodes to one to four bytes, and every byte of a multi-byte encoding is at least 0x80 |
| UrlParse.Escape | spark.py:100 | Escaping gives three characters per byte. `UrlParse.DecodeEscape` shows those characters are `%XY` and read back as the byte |
| UrlParse.DecodeEscape | spark.py:100 | Percent-decoding `Escape(bs)` followed by a decodable text `t` reads `bs` back, followed by what `t` decodes to |
| UrlParse.Quote | spark.py:100 | Quoting never shortens a segment. `UrlParse.QuoteMatchesBytes`, `UrlParse.QuoteRoundTrip`, `UrlParse.QuoteIdentity` and `UrlParse.QuoteAlphabet` give it its meaning |
| UrlParse.QuoteMatchesBytes | spark.py:100 | Quoting character by character gives the same text as Python's loop over the UTF-8 bytes, where each always-safe byte stands for itself and every other byte becomes `%XY` |
| UrlParse.HexRoundTrip | spark.py:100 | Each hex digit that `quote` writes is upper-case, always-safe and reads back as its value |
| UrlParse.DecodeQuote | spark.py:100 | Percent-decoding the output of `quote` gives the UTF-8 bytes of the input |
| UrlParse.Utf8RoundTrip | spark.py:100 | Decoding the UTF-8 encoding of a string gives the string back |
| UrlParse.QuoteRoundTrip | spark.py:100 | Unquoting the quoted segment gives the segment back |
| UrlParse.QuoteInjective | spark.py:100 | Different segments quote to different texts |
| UrlParse.QuoteIdentity | spark.py:100 | `quote(s, safe='')` equals `s` exactly when every character of `s` is always-safe |
| UrlParse.QuoteAlphabet | spark.py:100 | The output of `quote` holds only always-safe characters and `%` |
| Spark.Dedent | spark.py:19-23 | Splitting the output of `dedent` gives, line for line, the stripped input lines |
| Spark.DedentLineCount | spark.py:19-23 | `dedent` keeps the number of lines |
| Spark.DedentLinesStripped | spark.py:19-23 | No output line of `dedent` begins or ends with whitespace |
| Spark.DedentLinesAreStrips | spark.py:19-23 | Each output line is a strip of the input line at the same position |
| Spark.DedentIdempotent | spark.py:19-23 | Dedenting twice gives the same as dedenting once |
| Spark.DedentFixedPoints | spark.py:19-23 | `dedent` leaves a text unchanged exactly when none of its lines begins or ends with whitespace |
| Spark.Header | spark.py:29-30 | The header is empty exactly for an empty table and otherwise ends in a newline, so the query always starts on a fresh line. Each entry contributes at least `PREFIX : ` and a newline. `Spark.PrependPrefixes` and `Spark.HeaderLines` say what the text is |
| Spark.Build | spark.py:29-31 | Dedenting an assembled query again changes nothing. `Spark.BuildLines` and `Spark.BuildHeaderVerbatim` say what its lines are |
| Spark.PrependPrefixes | spark.py:29-30 | The backwards prepending loop leaves the declarations in forward table order, one per line, ahead of the unchanged query |
| Spark.AssembleQuery | spark.py:29-31 | The loop followed by `dedent`. When no declaration spans lines, the lines of the result are the stripped declarations followed by the stripped body lines |
| Spark.HeaderLines | spark.py:29-30 | When no declaration spans lines, the prepended text adds, before `dedent`, exactly one line per table entry, in table order, ahead of the query's own lines |
| Spark.BuildLines | spark.py:29-31 | When no declaration spans lines, the assembled query has one stripped declaration line per entry, then one stripped line per body line |
| Spark.BuildLineCount | spark.py:29-31 | When no declaration spans lines, the assembled query has as many lines as table entries plus body lines |
| Spark.BuildHeaderVerbatim | spark.py:29-31 | When every declaration is already trimmed, the assembled query is the declarations verbatim followed by the dedented body |
| Spark.WellFormedDeclaration | spark.py:30 | A declaration built from an entry without line breaks whose IRI ends with `>` is a single line with no whitespace to strip |
| Spark.PrefixesWellFormed | spark.py:8-16 | No name or IRI in the script's table holds a line break, and every IRI ends with `>` |
| Spark.PrefixesTrimmed | spark.py:8-16 | Every entry of the script's table declares itself on one trimmed line |
| Spark.PrefixesQuery | spark.py:8-31 | Every query `send` submits is the seven declarations verbatim, from `dbo` to `rdfs`, each on its own line, followed by the dedented query |
| Spark.EntityName | spark.py:100-101 | Naming fails, as `IndexError` in Python, exactly when the URI has no `resource/`, and a name always begins with `dbr:`. The lemmas below say which segment is quoted |
| Spark.EntityNameMiddleSegment | spark.py:99-101 | With two or more occurrences of `resource/`, the name is `dbr:` plus the quoted text between the first two occurrences |
| Spark.EntityNameLastSegment | spark.py:99-101 | With exactly one occurrence, the name is `dbr:` plus the quoted text after it |
| Spark.EntityNameAlphabet | spark.py:100-101 | A name is `dbr:` followed only by always-safe characters and `%` |
| Spark.EntityNameNoSpace | spark.py:100-101 | A name holds no space |
| Spark.EntityNameInjective | spark.py:99-101 | URIs with one `resource/` each and different final segments get different names |
| Spark.SampledNames | spark.py:96-101 | The naming loop succeeds exactly when every sampled URI can be named. On success it gives one name per URI, in sample order |
| Spark.ValuesRoundTrip | spark.py:113 | For a non-empty sample, splitting `' '.join(names)` on spaces gives back exactly the names, so the `VALUES` list holds each entity separately |
| Spark.ReportLine | spark.py:130 | A report line is at most 300 characters and is a prefix of `key: value`. It is the whole text when that fits, and exactly 300 characters otherwise |
| Spark.ReportLineKeepsKey | spark.py:130 | Truncation never cuts into the key and its `": "` when they fit in 300 characters |
| Spark.FieldLines | spark.py:139-140 | A result row gives one line per field, in field order. Each line is at most 300 characters and is a prefix of its `key: value` text. It is the whole text when that fits, and exactly 300 characters otherwise |

## Left out

- The SPARQL endpoint client (spark.py:27-28, 32-39): building the
  client, sending the query, the `print` of the query, and reading
  `results.bindings` from the response all talk to the network. The model
  stops at the query text that would be sent.
- The text of the four SPARQL queries (spark.py:48-72, 78-84, 88-92,
  103-122): what they ask DBpedia is not modelled. `dedent` and the prefix
  loop are modelled for every query body.
- `random.sample` (spark.py:98, 133): the sampled URIs are an input to
  `Spark.SampledNames`. `location['event']['value']` (spark.py:99) is
  taken as already extracted.
- File handling (spark.py:44-46, 127-140): removing and opening
  `valencia.txt` and writing the section headers, blank lines and image
  lines are I/O. Only the content of each truncated `key: value` line is
  modelled.
- The `assert`s on the endpoint's answers (spark.py:74-75, 86, 94, 124-125)
  are about remote data.
- PyStr.Split: requires a non-empty separator. Python raises `ValueError`
  for an empty one, and the script only splits on `"\n"` and
  `"resource/"`.
- PyStr.SplitJoin: the split-after-join round trip is stated for
  one-character separators only. For longer separators it is false:
  `"aa"` joins `["a", ""]` into `"aaa"`, which splits into `["", "a"]`.
- UrlParse.Quote: a Dafny `char` is a Unicode scalar value. A Python
  string holding a lone surrogate makes `quote` raise
  `UnicodeEncodeError`, and that case cannot arise in the model.
- Spark.FieldLines: a result row is an ordered sequence of (key, binding)
  pairs, standing for the dictionary in its iteration order. A binding
  keeps only the `type` and `value` fields. Of these, the report uses
  `value`.
