# netdb: the protocol and service databases, modelled in Dafny

`netdb` offers, in Go, the `protoent` and `servent` records of `netdb.h`.
When the package starts it reads `/etc/protocols` and `/etc/services` into
two tables. It goes through each text line by line:

- it trims the line;
- it cuts the line at the first `#`;
- it splits the rest at whitespace;
- it skips a line with fewer than two fields;
- otherwise it appends one record.

A protocols line is `name number alias...`. A services line is
`name port/protocol alias...`. A number that does not parse aborts the
load. After loading, four lookups scan a table and return its first
matching record, or the zero record and `false`:

- by protocol number;
- by protocol name or alias;
- by service name or alias, under a protocol filter;
- by port, under a protocol filter.

For both service lookups an empty protocol lets every protocol through.

The model has these modules:

- `Outcomes`: `Option` and `Result`.
- `SeqFacts`: small facts about sequence slicing and concatenation.
- `StringsSplit`: Go's `strings.Split` for a one-character separator, and
  `strings.Join` as its inverse.
- `StringsCut`: `strings.SplitN(s, sep, 2)`, as the function `SplitFirst`
  and its first part `Before`.
- `StringsFields`: `strings.TrimSpace` and `strings.Fields` on ASCII
  whitespace.
- `Strconv`: `strconv.ParseInt(s, 10, 32)` as `ParseInt32`, and decimal
  formatting as its inverse.
- `Netdb`: the two record types and `Protoent.Equal`. It also holds:
  - how one line becomes `Skipped`, an `Entry` or `Malformed`;
  - the table a text gives (`ProtocolTable`, `ServiceTable`);
  - the two loading loops, as methods proved equal to those tables;
  - the four lookups, as first-match functions.
- `NetdbLemmas`:
  - loading is all or nothing, and a failure reports the first bad line;
  - texts concatenate, and comments are ignored;
  - formatting entries and loading them back gives the entries;
  - a lookup in two tables one after the other takes the first table's
    match;
  - the empty protocol filter finds whatever some protocol finds.
- `NetdbRecords`: a table that loads has one record per line with at least
  two fields, in line order, and each record is built from its line's
  fields.

A `panic` during the load becomes a `Failure` holding a `LoadError`, which
is one of two things:

- `InvalidNumber(text)`: `ParseInt` refused `text`.
- `MissingProtocol(field)`: a service field had no `/`. In Go,
  `portproto[1]` then indexes past the end of the slice and panics.

The services loop parses the port before it looks at `portproto[1]`.
So a field without `/` fails as `InvalidNumber` when its text is not a
number, and as `MissingProtocol` only when it is.

## Model

| member | source | states |
|---|---|---|
| Netdb.LoadProtocols | netdb.go:42-60 | The protocols loop returns exactly `ProtocolTable(data)`: the line outcomes of the text split at `\n`, collected in order, failing at the first bad number. |
| Netdb.LoadServices | netdb.go:68-92 | The services loop returns exactly `ServiceTable(data)`, with failure at the first bad port or missing `/`. |
| Netdb.ProtocolStep | netdb.go:43-59 | One protocols line: fewer than two fields leaves the table as it is. A field 1 that does not parse fails with `InvalidNumber(field 1)`. Otherwise the line appends `Protoent(field 0, fields 2.., number)`. |
| Netdb.ServiceStep | netdb.go:69-91 | One services line: fewer than two fields leaves the table as it is. An unparsable port fails with `InvalidNumber`. A field 1 without `/` fails with `MissingProtocol`. Otherwise the line appends `Servent(field 0, fields 2.., port, text after the first /)`. |
| Netdb.CollectFailureStays | netdb.go:50-53 | Once the lines so far have failed, the whole load fails with that same error: the panic ends the loop. |
| Netdb.GetProtoByNumber | netdb.go:103-110 | Found iff some entry has the number. The result is the earliest such entry. When nothing matches, the result is the zero `Protoent` and `false`. |
| Netdb.GetProtoByName | netdb.go:114-128 | Found iff some entry has the name as its name or one of its aliases. The result is the earliest such entry, or the zero `Protoent` and `false`. |
| Netdb.GetServByName | netdb.go:133-151 | Found iff some entry passes the protocol filter (`""` or equal) and has the name as name or alias. The result is the earliest such entry, or the zero `Servent` and `false`. |
| Netdb.GetServByPort | netdb.go:156-164 | Found iff some entry has the port and passes the protocol filter. The result is the earliest such entry, or the zero `Servent` and `false`. |
| NetdbLemmas.EqualIsEquivalence | netdb.go:95-99 | `Equal` holds iff the numbers agree. It is reflexive, symmetric and transitive, and names and aliases do not matter. |
| NetdbLemmas.CollectAppend | netdb.go:42-60 | Collecting two runs of lines gives the first run's records followed by the second's. The first failure wins. |
| NetdbLemmas.CollectSucceeds | netdb.go:50-53 | A load succeeds iff no line outcome is malformed. |
| NetdbLemmas.CollectFirstError | netdb.go:50-53 | A failed load reports the error of the earliest malformed line. |
| NetdbLemmas.CollectEntries | netdb.go:55-59 | Lines that are all entries give exactly those records, in order. |
| NetdbLemmas.ProtocolTableConcat | netdb.go:42 | The protocols table of `a + "\n" + b` is the table of `a` followed by the table of `b`. Either one failing fails it. |
| NetdbLemmas.ServiceTableConcat | netdb.go:68 | The same for the services table. |
| NetdbLemmas.ProtocolTableLine | netdb.go:42-60 | A text without a line break gives at most that one line's record, or its error. |
| NetdbLemmas.ServiceTableLine | netdb.go:68-92 | The same for services. |
| NetdbLemmas.ProtocolTableAllOrNothing | netdb.go:42-60 | The protocols load succeeds iff no line of the text is malformed. A failure carries the error of the first malformed line. |
| NetdbLemmas.ServiceTableAllOrNothing | netdb.go:68-92 | The same for the services load. |
| NetdbLemmas.LineFieldsUntrimmed | netdb.go:43-45 | Trimming a line before cutting it at `#` does not change its fields. |
| NetdbLemmas.CommentIgnored | netdb.go:44-45 | Everything from the first `#` on is ignored: the line with a comment has the same fields and outcome, for both loaders, as the line without it. |
| NetdbLemmas.CommentLineSkipped | netdb.go:43-47 | A line of whitespace only, with or without a comment after it, has no fields and is skipped by both loaders. |
| NetdbLemmas.WordsLine | netdb.go:42-45 | Words without whitespace, `#` or line breaks, joined by spaces, form one line whose fields are exactly those words. |
| NetdbLemmas.ProtocolLineRoundTrip | netdb.go:43-59 | The line `name number alias...` of a well-formed entry loads back as that entry. |
| NetdbLemmas.ServiceLineRoundTrip | netdb.go:69-91 | The line `name port/protocol alias...` of a well-formed entry loads back as that entry. The protocol may be empty or contain further `/`. |
| NetdbLemmas.PortProtocolField | netdb.go:77 | `digits/protocol` is cut at its first `/` into the digits and the protocol. |
| NetdbLemmas.ProtocolTableRoundTrip | netdb.go:42-60 | A text with one formatted line per well-formed entry loads as exactly those entries, in order. |
| NetdbLemmas.ServiceTableRoundTrip | netdb.go:68-92 | The same for services. |
| NetdbLemmas.ServiceLineWithoutSlash | netdb.go:77-83 | A service line whose field 1 is a number without `/` is malformed with `MissingProtocol`. |
| NetdbLemmas.ProtoByNumberAppend | netdb.go:104-107 | A number lookup in `a + b` is the lookup in `a` when that finds something, and otherwise the lookup in `b`. |
| NetdbLemmas.ProtoByNameAppend | netdb.go:115-125 | The same for protocol name lookups. |
| NetdbLemmas.ServByNameAppend | netdb.go:134-148 | The same for service name lookups. |
| NetdbLemmas.ServByPortAppend | netdb.go:157-161 | The same for port lookups. |
| NetdbLemmas.ServByPortWildcard | netdb.go:158 | If a port lookup finds something under some protocol, so does the lookup under `""`. What `""` finds is also the first match under its own protocol. |
| NetdbLemmas.ServByNameWildcard | netdb.go:135-147 | The same for service name lookups. |
| NetdbLemmas.OneProtocolLine | netdb.go:42-60 | The line of one well-formed protocol loads as the table of that entry alone, and that table finds it by number, name and every alias. |
| NetdbLemmas.OneServiceLine | netdb.go:68-92 | The line of one well-formed service loads as the table of that entry alone. That table finds it by port under its own protocol and under `""`, not under another protocol, and by name under `""`. |
| NetdbLemmas.ProtocolBadNumber | netdb.go:50-53 | A protocols line `name text`, where `text` does not parse, is malformed with `InvalidNumber(text)` and fails the table. |
| NetdbLemmas.ServiceBadNumber | netdb.go:78-81 | A services line whose field 1 has no `/` and does not parse fails as `InvalidNumber`, not `MissingProtocol`: the port is parsed first. |
| NetdbLemmas.ServiceWithoutProtocol | netdb.go:77-83 | The services text `name port` fails with `MissingProtocol(port)`. |
| NetdbLemmas.ProtocolNumberOutOfRange | netdb.go:50-53 | A protocols line whose number lies outside the 32-bit signed range fails the load with `InvalidNumber`. |
| NetdbLemmas.ProtocolFailureAfterLines | netdb.go:50-53 | A bad line fails the protocols load with its own error, whatever good lines come before it. |
| NetdbLemmas.ServiceFailureAfterLines | netdb.go:78-81 | The same for the services load. |
| NetdbRecords.ProtocolRecords | netdb.go:42-60 | A successful protocols collection has one record per line with at least two fields, in order. Each record's name is field 0, its number is field 1 parsed, and its aliases are fields 2... |
| NetdbRecords.ServiceRecords | netdb.go:68-92 | A successful services collection has one record per line with at least two fields, in order. Each record's name is field 0 and its aliases are fields 2... Its port is the parsed text before the first `/` of field 1, and its protocol is the text after it. |
| NetdbRecords.ProtocolTableRecords | netdb.go:42-60 | The protocols table of a text, when it loads, is the records of the text's kept lines, in order. |
| NetdbRecords.ServiceTableRecords | netdb.go:68-92 | The services table of a text, when it loads, is the records of the text's kept lines, in order. |
| Strconv.ParseInt32 | netdb.go:50 | A parsed value lies in the 32-bit signed range, and the text is an optional sign followed by at least one decimal digit; so any other text is refused. Out-of-range values are refused by `ParseOutOfRange`, and leading zeros are covered by `ParseLeadingZero`. |
| Strconv.ParseFormat | netdb.go:50 | Parsing the decimal text of any 32-bit signed value gives that value back. |
| Strconv.ParsePlus | netdb.go:50 | A leading `+` is accepted and changes nothing. |
| Strconv.ParseOutOfRange | netdb.go:50 | The decimal text of any value outside the 32-bit signed range is refused. |
| Strconv.ParseLeadingZero | netdb.go:50 | A leading `0` before digits is accepted and does not change the value. |
| Strconv.ParseSignedLeadingZero | netdb.go:50 | The same after a `-` or `+` sign. |
| Strconv.ParseMinusZero | netdb.go:50 | `-0` is accepted as zero. |
| StringsSplit.SplitJoin | netdb.go:42 | Joining the pieces of `Split` with the separator gives back the text. |
| StringsSplit.JoinSplit | netdb.go:42 | `Split` undoes `Join` for pieces that do not contain the separator. |
| StringsSplit.SplitPieces | netdb.go:42 | No piece of `Split` contains the separator. |
| StringsSplit.SplitNoSeparator | netdb.go:42 | A text without the separator splits into itself alone. |
| StringsSplit.SplitConcat | netdb.go:42 | Splitting `a + sep + b` gives the pieces of `a` followed by those of `b`. |
| StringsCut.SplitFirst | netdb.go:44 | One part, the whole text, iff the separator does not occur. Otherwise two parts around the first occurrence, and the first part has no separator. |
| StringsCut.BeforeFound | netdb.go:44 | When the separator occurs, the first part stops just in front of its first occurrence. |
| StringsCut.BeforeSeparator | netdb.go:44 | The first part of `a + sep + b` is `a` when `a` has no separator. |
| StringsCut.BeforePrefixed | netdb.go:44 | Characters without the separator, put in front of a text, are kept in front of its first part. |
| StringsCut.BeforeExtended | netdb.go:44 | What follows the first separator does not change the first part. |
| StringsFields.TrimSpace | netdb.go:43 | The result is no longer than the text, and it neither starts nor ends with whitespace. |
| StringsFields.TrimSpacePadding | netdb.go:43 | The text is the result with only whitespace before and after it. |
| StringsFields.Fields | netdb.go:45 | Every field is non-empty and contains no whitespace. |
| StringsFields.FieldsAtSpace | netdb.go:45 | One whitespace character separates the fields of both sides: `Fields(a + c + b) == Fields(a) + Fields(b)`. |
| StringsFields.FieldsPadded | netdb.go:45 | Leading and trailing whitespace do not change the fields. |
| StringsFields.FieldsJoin | netdb.go:45 | `Fields` undoes joining non-empty words without whitespace with single spaces. |
| StringsFields.FieldsBeforeTrimmed | netdb.go:43-45 | Trimming before cutting at a non-space character does not change the fields of the first part. |

## Left out

- Reading `/etc/protocols` and `/etc/services` (netdb.go:37, netdb.go:63) is file I/O. The loaders take the file's text as a parameter. A failed read and its panic (netdb.go:38-40, netdb.go:64-66) are not modelled.
- The panics (netdb.go:52, netdb.go:80, and the index past the end at netdb.go:83) are not modelled as a process abort. Each is a `Failure` result of the loader. Go keeps the entries appended before the panic in the global slices; the model drops them with the failed load.
- The package-level `Protocols` and `Services` slices and `init` timing (netdb.go:30-35) are not modelled. The loaders return the tables, and the lookups take a table as a parameter.
- Strconv.ParseInt32: Go's two error kinds, syntax and range, are both `None`. The loader's error keeps the refused text, not the kind.
- StringsFields.TrimSpace: whitespace is the ASCII whitespace only: space, tab, line feed, vertical tab, form feed and carriage return. Go's `unicode.IsSpace` also accepts U+0085, U+00A0 and other Unicode spaces.
- Text is a sequence of characters, not of bytes. Go's `Split` and `SplitN` cut UTF-8 bytes at the ASCII separators `\n`, `#` and `/`, which gives the same pieces. Go's `Fields` decodes runes and asks `unicode.IsSpace`, so its pieces agree with the model's only when the text's whitespace is ASCII, as the `TrimSpace` line above says.
- Go's `int` is 32 or 64 bits wide depending on the platform, so at least 32 bits. Numbers and ports are unbounded integers in the model. The values stored always lie in the 32-bit range, so no wrap-around arises on any platform.
- Go distinguishes a nil slice from an empty one; the aliases of a line with two fields are the empty sequence.
- The four lookups are `for ... range` loops with early return over read-only slices. They are modelled as recursive first-match functions, which change nothing either.
