/** What the protocol and service databases promise: how a text becomes a
    table line by line, that loading is all or nothing, that comments are
    ignored, that formatting an entry and loading it back gives the entry,
    and that every query returns the first match in file order. */
module NetdbLemmas {
  import opened Outcomes
  import opened StringsSplit
  import opened StringsCut
  import opened StringsFields
  import opened Strconv
  import opened Netdb
  import opened SeqFacts

  // ---------------------------------------------------------------------------
  // Collect: tables are built line by line, all or nothing

  /** The table of two runs of lines, one after the other. */
  function Combine<R>(a: Result<seq<R>, LoadError>, b: Result<seq<R>, LoadError>): Result<seq<R>, LoadError> {
    if a.Failure? then a
    else if b.Failure? then b
    else Success(a.value + b.value)
  }

  lemma {:induction false} CollectAppend<R>(xs: seq<LineOutcome<R>>, ys: seq<LineOutcome<R>>)
    ensures Collect(xs + ys) == Combine(Collect(xs), Collect(ys))
    decreases |ys|
  {
    if ys == [] {
      assert xs + ys == xs;
      if Collect(xs).Success? {
        assert Collect(xs).value + [] == Collect(xs).value;
      }
    } else {
      var zs := xs + ys;
      var ys' := ys[..|ys| - 1];
      assert zs[..|zs| - 1] == xs + ys';
      assert zs[|zs| - 1] == ys[|ys| - 1];
      CollectAppend(xs, ys');
      if Collect(xs).Success? && Collect(ys').Success? {
        var last := ys[|ys| - 1];
        if last.Entry? {
          assert Collect(xs).value + Collect(ys').value + [last.record]
              == Collect(xs).value + (Collect(ys').value + [last.record]);
        }
      }
    }
  }

  /** A load succeeds exactly when no line is malformed. */
  lemma {:induction false} CollectSucceeds<R>(xs: seq<LineOutcome<R>>)
    ensures Collect(xs).Success? <==> forall i :: 0 <= i < |xs| ==> !xs[i].Malformed?
  {
    if xs != [] {
      var init := xs[..|xs| - 1];
      CollectSucceeds(init);
      assert forall i :: 0 <= i < |init| ==> init[i] == xs[i];
    }
  }

  /** A failed load reports the first malformed line. */
  lemma {:induction false} CollectFirstError<R>(xs: seq<LineOutcome<R>>)
    requires Collect(xs).Failure?
    ensures exists i :: 0 <= i < |xs| && xs[i] == Malformed(Collect(xs).error)
                        && forall j :: 0 <= j < i ==> !xs[j].Malformed?
  {
    var init := xs[..|xs| - 1];
    assert forall i :: 0 <= i < |init| ==> init[i] == xs[i];
    if Collect(init).Failure? {
      CollectFirstError(init);
      var i :| 0 <= i < |init| && init[i] == Malformed(Collect(init).error)
               && forall j :: 0 <= j < i ==> !init[j].Malformed?;
      assert xs[i] == Malformed(Collect(xs).error);
    } else {
      CollectSucceeds(init);
      assert xs[|xs| - 1] == Malformed(Collect(xs).error);
    }
  }

  lemma CollectSingle<R>(x: LineOutcome<R>)
    ensures Collect([x]) == Extend([], x)
  {
    assert [x][..0] == [];
  }

  lemma CollectOne<R>(xs: seq<LineOutcome<R>>, x: LineOutcome<R>)
    requires |xs| == 1 && xs[0] == x
    ensures Collect(xs) == Extend([], x)
  {
    assert xs == [x];
    CollectSingle(x);
  }

  /** Lines that are all entries give exactly those records, in order. */
  lemma {:induction false} CollectEntries<R>(records: seq<R>, xs: seq<LineOutcome<R>>)
    requires |xs| == |records|
    requires forall i :: 0 <= i < |xs| ==> xs[i] == Entry(records[i])
    ensures Collect(xs) == Success(records)
  {
    if xs != [] {
      var n := |xs| - 1;
      CollectEntries(records[..n], xs[..n]);
      assert records[..n] + [records[n]] == records;
    }
  }

  // ---------------------------------------------------------------------------
  // Tables from texts

  lemma OutcomesAppend(a: seq<string>, b: seq<string>)
    ensures ProtocolOutcomes(a + b) == ProtocolOutcomes(a) + ProtocolOutcomes(b)
    ensures ServiceOutcomes(a + b) == ServiceOutcomes(a) + ServiceOutcomes(b)
  {
    assert forall i :: 0 <= i < |a| ==> (a + b)[i] == a[i];
    assert forall i :: |a| <= i < |a + b| ==> (a + b)[i] == b[i - |a|];
  }

  /** Two texts joined by a line break give the records of the first and then
      those of the second; either one failing fails the whole load. */
  lemma ProtocolTableConcat(a: string, b: string)
    ensures ProtocolTable(a + "\n" + b) == Combine(ProtocolTable(a), ProtocolTable(b))
  {
    SplitConcat(a, b, '\n');
    OutcomesAppend(Split(a, '\n'), Split(b, '\n'));
    CollectAppend(ProtocolOutcomes(Split(a, '\n')), ProtocolOutcomes(Split(b, '\n')));
  }

  lemma ServiceTableConcat(a: string, b: string)
    ensures ServiceTable(a + "\n" + b) == Combine(ServiceTable(a), ServiceTable(b))
  {
    SplitConcat(a, b, '\n');
    OutcomesAppend(Split(a, '\n'), Split(b, '\n'));
    CollectAppend(ServiceOutcomes(Split(a, '\n')), ServiceOutcomes(Split(b, '\n')));
  }

  /** A text of one line gives at most that line's record. */
  lemma ProtocolTableLine(line: string)
    requires '\n' !in line
    ensures ProtocolTable(line) == Extend([], ProtocolLine(line))
  {
    SplitNoSeparator(line, '\n');
    CollectOne(ProtocolOutcomes([line]), ProtocolLine(line));
  }

  lemma ServiceTableLine(line: string)
    requires '\n' !in line
    ensures ServiceTable(line) == Extend([], ServiceLine(line))
  {
    SplitNoSeparator(line, '\n');
    CollectOne(ServiceOutcomes([line]), ServiceLine(line));
  }

  /** Loading is all or nothing: it succeeds exactly when no line is
      malformed, and a failure names the error of the first malformed line. */
  lemma ProtocolTableAllOrNothing(data: string, lines: seq<string>)
    requires lines == Split(data, '\n')
    ensures ProtocolTable(data).Success? <==> forall i :: 0 <= i < |lines| ==> !ProtocolLine(lines[i]).Malformed?
    ensures ProtocolTable(data).Failure? ==>
              exists i :: 0 <= i < |lines| && ProtocolLine(lines[i]) == Malformed(ProtocolTable(data).error)
                          && forall j :: 0 <= j < i ==> !ProtocolLine(lines[j]).Malformed?
  {
    var outcomes := ProtocolOutcomes(lines);
    CollectSucceeds(outcomes);
    if ProtocolTable(data).Failure? {
      CollectFirstError(outcomes);
      var i :| 0 <= i < |outcomes| && outcomes[i] == Malformed(Collect(outcomes).error)
               && forall j :: 0 <= j < i ==> !outcomes[j].Malformed?;
      assert ProtocolLine(lines[i]) == Malformed(ProtocolTable(data).error);
    }
  }

  lemma ServiceTableAllOrNothing(data: string, lines: seq<string>)
    requires lines == Split(data, '\n')
    ensures ServiceTable(data).Success? <==> forall i :: 0 <= i < |lines| ==> !ServiceLine(lines[i]).Malformed?
    ensures ServiceTable(data).Failure? ==>
              exists i :: 0 <= i < |lines| && ServiceLine(lines[i]) == Malformed(ServiceTable(data).error)
                          && forall j :: 0 <= j < i ==> !ServiceLine(lines[j]).Malformed?
  {
    var outcomes := ServiceOutcomes(lines);
    CollectSucceeds(outcomes);
    if ServiceTable(data).Failure? {
      CollectFirstError(outcomes);
      var i :| 0 <= i < |outcomes| && outcomes[i] == Malformed(Collect(outcomes).error)
               && forall j :: 0 <= j < i ==> !outcomes[j].Malformed?;
      assert ServiceLine(lines[i]) == Malformed(ServiceTable(data).error);
    }
  }

  // ---------------------------------------------------------------------------
  // Fields of a line, comments

  /** Trimming the line first changes nothing about its fields. */
  lemma LineFieldsUntrimmed(line: string)
    ensures LineFields(line) == Fields(Before(line, '#'))
  {
    FieldsBeforeTrimmed(line, '#');
  }

  /** Everything from the first `#` on is a comment. */
  lemma CommentIgnored(line: string, comment: string)
    requires '#' !in line
    ensures LineFields(line + "#" + comment) == LineFields(line) == Fields(line)
    ensures ProtocolLine(line + "#" + comment) == ProtocolLine(line)
    ensures ServiceLine(line + "#" + comment) == ServiceLine(line)
  {
    var commented := line + "#" + comment;
    LineFieldsUntrimmed(commented);
    LineFieldsUntrimmed(line);
    BeforeSeparator(line, comment, '#');
    assert Before(commented, '#') == line;
    assert Before(line, '#') == line;
  }

  /** A blank line, or one with only a comment, adds no record. */
  lemma CommentLineSkipped(blank: string, comment: string)
    requires AllSpace(blank)
    ensures LineFields(blank) == [] && LineFields(blank + "#" + comment) == []
    ensures ProtocolLine(blank) == Skipped && ServiceLine(blank) == Skipped
    ensures ProtocolLine(blank + "#" + comment) == Skipped
    ensures ServiceLine(blank + "#" + comment) == Skipped
  {
    assert '#' !in blank;
    CommentIgnored(blank, comment);
    FieldsOfSpaces(blank);
  }

  /** A number outside the 32-bit signed range fails the protocols load. */
  lemma ProtocolNumberOutOfRange(name: string, n: int)
    requires IsWord(name) && (n < MinInt32 || n > MaxInt32)
    ensures ProtocolTable(name + " " + FormatInt(n)) == Failure(InvalidNumber(FormatInt(n)))
  {
    FormatIntIsWord(n);
    ParseOutOfRange(n);
    ProtocolBadNumber(name, FormatInt(n));
  }

  // ---------------------------------------------------------------------------
  // Formatting entries, and loading them back

  /** A name or alias that survives a round trip: non-empty, no whitespace, no `#`. */
  predicate IsWord(w: string) {
    w != [] && NoSpace(w) && '#' !in w
  }

  predicate AllWords(ws: seq<string>) {
    forall k :: 0 <= k < |ws| ==> IsWord(ws[k])
  }

  predicate WellFormedProtoent(p: Protoent) {
    IsWord(p.name) && AllWords(p.aliases) && MinInt32 <= p.number <= MaxInt32
  }

  /** The protocol part may be empty or hold further `/`, as the loader allows. */
  predicate WellFormedServent(s: Servent) {
    IsWord(s.name) && AllWords(s.aliases) && MinInt32 <= s.port <= MaxInt32
    && NoSpace(s.protocol) && '#' !in s.protocol
  }

  /** The line `name number alias...`. */
  function FormatProtocol(p: Protoent): string {
    Join([p.name, FormatInt(p.number)] + p.aliases, ' ')
  }

  /** The line `name port/protocol alias...`. */
  function FormatService(s: Servent): string {
    Join([s.name, FormatInt(s.port) + "/" + s.protocol] + s.aliases, ' ')
  }

  /** A protocols text with one line per entry. */
  function ProtocolText(protocols: seq<Protoent>): string {
    Join(seq(|protocols|, i requires 0 <= i < |protocols| => FormatProtocol(protocols[i])), '\n')
  }

  /** A services text with one line per entry. */
  function ServiceText(services: seq<Servent>): string {
    Join(seq(|services|, i requires 0 <= i < |services| => FormatService(services[i])), '\n')
  }

  lemma FormatIntIsWord(n: int)
    ensures IsWord(FormatInt(n)) && '/' !in FormatInt(n)
  {
  }

  /** Words joined by spaces are one line whose fields are those words. */
  lemma WordsLine(words: seq<string>)
    requires AllWords(words)
    ensures LineFields(Join(words, ' ')) == words
    ensures '\n' !in Join(words, ' ')
  {
    var line := Join(words, ' ');
    forall c | c == '#' || c == '\n'
      ensures c !in line
    {
      if c in line {
        JoinChars(words, ' ', c);
      }
    }
    LineFieldsUntrimmed(line);
    FieldsJoin(words);
  }

  /** Loading the line of a protocol entry gives back that entry. */
  lemma ProtocolLineRoundTrip(p: Protoent)
    requires WellFormedProtoent(p)
    ensures ProtocolLine(FormatProtocol(p)) == Entry(p)
    ensures '\n' !in FormatProtocol(p)
  {
    var words := [p.name, FormatInt(p.number)] + p.aliases;
    FormatIntIsWord(p.number);
    WordsLine(words);
    ParseFormat(p.number);
    assert words[2..] == p.aliases;
  }

  /** Loading the line of a service entry gives back that entry. */
  lemma ServiceLineRoundTrip(s: Servent)
    requires WellFormedServent(s)
    ensures ServiceLine(FormatService(s)) == Entry(s)
    ensures '\n' !in FormatService(s)
  {
    var digits := FormatInt(s.port);
    var field := digits + "/" + s.protocol;
    FormatIntIsWord(s.port);
    PortProtocolField(digits, s.protocol, field);
    var words := [s.name, field] + s.aliases;
    WordsLine(words);
    ParseFormat(s.port);
    assert words[2..] == s.aliases;
    ServiceLineOfFields(FormatService(s), words, [digits, s.protocol], s.port);
  }

  /** The `port/protocol` field of a service line, and how it is cut. */
  lemma PortProtocolField(digits: string, protocol: string, field: string)
    requires IsWord(digits) && '/' !in digits
    requires NoSpace(protocol) && '#' !in protocol
    requires field == digits + "/" + protocol
    ensures IsWord(field)
    ensures SplitFirst(field, '/') == [digits, protocol]
  {
    assert forall i :: 0 <= i < |field| ==>
      field[i] == (if i < |digits| then digits[i] else if i == |digits| then '/' else protocol[i - |digits| - 1]);
    var parts := SplitFirst(field, '/');
    assert field == digits + ['/'] + protocol;
    BeforeSeparator(digits, protocol, '/');
    assert parts[0] == digits;
    assert field[|digits| + 1..] == protocol;
  }

  /** A service line whose fields hold a number and a protocol. */
  lemma ServiceLineOfFields(line: string, fields: seq<string>, portproto: seq<string>, port: int)
    requires LineFields(line) == fields && |fields| >= 2
    requires SplitFirst(fields[1], '/') == portproto && |portproto| == 2
    requires ParseInt32(portproto[0]) == Some(port)
    ensures ServiceLine(line) == Entry(Servent(fields[0], fields[2..], port, portproto[1]))
  {
  }

  /** Formatting a whole table, one entry per line, and loading it gives the table back. */
  lemma ProtocolTableRoundTrip(protocols: seq<Protoent>)
    requires forall i :: 0 <= i < |protocols| ==> WellFormedProtoent(protocols[i])
    ensures ProtocolTable(ProtocolText(protocols)) == Success(protocols)
  {
    var lines := seq(|protocols|, i requires 0 <= i < |protocols| => FormatProtocol(protocols[i]));
    assert ProtocolText(protocols) == Join(lines, '\n');
    forall i | 0 <= i < |lines|
      ensures '\n' !in lines[i] && ProtocolLine(lines[i]) == Entry(protocols[i])
    {
      ProtocolLineRoundTrip(protocols[i]);
    }
    var outcomes;
    if lines == [] {
      assert Split(Join(lines, '\n'), '\n') == [""];
      outcomes := ProtocolOutcomes([""]);
      assert outcomes == [Skipped];
      CollectSingle(outcomes[0]);
    } else {
      JoinSplit(lines, '\n');
      outcomes := ProtocolOutcomes(lines);
      CollectEntries(protocols, outcomes);
    }
  }

  lemma ServiceTableRoundTrip(services: seq<Servent>)
    requires forall i :: 0 <= i < |services| ==> WellFormedServent(services[i])
    ensures ServiceTable(ServiceText(services)) == Success(services)
  {
    var lines := seq(|services|, i requires 0 <= i < |services| => FormatService(services[i]));
    assert ServiceText(services) == Join(lines, '\n');
    forall i | 0 <= i < |lines|
      ensures '\n' !in lines[i] && ServiceLine(lines[i]) == Entry(services[i])
    {
      ServiceLineRoundTrip(services[i]);
    }
    var outcomes;
    if lines == [] {
      assert Split(Join(lines, '\n'), '\n') == [""];
      outcomes := ServiceOutcomes([""]);
      assert outcomes == [Skipped];
      CollectSingle(outcomes[0]);
    } else {
      JoinSplit(lines, '\n');
      outcomes := ServiceOutcomes(lines);
      CollectEntries(services, outcomes);
    }
  }

  /** Two words separated by a space: a line with exactly those two fields. */
  lemma WordsPairLine(a: string, b: string)
    requires IsWord(a) && IsWord(b)
    ensures LineFields(a + " " + b) == [a, b]
    ensures '\n' !in a + " " + b
  {
    var words := [a, b];
    assert words[1..] == [b];
    assert Join(words, ' ') == a + " " + b;
    WordsLine(words);
  }

  /** A service field with a number but no `/` fails the load. */
  lemma ServiceLineWithoutSlash(name: string, port: int)
    requires IsWord(name) && MinInt32 <= port <= MaxInt32
    ensures ServiceLine(name + " " + FormatInt(port)) == Malformed(MissingProtocol(FormatInt(port)))
  {
    FormatIntIsWord(port);
    WordsPairLine(name, FormatInt(port));
    ParseFormat(port);
  }

  // ---------------------------------------------------------------------------
  // Queries

  /** `Equal` looks at numbers only, so it is an equivalence that ignores
      names and aliases. */
  lemma EqualIsEquivalence(a: Protoent, b: Protoent, c: Protoent)
    ensures a.Equal(b) <==> a.number == b.number
    ensures a.Equal(a)
    ensures a.Equal(b) ==> b.Equal(a)
    ensures a.Equal(b) && b.Equal(c) ==> a.Equal(c)
    ensures a.Equal(Protoent(b.name, b.aliases, a.number))
  {
  }

  /** Looking up in two tables one after the other takes the first table's
      match if there is one: with `ProtocolTableConcat`, the earlier of two
      lines with the same number wins. */
  lemma {:induction false} ProtoByNumberAppend(a: seq<Protoent>, b: seq<Protoent>, num: int)
    ensures GetProtoByNumber(a + b, num) ==
              if GetProtoByNumber(a, num).1 then GetProtoByNumber(a, num) else GetProtoByNumber(b, num)
  {
    if a == [] {
      assert a + b == b;
    } else {
      assert (a + b)[0] == a[0];
      assert (a + b)[1..] == a[1..] + b;
      ProtoByNumberAppend(a[1..], b, num);
    }
  }

  lemma {:induction false} ProtoByNameAppend(a: seq<Protoent>, b: seq<Protoent>, name: string)
    ensures GetProtoByName(a + b, name) ==
              if GetProtoByName(a, name).1 then GetProtoByName(a, name) else GetProtoByName(b, name)
  {
    if a == [] {
      assert a + b == b;
    } else {
      assert (a + b)[0] == a[0];
      assert (a + b)[1..] == a[1..] + b;
      ProtoByNameAppend(a[1..], b, name);
    }
  }

  lemma {:induction false} ServByNameAppend(a: seq<Servent>, b: seq<Servent>, name: string, protocol: string)
    ensures GetServByName(a + b, name, protocol) ==
              if GetServByName(a, name, protocol).1 then GetServByName(a, name, protocol)
              else GetServByName(b, name, protocol)
  {
    if a == [] {
      assert a + b == b;
    } else {
      assert (a + b)[0] == a[0];
      assert (a + b)[1..] == a[1..] + b;
      ServByNameAppend(a[1..], b, name, protocol);
    }
  }

  lemma {:induction false} ServByPortAppend(a: seq<Servent>, b: seq<Servent>, port: int, protocol: string)
    ensures GetServByPort(a + b, port, protocol) ==
              if GetServByPort(a, port, protocol).1 then GetServByPort(a, port, protocol)
              else GetServByPort(b, port, protocol)
  {
    if a == [] {
      assert a + b == b;
    } else {
      assert (a + b)[0] == a[0];
      assert (a + b)[1..] == a[1..] + b;
      ServByPortAppend(a[1..], b, port, protocol);
    }
  }

  /** The empty protocol finds a service on a port whenever some protocol
      does, and what it finds is also the first match for its own protocol. */
  lemma {:induction false} ServByPortWildcard(services: seq<Servent>, port: int, protocol: string)
    ensures GetServByPort(services, port, protocol).1 ==> GetServByPort(services, port, "").1
    ensures var (s, ok) := GetServByPort(services, port, "");
            ok ==> GetServByPort(services, port, s.protocol) == (s, true)
  {
    if services != [] && services[0].port != port {
      ServByPortWildcard(services[1..], port, protocol);
    }
  }

  /** The same for names: the empty protocol finds whatever some protocol
      finds, and its answer is the first match under its own protocol. */
  lemma {:induction false} ServByNameWildcard(services: seq<Servent>, name: string, protocol: string)
    ensures GetServByName(services, name, protocol).1 ==> GetServByName(services, name, "").1
    ensures var (s, ok) := GetServByName(services, name, "");
            ok ==> GetServByName(services, name, s.protocol) == (s, true)
  {
    if services != [] && services[0].name != name && name !in services[0].aliases {
      ServByNameWildcard(services[1..], name, protocol);
    }
  }

  // ---------------------------------------------------------------------------
  // One-line tables and worked examples

  /** A one-line text whose line is an entry gives a table of that entry. */
  lemma EntryLineTable<R>(table: Result<seq<R>, LoadError>, outcome: LineOutcome<R>, r: R)
    requires table == Extend([], outcome) && outcome == Entry(r)
    ensures table == Success([r])
  {
    AppendEmpty([r]);
  }

  /** A table loaded from the line of one well-formed service answers for its
      port under its own protocol and under `""`, and under no other. */
  lemma OneServiceLine(s: Servent, other: string)
    requires WellFormedServent(s)
    requires other != "" && other != s.protocol
    ensures ServiceTable(FormatService(s)) == Success([s])
    ensures GetServByPort([s], s.port, s.protocol) == (s, true)
    ensures GetServByPort([s], s.port, "") == (s, true)
    ensures GetServByPort([s], s.port, other) == (ZeroServent, false)
    ensures GetServByName([s], s.name, "") == (s, true)
  {
    var line := FormatService(s);
    ServiceLineRoundTrip(s);
    ServiceTableLine(line);
    EntryLineTable(ServiceTable(line), ServiceLine(line), s);
    OneServiceQueries(s, other);
  }

  lemma OneServiceQueries(s: Servent, other: string)
    requires other != "" && other != s.protocol
    ensures GetServByPort([s], s.port, s.protocol) == (s, true)
    ensures GetServByPort([s], s.port, "") == (s, true)
    ensures GetServByPort([s], s.port, other) == (ZeroServent, false)
    ensures GetServByName([s], s.name, "") == (s, true)
  {
    assert [s][1..] == [];
  }

  /** A table loaded from the line of one well-formed protocol finds it by
      number, by name and by every alias. */
  lemma OneProtocolLine(p: Protoent)
    requires WellFormedProtoent(p)
    ensures ProtocolTable(FormatProtocol(p)) == Success([p])
    ensures GetProtoByNumber([p], p.number) == (p, true)
    ensures GetProtoByName([p], p.name) == (p, true)
    ensures forall k :: 0 <= k < |p.aliases| ==> GetProtoByName([p], p.aliases[k]) == (p, true)
  {
    var line := FormatProtocol(p);
    ProtocolLineRoundTrip(p);
    ProtocolTableLine(line);
    EntryLineTable(ProtocolTable(line), ProtocolLine(line), p);
    OneProtocolQueries(p);
  }

  lemma OneProtocolQueries(p: Protoent)
    ensures GetProtoByNumber([p], p.number) == (p, true)
    ensures GetProtoByName([p], p.name) == (p, true)
    ensures forall k :: 0 <= k < |p.aliases| ==> GetProtoByName([p], p.aliases[k]) == (p, true)
  {
    assert [p][1..] == [];
  }

  /** A second field that is not a number fails a protocols line... */
  lemma ProtocolBadNumber(name: string, text: string)
    requires IsWord(name) && IsWord(text) && ParseInt32(text).None?
    ensures ProtocolLine(name + " " + text) == Malformed(InvalidNumber(text))
    ensures ProtocolTable(name + " " + text) == Failure(InvalidNumber(text))
  {
    var line := name + " " + text;
    WordsPairLine(name, text);
    ProtocolTableLine(line);
  }

  /** ...and a services line too, even when it has no `/`: the port is parsed
      before the protocol part is looked for. */
  lemma ServiceBadNumber(name: string, text: string)
    requires IsWord(name) && IsWord(text) && ParseInt32(text).None? && '/' !in text
    ensures ServiceLine(name + " " + text) == Malformed(InvalidNumber(text))
    ensures ServiceTable(name + " " + text) == Failure(InvalidNumber(text))
  {
    var line := name + " " + text;
    WordsPairLine(name, text);
    ServiceTableLine(line);
  }

  /** A port with no `/protocol` after it fails the load. */
  lemma ServiceWithoutProtocol(name: string, port: int)
    requires IsWord(name) && MinInt32 <= port <= MaxInt32
    ensures ServiceTable(name + " " + FormatInt(port)) == Failure(MissingProtocol(FormatInt(port)))
  {
    var line := name + " " + FormatInt(port);
    FormatIntIsWord(port);
    WordsPairLine(name, FormatInt(port));
    ServiceLineWithoutSlash(name, port);
    ServiceTableLine(line);
  }

  /** A malformed line fails the load however many good lines come before it. */
  lemma ProtocolFailureAfterLines(before: string, bad: string)
    requires ProtocolTable(before).Success? && ProtocolTable(bad).Failure?
    ensures ProtocolTable(before + "\n" + bad) == ProtocolTable(bad)
  {
    ProtocolTableConcat(before, bad);
  }

  lemma ServiceFailureAfterLines(before: string, bad: string)
    requires ServiceTable(before).Success? && ServiceTable(bad).Failure?
    ensures ServiceTable(before + "\n" + bad) == ServiceTable(bad)
  {
    ServiceTableConcat(before, bad);
  }
}
