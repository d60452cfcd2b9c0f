/** Which lines become records, and what each record holds: a table that
    loads has one record per line with at least two fields, in line order,
    built from that line's fields. */
module NetdbRecords {
  import opened Outcomes
  import opened StringsCut
  import opened Strconv
  import opened Netdb
  import opened StringsSplit

  /** The lines with at least two fields, in their original order. */
  function KeptLines(lines: seq<string>): (kept: seq<string>)
    ensures |kept| <= |lines|
  {
    if lines == [] then []
    else
      var last := lines[|lines| - 1];
      KeptLines(lines[..|lines| - 1]) + (if |LineFields(last)| >= 2 then [last] else [])
  }

  /** `p` is the record of `line`: name from field 0, number parsed from
      field 1, aliases from the fields after it. */
  predicate ProtocolRecordOf(p: Protoent, line: string) {
    var f := LineFields(line);
    |f| >= 2 && p.name == f[0] && ParseInt32(f[1]) == Some(p.number) && p.aliases == f[2..]
  }

  /** `s` is the record of `line`: field 1 cut at its first `/` into a parsed
      port and the protocol text after it. */
  predicate ServiceRecordOf(s: Servent, line: string) {
    var f := LineFields(line);
    |f| >= 2 && s.name == f[0] && s.aliases == f[2..]
    && |SplitFirst(f[1], '/')| == 2
    && ParseInt32(SplitFirst(f[1], '/')[0]) == Some(s.port)
    && s.protocol == SplitFirst(f[1], '/')[1]
  }

  lemma ProtocolOutcomesPrefix(lines: seq<string>)
    requires lines != []
    ensures ProtocolOutcomes(lines)[..|lines| - 1] == ProtocolOutcomes(lines[..|lines| - 1])
  {
  }

  lemma ServiceOutcomesPrefix(lines: seq<string>)
    requires lines != []
    ensures ServiceOutcomes(lines)[..|lines| - 1] == ServiceOutcomes(lines[..|lines| - 1])
  {
  }

  /** A prefix of the outcomes of a successful load loads too. */
  lemma CollectPrefixSucceeds<R>(outcomes: seq<LineOutcome<R>>)
    requires outcomes != [] && Collect(outcomes).Success?
    ensures Collect(outcomes[..|outcomes| - 1]).Success?
  {
  }

  /** A successful protocols load holds one record per kept line, in order. */
  lemma {:induction false} ProtocolRecords(lines: seq<string>, protocols: seq<Protoent>)
    requires Collect(ProtocolOutcomes(lines)) == Success(protocols)
    ensures |protocols| == |KeptLines(lines)|
    ensures forall k :: 0 <= k < |protocols| ==> ProtocolRecordOf(protocols[k], KeptLines(lines)[k])
  {
    if lines != [] {
      var n := |lines| - 1;
      var init := lines[..n];
      var outcomes := ProtocolOutcomes(lines);
      ProtocolOutcomesPrefix(lines);
      CollectPrefixSucceeds(outcomes);
      CollectStep(outcomes, n);
      assert outcomes[..n + 1] == outcomes;
      var before := Collect(ProtocolOutcomes(init)).value;
      ProtocolRecords(init, before);
      ProtocolLast(lines[n], before, protocols, KeptLines(init), KeptLines(lines));
    }
  }

  /** The last line of a successful protocols load adds its record to those before it, if it is kept. */
  lemma ProtocolLast(line: string, before: seq<Protoent>, protocols: seq<Protoent>,
                     keptBefore: seq<string>, kept: seq<string>)
    requires Extend(before, ProtocolLine(line)) == Success(protocols)
    requires kept == keptBefore + (if |LineFields(line)| >= 2 then [line] else [])
    requires |before| == |keptBefore|
    requires forall k :: 0 <= k < |before| ==> ProtocolRecordOf(before[k], keptBefore[k])
    ensures |protocols| == |kept|
    ensures forall k :: 0 <= k < |protocols| ==> ProtocolRecordOf(protocols[k], kept[k])
  {
    if |LineFields(line)| < 2 {
      assert protocols == before && kept == keptBefore + [];
    } else {
      var p := ProtocolLine(line).record;
      assert ProtocolRecordOf(p, line);
      assert protocols == before + [p] && kept == keptBefore + [line];
      AppendProtocolRecord(before, keptBefore, p, line);
    }
  }

  lemma AppendProtocolRecord(before: seq<Protoent>, keptBefore: seq<string>, p: Protoent, line: string)
    requires |before| == |keptBefore|
    requires forall k :: 0 <= k < |before| ==> ProtocolRecordOf(before[k], keptBefore[k])
    requires ProtocolRecordOf(p, line)
    ensures forall k :: 0 <= k < |before| + 1 ==> ProtocolRecordOf((before + [p])[k], (keptBefore + [line])[k])
  {
    forall k | 0 <= k < |before| + 1
      ensures ProtocolRecordOf((before + [p])[k], (keptBefore + [line])[k])
    {
      if k < |before| {
        assert (before + [p])[k] == before[k] && (keptBefore + [line])[k] == keptBefore[k];
      }
    }
  }

  /** A successful services load holds one record per kept line, in order. */
  lemma {:induction false} ServiceRecords(lines: seq<string>, services: seq<Servent>)
    requires Collect(ServiceOutcomes(lines)) == Success(services)
    ensures |services| == |KeptLines(lines)|
    ensures forall k :: 0 <= k < |services| ==> ServiceRecordOf(services[k], KeptLines(lines)[k])
  {
    if lines != [] {
      var n := |lines| - 1;
      var init := lines[..n];
      var outcomes := ServiceOutcomes(lines);
      ServiceOutcomesPrefix(lines);
      CollectPrefixSucceeds(outcomes);
      CollectStep(outcomes, n);
      assert outcomes[..n + 1] == outcomes;
      var before := Collect(ServiceOutcomes(init)).value;
      ServiceRecords(init, before);
      ServiceLast(lines[n], before, services, KeptLines(init), KeptLines(lines));
    }
  }

  lemma ServiceLast(line: string, before: seq<Servent>, services: seq<Servent>,
                    keptBefore: seq<string>, kept: seq<string>)
    requires Extend(before, ServiceLine(line)) == Success(services)
    requires kept == keptBefore + (if |LineFields(line)| >= 2 then [line] else [])
    requires |before| == |keptBefore|
    requires forall k :: 0 <= k < |before| ==> ServiceRecordOf(before[k], keptBefore[k])
    ensures |services| == |kept|
    ensures forall k :: 0 <= k < |services| ==> ServiceRecordOf(services[k], kept[k])
  {
    if |LineFields(line)| < 2 {
      assert services == before && kept == keptBefore + [];
    } else {
      var s := ServiceLine(line).record;
      assert ServiceRecordOf(s, line);
      assert services == before + [s] && kept == keptBefore + [line];
      AppendServiceRecord(before, keptBefore, s, line);
    }
  }

  lemma AppendServiceRecord(before: seq<Servent>, keptBefore: seq<string>, s: Servent, line: string)
    requires |before| == |keptBefore|
    requires forall k :: 0 <= k < |before| ==> ServiceRecordOf(before[k], keptBefore[k])
    requires ServiceRecordOf(s, line)
    ensures forall k :: 0 <= k < |before| + 1 ==> ServiceRecordOf((before + [s])[k], (keptBefore + [line])[k])
  {
    forall k | 0 <= k < |before| + 1
      ensures ServiceRecordOf((before + [s])[k], (keptBefore + [line])[k])
    {
      if k < |before| {
        assert (before + [s])[k] == before[k] && (keptBefore + [line])[k] == keptBefore[k];
      }
    }
  }

  /** The protocols table, when it loads, is the records of the kept lines of the text, in order. */
  lemma ProtocolTableRecords(data: string, protocols: seq<Protoent>)
    requires ProtocolTable(data) == Success(protocols)
    ensures |protocols| == |KeptLines(Split(data, '\n'))|
    ensures forall k :: 0 <= k < |protocols| ==> ProtocolRecordOf(protocols[k], KeptLines(Split(data, '\n'))[k])
  {
    ProtocolRecords(Split(data, '\n'), protocols);
  }

  /** The services table, when it loads, is the records of the kept lines of the text, in order. */
  lemma ServiceTableRecords(data: string, services: seq<Servent>)
    requires ServiceTable(data) == Success(services)
    ensures |services| == |KeptLines(Split(data, '\n'))|
    ensures forall k :: 0 <= k < |services| ==> ServiceRecordOf(services[k], KeptLines(Split(data, '\n'))[k])
  {
    ServiceRecords(Split(data, '\n'), services);
  }
}
