/** The protocol and service databases of `netdb.h` (`protoent`, `servent`),
    loaded from the text of `/etc/protocols` and `/etc/services` and queried
    by first match in file order. */
module Netdb {
  import opened Outcomes
  import opened StringsSplit
  import opened StringsCut
  import opened StringsFields
  import opened Strconv

  /** One line of the protocols database. */
  datatype Protoent = Protoent(name: string, aliases: seq<string>, number: int) {

    /** `Protoent.Equal`: the same protocol exactly when the numbers agree. */
    predicate Equal(other: Protoent) {
      number == other.number
    }
  }

  /** One line of the services database. */
  datatype Servent = Servent(name: string, aliases: seq<string>, port: int, protocol: string)

  /** Go's zero values `Protoent{}` and `Servent{}`, returned when nothing matches. */
  const ZeroProtoent := Protoent("", [], 0)
  const ZeroServent := Servent("", [], 0, "")

  /** Why a load fails; in Go each of these is a panic during `init`. */
  datatype LoadError =
    | InvalidNumber(text: string)    // `strconv.ParseInt` refused the text
    | MissingProtocol(field: string) // a `port/proto` field without `/`

  /** What one line contributes to its table. */
  datatype LineOutcome<R> = Skipped | Entry(record: R) | Malformed(error: LoadError)

  // ---------------------------------------------------------------------------
  // Parsing one line

  /** The fields of a line: trimmed, cut at the first `#`, split at whitespace. */
  function LineFields(line: string): seq<string> {
    Fields(Before(TrimSpace(line), '#'))
  }

  /** A protocols line `name number alias...`. */
  function ProtocolLine(line: string): LineOutcome<Protoent> {
    ProtocolFields(LineFields(line))
  }

  function ProtocolFields(fields: seq<string>): LineOutcome<Protoent> {
    if |fields| < 2 then Skipped
    else
      match ParseInt32(fields[1])
      case None => Malformed(InvalidNumber(fields[1]))
      case Some(num) => Entry(Protoent(fields[0], fields[2..], num))
  }

  /** A services line `name port/protocol alias...`. The port is parsed before
      the protocol part is looked at, so a field without `/` fails as an
      invalid number when its text is not a number. */
  function ServiceLine(line: string): LineOutcome<Servent> {
    ServiceFields(LineFields(line))
  }

  function ServiceFields(fields: seq<string>): LineOutcome<Servent> {
    if |fields| < 2 then Skipped
    else
      var portproto := SplitFirst(fields[1], '/');
      match ParseInt32(portproto[0])
      case None => Malformed(InvalidNumber(portproto[0]))
      case Some(port) =>
        if |portproto| < 2 then Malformed(MissingProtocol(fields[1]))
        else Entry(Servent(fields[0], fields[2..], port, portproto[1]))
  }

  // ---------------------------------------------------------------------------
  // Loading a table

  /** Adds one line's outcome to the records of the lines before it. */
  function Extend<R>(records: seq<R>, outcome: LineOutcome<R>): Result<seq<R>, LoadError> {
    match outcome
    case Skipped => Success(records)
    case Entry(record) => Success(records + [record])
    case Malformed(e) => Failure(e)
  }

  /** The table built from the outcomes of the lines, in order; the first
      malformed line fails the whole load. */
  function Collect<R>(outcomes: seq<LineOutcome<R>>): Result<seq<R>, LoadError> {
    if outcomes == [] then Success([])
    else
      var before := Collect(outcomes[..|outcomes| - 1]);
      if before.Failure? then before
      else Extend(before.value, outcomes[|outcomes| - 1])
  }

  function ProtocolOutcomes(lines: seq<string>): (outcomes: seq<LineOutcome<Protoent>>)
    ensures |outcomes| == |lines|
    ensures forall i :: 0 <= i < |lines| ==> outcomes[i] == ProtocolLine(lines[i])
  {
    seq(|lines|, i requires 0 <= i < |lines| => ProtocolLine(lines[i]))
  }

  function ServiceOutcomes(lines: seq<string>): (outcomes: seq<LineOutcome<Servent>>)
    ensures |outcomes| == |lines|
    ensures forall i :: 0 <= i < |lines| ==> outcomes[i] == ServiceLine(lines[i])
  {
    seq(|lines|, i requires 0 <= i < |lines| => ServiceLine(lines[i]))
  }

  /** The protocols table that the text `data` of `/etc/protocols` gives. */
  function ProtocolTable(data: string): Result<seq<Protoent>, LoadError> {
    Collect(ProtocolOutcomes(Split(data, '\n')))
  }

  /** The services table that the text `data` of `/etc/services` gives. */
  function ServiceTable(data: string): Result<seq<Servent>, LoadError> {
    Collect(ServiceOutcomes(Split(data, '\n')))
  }

  /** One more line: `Collect` of a prefix one longer. */
  lemma CollectStep<R>(outcomes: seq<LineOutcome<R>>, i: nat)
    requires i < |outcomes|
    ensures Collect(outcomes[..i + 1]) ==
              if Collect(outcomes[..i]).Failure? then Collect(outcomes[..i])
              else Extend(Collect(outcomes[..i]).value, outcomes[i])
  {
    assert outcomes[..i + 1][..i] == outcomes[..i];
  }

  /** Once a prefix of the lines fails, the whole load fails the same way. */
  lemma {:induction false} CollectFailureStays<R>(outcomes: seq<LineOutcome<R>>, i: nat)
    requires i <= |outcomes|
    requires Collect(outcomes[..i]).Failure?
    ensures Collect(outcomes) == Collect(outcomes[..i])
    decreases |outcomes| - i
  {
    if i < |outcomes| {
      CollectStep(outcomes, i);
      CollectFailureStays(outcomes, i + 1);
    } else {
      assert outcomes[..i] == outcomes;
    }
  }

  /** One iteration of the protocols loop, in terms of the fields of its line. */
  lemma ProtocolStep(lines: seq<string>, outcomes: seq<LineOutcome<Protoent>>, i: nat,
                     protocols: seq<Protoent>, fields: seq<string>)
    requires outcomes == ProtocolOutcomes(lines) && i < |lines|
    requires Collect(outcomes[..i]) == Success(protocols)
    requires fields == LineFields(lines[i])
    ensures |fields| < 2 ==> Collect(outcomes[..i + 1]) == Success(protocols)
    ensures |fields| >= 2 && ParseInt32(fields[1]).None? ==>
              Collect(outcomes[..i + 1]) == Failure(InvalidNumber(fields[1]))
    ensures |fields| >= 2 && ParseInt32(fields[1]).Some? ==>
              Collect(outcomes[..i + 1]) ==
              Success(protocols + [Protoent(fields[0], fields[2..], ParseInt32(fields[1]).value)])
  {
    CollectStep(outcomes, i);
  }

  /** One iteration of the services loop, in terms of the fields of its line. */
  lemma ServiceStep(lines: seq<string>, outcomes: seq<LineOutcome<Servent>>, i: nat,
                    services: seq<Servent>, fields: seq<string>, portproto: seq<string>)
    requires outcomes == ServiceOutcomes(lines) && i < |lines|
    requires Collect(outcomes[..i]) == Success(services)
    requires fields == LineFields(lines[i])
    requires |fields| >= 2 ==> portproto == SplitFirst(fields[1], '/')
    ensures |fields| < 2 ==> Collect(outcomes[..i + 1]) == Success(services)
    ensures |fields| >= 2 && ParseInt32(portproto[0]).None? ==>
              Collect(outcomes[..i + 1]) == Failure(InvalidNumber(portproto[0]))
    ensures |fields| >= 2 && ParseInt32(portproto[0]).Some? && |portproto| < 2 ==>
              Collect(outcomes[..i + 1]) == Failure(MissingProtocol(fields[1]))
    ensures |fields| >= 2 && ParseInt32(portproto[0]).Some? && |portproto| >= 2 ==>
              Collect(outcomes[..i + 1]) ==
              Success(services + [Servent(fields[0], fields[2..], ParseInt32(portproto[0]).value, portproto[1])])
  {
    CollectStep(outcomes, i);
  }

  /** The loop of `init` that fills `Protocols`: one record per line with at
      least two fields, in line order; a bad number fails the load. */
  method LoadProtocols(data: string) returns (r: Result<seq<Protoent>, LoadError>)
    ensures r == ProtocolTable(data)
  {
    var lines := Split(data, '\n');
    ghost var outcomes := ProtocolOutcomes(lines);
    var protocols: seq<Protoent> := [];
    for i := 0 to |lines|
      invariant Collect(outcomes[..i]) == Success(protocols)
    {
      var line := TrimSpace(lines[i]);
      var split := SplitFirst(line, '#');
      var fields := Fields(split[0]);
      ProtocolStep(lines, outcomes, i, protocols, fields);
      if |fields| < 2 {
        continue;
      }
      var num := ParseInt32(fields[1]);
      if num.None? {
        r := Failure(InvalidNumber(fields[1]));
        CollectFailureStays(outcomes, i + 1);
        return;
      }
      protocols := protocols + [Protoent(fields[0], fields[2..], num.value)];
    }
    assert outcomes[..|lines|] == outcomes;
    r := Success(protocols);
  }

  /** The loop of `init` that fills `Services`. */
  method LoadServices(data: string) returns (r: Result<seq<Servent>, LoadError>)
    ensures r == ServiceTable(data)
  {
    var lines := Split(data, '\n');
    ghost var outcomes := ServiceOutcomes(lines);
    var services: seq<Servent> := [];
    for i := 0 to |lines|
      invariant Collect(outcomes[..i]) == Success(services)
    {
      var line := TrimSpace(lines[i]);
      var split := SplitFirst(line, '#');
      var fields := Fields(split[0]);
      if |fields| < 2 {
        ServiceStep(lines, outcomes, i, services, fields, []);
        continue;
      }
      var name := fields[0];
      var portproto := SplitFirst(fields[1], '/');
      ServiceStep(lines, outcomes, i, services, fields, portproto);
      var port := ParseInt32(portproto[0]);
      if port.None? {
        r := Failure(InvalidNumber(portproto[0]));
        CollectFailureStays(outcomes, i + 1);
        return;
      }
      if |portproto| < 2 {
        r := Failure(MissingProtocol(fields[1]));
        CollectFailureStays(outcomes, i + 1);
        return;
      }
      var proto := portproto[1];
      var aliases := fields[2..];
      services := services + [Servent(name, aliases, port.value, proto)];
    }
    assert outcomes[..|lines|] == outcomes;
    r := Success(services);
  }

  // ---------------------------------------------------------------------------
  // Queries

  predicate ProtoNamed(p: Protoent, name: string) {
    p.name == name || name in p.aliases
  }

  /** A service matches a name under a protocol filter; `""` lets every protocol through. */
  predicate ServNamed(s: Servent, name: string, protocol: string) {
    (s.protocol == protocol || protocol == "") && (s.name == name || name in s.aliases)
  }

  predicate ServOnPort(s: Servent, port: int, protocol: string) {
    s.port == port && (s.protocol == protocol || protocol == "")
  }

  /** The first entry with protocol number `num`. */
  function GetProtoByNumber(protocols: seq<Protoent>, num: int): (res: (Protoent, bool))
    ensures res.1 <==> exists i :: 0 <= i < |protocols| && protocols[i].number == num
    ensures res.1 ==> exists i :: 0 <= i < |protocols| && protocols[i] == res.0 && res.0.number == num
                                  && forall j :: 0 <= j < i ==> protocols[j].number != num
    ensures !res.1 ==> res.0 == ZeroProtoent
  {
    if protocols == [] then (ZeroProtoent, false)
    else if protocols[0].number == num then (protocols[0], true)
    else
      var res := GetProtoByNumber(protocols[1..], num);
      assert forall i :: 0 < i < |protocols| ==> protocols[i] == protocols[1..][i - 1];
      res
  }

  /** The first entry whose name or one of whose aliases is `name`. */
  function GetProtoByName(protocols: seq<Protoent>, name: string): (res: (Protoent, bool))
    ensures res.1 <==> exists i :: 0 <= i < |protocols| && ProtoNamed(protocols[i], name)
    ensures res.1 ==> exists i :: 0 <= i < |protocols| && protocols[i] == res.0 && ProtoNamed(res.0, name)
                                  && forall j :: 0 <= j < i ==> !ProtoNamed(protocols[j], name)
    ensures !res.1 ==> res.0 == ZeroProtoent
  {
    if protocols == [] then (ZeroProtoent, false)
    else if protocols[0].name == name then (protocols[0], true)
    else if name in protocols[0].aliases then (protocols[0], true)
    else
      var res := GetProtoByName(protocols[1..], name);
      assert forall i :: 0 < i < |protocols| ==> protocols[i] == protocols[1..][i - 1];
      res
  }

  /** The first service, among those the protocol filter lets through, whose
      name or one of whose aliases is `name`. */
  function GetServByName(services: seq<Servent>, name: string, protocol: string): (res: (Servent, bool))
    ensures res.1 <==> exists i :: 0 <= i < |services| && ServNamed(services[i], name, protocol)
    ensures res.1 ==> exists i :: 0 <= i < |services| && services[i] == res.0 && ServNamed(res.0, name, protocol)
                                  && forall j :: 0 <= j < i ==> !ServNamed(services[j], name, protocol)
    ensures !res.1 ==> res.0 == ZeroServent
  {
    if services == [] then (ZeroServent, false)
    else if services[0].protocol != protocol && protocol != "" then
      var res := GetServByName(services[1..], name, protocol);
      assert forall i :: 0 < i < |services| ==> services[i] == services[1..][i - 1];
      res
    else if services[0].name == name then (services[0], true)
    else if name in services[0].aliases then (services[0], true)
    else
      var res := GetServByName(services[1..], name, protocol);
      assert forall i :: 0 < i < |services| ==> services[i] == services[1..][i - 1];
      res
  }

  /** The first service on `port` whose protocol passes the filter. */
  function GetServByPort(services: seq<Servent>, port: int, protocol: string): (res: (Servent, bool))
    ensures res.1 <==> exists i :: 0 <= i < |services| && ServOnPort(services[i], port, protocol)
    ensures res.1 ==> exists i :: 0 <= i < |services| && services[i] == res.0 && ServOnPort(res.0, port, protocol)
                                  && forall j :: 0 <= j < i ==> !ServOnPort(services[j], port, protocol)
    ensures !res.1 ==> res.0 == ZeroServent
  {
    if services == [] then (ZeroServent, false)
    else if services[0].port == port && (services[0].protocol == protocol || protocol == "") then
      (services[0], true)
    else
      var res := GetServByPort(services[1..], port, protocol);
      assert forall i :: 0 < i < |services| ==> services[i] == services[1..][i - 1];
      res
  }
}
