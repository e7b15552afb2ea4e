/**
 Choosing the next external port: the scan for a port that is in range, not reserved and not in
 use, starting after a cursor that is stored as text in a ConfigMap.
 */
module PortGenerator {
  import opened Wrappers
  import opened GoText
  import opened GoSets
  import opened PortRanges
  import opened ConfigMaps

  // ---------- the ports in use ----------

  /** What reading one node's ports came to: its usage ConfigMap, or, without one, a shell command. */
  datatype NodeRead =
    | FromConfigMap(keys: set<string>)
    | ConfigMapMissing(ssh: SshRead)
    | ConfigMapError

  datatype SshRead = SshFailed | SshNothing | SshPorts(ports: set<int32>)

  /** The port a usage key names, if it names one between 1 and 65535. */
  function PortOfKey(key: string): Option<int32> {
    var port := Atoi(TrimSpace(key));
    if port.None? || port.value < 1 || port.value > 65535 then None else Some(port.value)
  }

  function PortsOfKeys(keys: set<string>): set<int32> {
    set key | key in keys && PortOfKey(key).Some? :: PortOfKey(key).value
  }

  /** The ports seen on a node; none when it could not be read. */
  function PortsOn(node: NodeRead): set<int32> {
    match node
    case FromConfigMap(keys) => PortsOfKeys(keys)
    case ConfigMapMissing(SshPorts(ports)) => ports
    case _ => {}
  }

  function PortsOnAll(nodes: seq<NodeRead>): set<int32> {
    if nodes == [] then {} else PortsOnAll(nodes[..|nodes| - 1]) + PortsOn(nodes[|nodes| - 1])
  }

  /** A port counts as used exactly when a node that could be read names it: by a key of its usage
      ConfigMap that reads, blanks aside, as a number from 1 to 65535, or in the shell's answer. */
  lemma {:induction false} PortIsUsedIff(nodes: seq<NodeRead>, p: int32)
    ensures p in PortsOnAll(nodes) <==>
            exists i :: 0 <= i < |nodes| &&
              ((nodes[i].FromConfigMap? && 1 <= p <= 65535 &&
                exists key :: key in nodes[i].keys && Atoi(TrimSpace(key)) == Some(p))
               || (nodes[i].ConfigMapMissing? && nodes[i].ssh.SshPorts? && p in nodes[i].ssh.ports))
    decreases |nodes|
  {
    hide Atoi, TrimSpace;
    if nodes != [] {
      var front, last := nodes[..|nodes| - 1], nodes[|nodes| - 1];
      PortIsUsedIff(front, p);
      PortIsOnIff(last, p);
      hide PortsOn;
      assert forall i :: 0 <= i < |front| ==> front[i] == nodes[i];
    }
  }

  lemma PortIsOnIff(node: NodeRead, p: int32)
    ensures p in PortsOn(node) <==>
            || (node.FromConfigMap? && 1 <= p <= 65535 && exists key :: key in node.keys && Atoi(TrimSpace(key)) == Some(p))
            || (node.ConfigMapMissing? && node.ssh.SshPorts? && p in node.ssh.ports)
  {
    hide Atoi, TrimSpace;
    if node.FromConfigMap? {
      assert forall key :: PortOfKey(key) == Some(p) <==> Atoi(TrimSpace(key)) == Some(p) && 1 <= p <= 65535;
      hide PortOfKey;
    }
  }

  lemma BlanksAroundKey(a: string, key: string, b: string)
    requires AllSpace(a) && AllSpace(b)
    ensures PortOfKey(a + key + b) == PortOfKey(key)
  {
    hide TrimSpace, Atoi;
    TrimAround(a, key, b);
  }

  lemma PortsOfOneMore(keys: set<string>, key: string)
    ensures PortsOfKeys(keys + {key}) ==
            if PortOfKey(key).Some? then PortsOfKeys(keys) + {PortOfKey(key).value} else PortsOfKeys(keys)
  {
  }

  method GetUsedTcpPortByConfigmap(keys: set<string>) returns (goSet: GoSet)
    ensures fresh(goSet) && goSet.Elements() == PortsOfKeys(keys)
  {
    goSet := new GoSet();
    var rest := keys;
    while rest != {}
      invariant rest <= keys
      invariant fresh(goSet) && goSet.Elements() == PortsOfKeys(keys - rest)
      decreases rest
    {
      hide Atoi, TrimSpace, PortsOfKeys;
      var key :| key in rest;
      assert keys - (rest - {key}) == (keys - rest) + {key};
      PortsOfOneMore(keys - rest, key);
      var port := Atoi(TrimSpace(key));
      if port.Some? && 1 <= port.value <= 65535 {
        var _ := goSet.Add([port.value]);
        assert Elems([port.value]) == {port.value};
      }
      rest := rest - {key};
    }
    assert keys - rest == keys;
  }

  /** No node list at all gives no set; otherwise the ports of every node that could be read. */
  method GetAllUsedPort(nodes: Option<seq<NodeRead>>) returns (portSet: GoSet?)
    ensures portSet == null <==> nodes.None?
    ensures nodes.Some? ==> portSet.Elements() == PortsOnAll(nodes.value)
  {
    if nodes.None? {
      return null;
    }
    var items := nodes.value;
    var result := new GoSet();
    var i := 0;
    while i < |items|
      invariant 0 <= i <= |items|
      invariant fresh(result) && result.Elements() == PortsOnAll(items[..i])
    {
      hide PortsOfKeys;
      assert items[..i + 1][..i] == items[..i];
      var usedPort: GoSet? := null;
      match items[i] {
        case FromConfigMap(keys) =>
          usedPort := GetUsedTcpPortByConfigmap(keys);
        case ConfigMapMissing(SshPorts(ports)) =>
          usedPort := new GoSet();
          usedPort.bufContainer := map p | p in ports :: true;
        case _ =>
      }
      if usedPort != null {
        var all := usedPort.GetAll();
        var _ := result.Add(all);
      }
      i := i + 1;
    }
    assert items[..i] == items;
    return result;
  }

  // ---------- the scan ----------

  /** Conversion of a 64-bit `int` to `int32`: the low 32 bits. */
  function Int32Of(p: int): (r: int32)
    ensures -0x8000_0000 <= r <= 0x7fff_ffff && (r - p) % 0x1_0000_0000 == 0
    ensures -0x8000_0000 <= p <= 0x7fff_ffff ==> r == p
  {
    (p + 0x8000_0000) % 0x1_0000_0000 - 0x8000_0000
  }

  /** A port the scan may hand out. */
  predicate Free(ranges: Ranges, used: set<int32>, p: int) {
    ranges.Contains(p) && Int32Of(p) !in used
  }

  /** The stored cursor; the first port of the range when it is missing or not a number. */
  function CursorOf(stored: Option<string>, begin: int64): int64 {
    if stored.None? then begin
    else
      var p := Atoi(stored.value);
      if p.None? then begin else p.value
  }

  /** Where the scan starts: from the beginning again once the cursor has reached the end. */
  function ScanStart(ranges: Ranges, cursor: int64): int64 {
    if cursor >= ranges.End() then ranges.Begin() else cursor
  }

  /** The least free port in `(from, end]`. */
  function LeastFree(ranges: Ranges, used: set<int32>, from: int, end: int): (r: Option<int>)
    ensures r.Some? ==> from < r.value <= end && Free(ranges, used, r.value)
    ensures r.Some? ==> forall p :: from < p < r.value ==> !Free(ranges, used, p)
    ensures r.None? ==> forall p :: from < p <= end ==> !Free(ranges, used, p)
    decreases end - from
  {
    if from >= end then None
    else if Free(ranges, used, from + 1) then Some(from + 1)
    else LeastFree(ranges, used, from + 1, end)
  }

  /** The port the scan selects. Without a used set nothing is ever selected. */
  function NextPort(ranges: Ranges, cursor: int64, used: Option<set<int32>>): Option<int> {
    if used.None? then None
    else LeastFree(ranges, used.value, ScanStart(ranges, cursor), ranges.End())
  }

  function TextOrEmpty(t: Option<string>): string {
    if t.None? then "" else t.value
  }

  /** The annotation names that the process configuration supplies. */
  datatype Names = Names(portRange: string, reservedPortRanges: string)

  function RangesIn(annotations: map<string, string>, names: Names): Option<Ranges> {
    ParseRanges(TextOrEmpty(Lookup(annotations, names.portRange)),
                TextOrEmpty(Lookup(annotations, names.reservedPortRanges)))
  }

  /** The range is what the one annotation says, and the pieces of the other are cut out of it. */
  lemma RangesPlainly(annotations: map<string, string>, names: Names)
    ensures var range := if names.portRange in annotations then annotations[names.portRange] else "";
      var reserved := if names.reservedPortRanges in annotations then annotations[names.reservedPortRanges] else "";
      var ranges := RangesIn(annotations, names);
      && (ranges.Some? <==> Parse(range).Some? && forall piece :: piece in Split(reserved, ',') ==> Parse(piece).Some?)
      && (ranges.Some? ==>
            && ranges.value.range == Parse(range).value
            && forall p :: ranges.value.Contains(p) <==>
                 && Parse(range).value.Contains(p)
                 && forall piece :: piece in Split(reserved, ',') && Parse(piece).Some? ==> !Parse(piece).value.Contains(p))
  {
    var reserved := TextOrEmpty(Lookup(annotations, names.reservedPortRanges));
    hide Parse, Split;
    if reserved == "" {
      NothingReserved();
    }
    if RangesIn(annotations, names).Some? {
      CutByPiece(Split(reserved, ','));
    }
  }

  lemma CutByPiece(pieces: seq<string>)
    requires ParseAll(pieces).Some?
    ensures forall p :: InSome(p, ParseAll(pieces).value) <==>
              exists piece :: piece in pieces && Parse(piece).Some? && Parse(piece).value.Contains(p)
  {
    hide Parse, Interval.Contains;
    var cut := ParseAll(pieces).value;
    forall p
      ensures InSome(p, cut) <==> exists piece :: piece in pieces && Parse(piece).Some? && Parse(piece).value.Contains(p)
    {
      if piece :| piece in pieces && Parse(piece).Some? && Parse(piece).value.Contains(p) {
        var i :| 0 <= i < |pieces| && pieces[i] == piece;
        assert cut[i].Contains(p);
      }
    }
  }

  lemma NothingReserved()
    ensures Split("", ',') == [""] && Parse("") == Some(Interval(0, 0))
  {
  }

  datatype PortError = CannotRead | BadRanges | CannotListNodes | AllUsed | CannotUpdate | RetriesUsedUp

  /** What one attempt comes to, before the update is sent. */
  function Choose(data: map<string, string>, annotations: map<string, string>, key: string, names: Names,
                  used: Result<Option<set<int32>>, ()>): Result<int, PortError> {
    ChooseIn(RangesIn(annotations, names), Lookup(data, key), used)
  }

  function ChooseIn(ranges: Option<Ranges>, stored: Option<string>, used: Result<Option<set<int32>>, ()>)
    : Result<int, PortError>
  {
    if ranges.None? then Failure(BadRanges)
    else if used.Failure? then Failure(CannotListNodes)
    else
      var port := NextPort(ranges.value, CursorOf(stored, ranges.value.Begin()), used.value);
      if port.None? then Failure(AllUsed) else Success(port.value)
  }

  /** A choice fails with BadRanges exactly when one of the two texts is no range, or no list of ranges. A
      chosen port lies in the one and in no piece of the other. */
  lemma ChoicePlainly(data: map<string, string>, annotations: map<string, string>, key: string, names: Names,
                      used: Result<Option<set<int32>>, ()>)
    ensures var range := if names.portRange in annotations then annotations[names.portRange] else "";
      var reserved := if names.reservedPortRanges in annotations then annotations[names.reservedPortRanges] else "";
      var choice := Choose(data, annotations, key, names, used);
      && (choice == Failure(BadRanges) <==>
          Parse(range).None? || exists piece :: piece in Split(reserved, ',') && Parse(piece).None?)
      && (choice.Success? ==>
            && Parse(range).Some? && Parse(range).value.Contains(choice.value)
            && forall piece :: piece in Split(reserved, ',') ==>
                 Parse(piece).Some? && !Parse(piece).value.Contains(choice.value))
  {
    hide Parse, Split, ParseRanges, CursorOf, Int32Of, ScanStart, Interval.Contains, Ranges.Contains;
    RangesPlainly(annotations, names);
  }

  /** The port of a successful attempt. */
  lemma PortPlainly(a: Attempt, key: string, names: Names)
    requires AttemptResult(a, key, names).Success?
    ensures a.read.Some? && a.accepted
    ensures var annotations, port := a.read.value.1, AttemptResult(a, key, names).value;
      && names.portRange in annotations && Parse(annotations[names.portRange]).Some?
      && Parse(annotations[names.portRange]).value.Contains(port)
      && (names.reservedPortRanges in annotations ==>
            forall piece :: piece in Split(annotations[names.reservedPortRanges], ',') ==>
              Parse(piece).Some? && !Parse(piece).value.Contains(port))
  {
    hide Choose, Split;
    ChoicePlainly(a.read.value.0, a.read.value.1, key, names, a.used);
    NothingReserved();
  }

  ghost function UsedView(used: Result<GoSet?, ()>): Result<Option<set<int32>>, ()>
    reads if used.Success? then {used.value} else {}
  {
    match used
    case Failure(e) => Failure(e)
    case Success(goSet) => Success(if goSet == null then None else Some(goSet.Elements()))
  }

  /** The loop over the ports after `start`, up to and including `endPort`. */
  method SelectPort(prs: PortRanges, start: int64, endPort: int64, usedPort: GoSet?) returns (r: Option<int>)
    requires prs.portRange != null
    ensures r == if usedPort == null then None
                 else LeastFree(prs.View(), usedPort.Elements(), start, endPort)
  {
    hide Int32Of;
    ghost var ranges := prs.View();
    var nextPort: int := start;
    var selectedPort := false;
    var i := nextPort;
    while i < endPort
      invariant !selectedPort && i == nextPort
      invariant usedPort != null ==>
        LeastFree(ranges, usedPort.Elements(), start, endPort) ==
        LeastFree(ranges, usedPort.Elements(), nextPort, endPort)
      decreases endPort - i
    {
      nextPort := nextPort + 1;
      var inRange := prs.Contains(nextPort);
      if inRange && usedPort != null {
        var isUsedPort := usedPort.Contains([Int32Of(nextPort)]);
        if !isUsedPort {
          selectedPort := true;
          break;
        }
      }
      i := i + 1;
    }
    return if selectedPort then Some(nextPort) else None;
  }

  /** One attempt. The cursor is rewritten in the local copy exactly when a port was chosen;
      `accepted` is the API server's answer to the update. */
  method GetNextScopePort(cm: ConfigMap, key: string, names: Names, used: Result<GoSet?, ()>, accepted: bool)
    returns (r: Result<int, PortError>)
    modifies cm`data
    ensures var choice := Choose(old(cm.data), cm.annotations, key, names, old(UsedView(used)));
      && (choice.Failure? ==> r == choice && cm.data == old(cm.data))
      && (choice.Success? ==> cm.data == old(cm.data)[key := Itoa(choice.value)])
      && (choice.Success? ==> r == if accepted then choice else Failure(CannotUpdate))
  {
    hide Itoa, ParseRanges, CursorOf, LeastFree;
    var prs := ParsePortRanges(TextOrEmpty(Lookup(cm.annotations, names.portRange)),
                               TextOrEmpty(Lookup(cm.annotations, names.reservedPortRanges)));
    if prs == null {
      return Failure(BadRanges);
    }
    var beginPort, endPort := prs.GetMinAndMaxPort();
    var nextPort := CursorOf(Lookup(cm.data, key), beginPort);
    if used.Failure? {
      return Failure(CannotListNodes);
    }
    if nextPort >= endPort {
      nextPort := beginPort;
    }
    var selected := SelectPort(prs, nextPort, endPort, used.value);
    if selected.None? {
      return Failure(AllUsed);
    }
    cm.data := cm.data[key := Itoa(selected.value)];
    if !accepted {
      return Failure(CannotUpdate);
    }
    return Success(selected.value);
  }

  // ---------- three attempts ----------

  /** What the environment does to one attempt: the ConfigMap it reads (None when the read fails),
      the ports it sees in use, and the answer to its update. */
  datatype Attempt = Attempt(read: Option<(map<string, string>, map<string, string>)>,
                             used: Result<Option<set<int32>>, ()>, accepted: bool)

  function AttemptResult(a: Attempt, key: string, names: Names): Result<int, PortError> {
    if a.read.None? then Failure(CannotRead)
    else
      var choice := Choose(a.read.value.0, a.read.value.1, key, names, a.used);
      if choice.Success? && !a.accepted then Failure(CannotUpdate) else choice
  }

  const MAX_ATTEMPTS := 3

  method MakeSet(view: Result<Option<set<int32>>, ()>) returns (used: Result<GoSet?, ()>)
    ensures UsedView(used) == view
    ensures used.Success? && used.value != null ==> fresh(used.value)
  {
    match view {
      case Failure(e) => used := Failure(e);
      case Success(None) => used := Success(null);
      case Success(Some(ports)) =>
        var goSet := new GoSet();
        goSet.bufContainer := map p | p in ports :: true;
        assert goSet.Elements() == ports;
        used := Success(goSet);
    }
  }

  /** The first attempt that is not a refused update decides; three refusals are an error. */
  method GetNextClusterExternalPort(attempts: seq<Attempt>, key: string, names: Names)
    returns (r: Result<int, PortError>)
    requires |attempts| == 3
    ensures forall n :: 0 <= n < 3 && AttemptResult(attempts[n], key, names) != Failure(CannotUpdate)
              && (forall m :: 0 <= m < n ==> AttemptResult(attempts[m], key, names) == Failure(CannotUpdate))
              ==> r == AttemptResult(attempts[n], key, names)
    ensures (forall n :: 0 <= n < 3 ==> AttemptResult(attempts[n], key, names) == Failure(CannotUpdate))
              ==> r == Failure(RetriesUsedUp)
    // A returned port lies in the range that was read, and in no reserved one.
    ensures r.Success? ==>
      exists n :: 0 <= n < |attempts| && attempts[n].read.Some? && attempts[n].accepted
        && names.portRange in attempts[n].read.value.1
        && var annotations := attempts[n].read.value.1;
           && Parse(annotations[names.portRange]).Some?
           && Parse(annotations[names.portRange]).value.Contains(r.value)
           && (names.reservedPortRanges in annotations ==>
                 forall piece :: piece in Split(annotations[names.reservedPortRanges], ',') ==>
                   Parse(piece).Some? && !Parse(piece).value.Contains(r.value))
  {
    hide Choose, UsedView, Parse, Split, Interval.Contains, PortsOnAll;
    var re := 0;
    while re < MAX_ATTEMPTS
      invariant 0 <= re <= MAX_ATTEMPTS
      invariant forall m :: 0 <= m < re ==> AttemptResult(attempts[m], key, names) == Failure(CannotUpdate)
    {
      var a := attempts[re];
      var port: Result<int, PortError> := Failure(CannotRead);
      if a.read.Some? {
        var cm := new ConfigMap(a.read.value.0, a.read.value.1);
        var used := MakeSet(a.used);
        port := GetNextScopePort(cm, key, names, used, a.accepted);
      }
      assert port == AttemptResult(a, key, names) by {
        ChooseNeverRefuses(a.read, key, names, a.used);
      }
      if port != Failure(CannotUpdate) {
        if port.Success? {
          PortPlainly(a, key, names);
        }
        return port;
      }
      re := re + 1;
    }
    return Failure(RetriesUsedUp);
  }

  lemma ChooseNeverRefuses(read: Option<(map<string, string>, map<string, string>)>, key: string, names: Names,
                           used: Result<Option<set<int32>>, ()>)
    ensures read.Some? ==> Choose(read.value.0, read.value.1, key, names, used) != Failure(CannotUpdate)
  {
  }

  // ---------- checking a port ----------

  datatype Check = Unused | OutOfRange | Occupied | CheckFailed(error: PortError) | NilSetCrash

  /** `annotations` is None when the ConfigMap could not be read. */
  function CheckPort(port: int, annotations: Option<map<string, string>>, names: Names,
                     used: Result<Option<set<int32>>, ()>): Check {
    if annotations.None? then CheckFailed(CannotRead)
    else CheckIn(RangesIn(annotations.value, names), port, used)
  }

  function CheckIn(ranges: Option<Ranges>, port: int, used: Result<Option<set<int32>>, ()>): Check {
    if ranges.None? then CheckFailed(BadRanges)
    else if !ranges.value.Contains(port) then OutOfRange
    else if used.Failure? then CheckFailed(CannotListNodes)
    else if used.value.None? then NilSetCrash
    else if Int32Of(port) in used.value.value then Occupied
    else Unused
  }

  /** A port is out of range exactly when the one text does not contain it or a piece of the other does. */
  lemma CheckPlainly(port: int, annotations: map<string, string>, names: Names, used: Result<Option<set<int32>>, ()>)
    ensures var range := if names.portRange in annotations then annotations[names.portRange] else "";
      var reserved := if names.reservedPortRanges in annotations then annotations[names.reservedPortRanges] else "";
      var check := CheckPort(port, Some(annotations), names, used);
      && (check == CheckFailed(BadRanges) <==>
          Parse(range).None? || exists piece :: piece in Split(reserved, ',') && Parse(piece).None?)
      && (check != CheckFailed(BadRanges) ==>
            (check == OutOfRange <==>
             || !Parse(range).value.Contains(port)
             || exists piece :: piece in Split(reserved, ',') && Parse(piece).value.Contains(port)))
  {
    hide Parse, Split, ParseRanges, Int32Of, Interval.Contains, Ranges.Contains;
    RangesPlainly(annotations, names);
  }

  method CheckPortUsed(port: int, annotations: Option<map<string, string>>, names: Names, used: Result<GoSet?, ()>)
    returns (r: Check)
    ensures r == CheckPort(port, annotations, names, UsedView(used))
    // In terms of the two annotations alone:
    ensures annotations.Some? ==>
      var range := if names.portRange in annotations.value then annotations.value[names.portRange] else "";
      var reserved :=
        if names.reservedPortRanges in annotations.value then annotations.value[names.reservedPortRanges] else "";
      && (r == CheckFailed(BadRanges) <==>
          Parse(range).None? || exists piece :: piece in Split(reserved, ',') && Parse(piece).None?)
      && (r != CheckFailed(BadRanges) ==>
            (r == OutOfRange <==>
             || !Parse(range).value.Contains(port)
             || exists piece :: piece in Split(reserved, ',') && Parse(piece).value.Contains(port)))
  {
    if annotations.None? {
      return CheckFailed(CannotRead);
    }
    hide ParseRanges, Int32Of;
    var prs := ParsePortRanges(TextOrEmpty(Lookup(annotations.value, names.portRange)),
                               TextOrEmpty(Lookup(annotations.value, names.reservedPortRanges)));
    if prs == null {
      r := CheckFailed(BadRanges);
    } else {
      var inRange := prs.Contains(port);
      if !inRange {
        r := OutOfRange;
      } else if used.Failure? {
        r := CheckFailed(CannotListNodes);
      } else if used.value == null {
        r := NilSetCrash;
      } else {
        var occupied := used.value.Contains([Int32Of(port)]);
        r := if occupied then Occupied else Unused;
      }
    }
    assert r == CheckPort(port, annotations, names, UsedView(used));
    hide *;
    CheckPlainly(port, annotations.value, names, UsedView(used));
  }

  // ---------- what the scan guarantees ----------

  /** A chosen port passes the check made with the same ranges and the same ports in use. */
  lemma ChosenPortPassesCheck(ranges: Option<Ranges>, stored: Option<string>, used: Result<Option<set<int32>>, ()>)
    requires ChooseIn(ranges, stored, used).Success?
    ensures CheckIn(ranges, ChooseIn(ranges, stored, used).value, used) == Unused
  {
    hide Int32Of, CursorOf;
  }

  /** Exactly when a port is handed out: some free port lies beyond the cursor or, once the cursor
      has reached the end, beyond the first port. The port is then the least of those. */
  lemma AllocatesIff(ranges: Ranges, cursor: int64, used: set<int32>)
    requires Canonical(ranges.range)
    ensures NextPort(ranges, cursor, Some(used)).Some? <==>
            exists p :: Free(ranges, used, p) && (if cursor < ranges.End() then p > cursor else p > ranges.Begin())
    ensures NextPort(ranges, cursor, Some(used)).Some? ==>
              var port := NextPort(ranges, cursor, Some(used)).value;
              && Free(ranges, used, port)
              && (if cursor < ranges.End() then port > cursor else port > ranges.Begin())
              && forall p :: Free(ranges, used, p) && (if cursor < ranges.End() then p > cursor else p > ranges.Begin())
                             ==> port <= p
  {
  }

  /** The same from what is stored: the cursor is the stored number, or the first port when there is none.
      A port is chosen exactly when a free one lies beyond the cursor, or, once the cursor has reached the
      last port, beyond the first; it is the least such. */
  lemma ChosenPortExactly(data: map<string, string>, annotations: map<string, string>, key: string, names: Names,
                          ports: set<int32>)
    requires RangesIn(annotations, names).Some?
    ensures var ranges := RangesIn(annotations, names).value;
      var first, last := ranges.range.base, ranges.range.base + ranges.range.size - 1;
      var choice := Choose(data, annotations, key, names, Success(Some(ports)));
      var cursor := if key in data && Atoi(data[key]).Some? then Atoi(data[key]).value else first;
      var from := if cursor >= last then first else cursor;
      && (choice.Failure? ==> choice == Failure(AllUsed))
      && (choice.Success? <==> exists p :: p > from && ranges.Contains(p) && Int32Of(p) !in ports)
      && (choice.Success? ==>
            && choice.value > from && ranges.Contains(choice.value) && Int32Of(choice.value) !in ports
            && forall p :: p > from && ranges.Contains(p) && Int32Of(p) !in ports ==> choice.value <= p)
  {
    hide Atoi, Int32Of, ParseRanges, NextPort;
    ParsedRangesAreCanonical(TextOrEmpty(Lookup(annotations, names.portRange)),
                             TextOrEmpty(Lookup(annotations, names.reservedPortRanges)));
    var ranges := RangesIn(annotations, names).value;
    var cursor := CursorOf(Lookup(data, key), ranges.Begin());
    AllocatesIff(ranges, cursor, ports);
    forall p | ranges.Contains(p)
      ensures ranges.End() == ranges.range.base + ranges.range.size - 1
    {
      ContainsUpToLast(ranges.range, p);
    }
    assert forall p :: Free(ranges, ports, p) <==> ranges.Contains(p) && Int32Of(p) !in ports;
    hide Ranges.Contains, Ranges.End;
  }

  lemma ContainsUpToLast(r: Interval, p: int)
    requires Canonical(r) && r.Contains(p)
    ensures r.base <= p <= r.Last() == r.base + r.size - 1
  {
  }

  /** The first port of the range is handed out only when the stored cursor lies below it; so a
      range of one port serves one cursor position and no other. */
  lemma FirstPortNeedsLowCursor(ranges: Ranges, cursor: int64, used: set<int32>)
    ensures NextPort(ranges, cursor, Some(used)) == Some(ranges.Begin() as int) ==> cursor < ranges.Begin()
    ensures ranges.Begin() == ranges.End() ==>
              (NextPort(ranges, cursor, Some(used)).Some? <==>
               cursor < ranges.Begin() && exists p :: cursor < p <= ranges.End() && Free(ranges, used, p))
  {
  }

  /** A failed scan writes no cursor, so it keeps failing until a port beyond the cursor comes free:
      what happens at or below the cursor makes no difference. */
  lemma ExhaustionPersists(ranges: Ranges, cursor: int64, used: set<int32>, used': set<int32>)
    requires NextPort(ranges, cursor, Some(used)).None?
    requires forall p :: p > ScanStart(ranges, cursor) && Int32Of(p) in used ==> Int32Of(p) in used'
    ensures NextPort(ranges, cursor, Some(used')).None?
  {
    hide Int32Of;
    var later := NextPort(ranges, cursor, Some(used'));
    assert later.Some? ==> !Free(ranges, used, later.value);
  }

  /** A free port in the range is not enough: with 1..4 free, 5..10 taken and the cursor at 5, the
      scan of 1-10 finds nothing. */
  lemma FreePortIsNotEnough()
    ensures var ranges := Ranges(Interval(1, 10), []);
      && Free(ranges, {5, 6, 7, 8, 9, 10}, 1)
      && NextPort(ranges, 5, Some({5, 6, 7, 8, 9, 10})).None?
  {
  }
}
