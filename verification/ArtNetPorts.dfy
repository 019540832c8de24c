/**
  The output ports of an Art-Net node as values: what each packet, ArtSync, command and network loss makes
  of them, and what holds of every port in every run.
 */
module ArtNetPorts {
  import opened Bytes

  const DMX_LENGTH := 512
  const MAX_PORTS := 4
  const MERGE_TIMEOUT := 10_000
  const SYNC_TIMEOUT := 4_000

  type Frame = s: seq<byte> | |s| == DMX_LENGTH witness seq(DMX_LENGTH, i => 0)

  datatype MergeMode = Htp | Ltp
  datatype Protocol = ArtNet | Sacn

  /** One of the two senders a port merges: what it sent last, when, and its address, or address zero. */
  datatype Source = Source(data: Frame, millis: dword, ip: dword)

  /**
    An output port: the frame in force and its length, the two sources, and the flags. running and sent are
    kept for the light output: whether it was started, and the last frame handed to it.
   */
  datatype Port = Port(
    enabled: bool, protocol: Protocol, address: word, mode: MergeMode,
    data: Frame, length: nat, a: Source, b: Source,
    pending: bool, merging: bool, running: bool, sent: seq<byte>)
  {
    predicate Valid() { length <= DMX_LENGTH }

    /** The light output shows the frame in force, unless it is stopped or the frame waits for an ArtSync. */
    predicate Current()
      requires Valid()
    {
      running && !pending ==> sent == data[..length]
    }

    /** The two sources differ unless there is none. */
    predicate Apart() { a.ip == b.ip ==> a.ip == 0 }
  }

  /** The ArtDmx packet: the length is given in two bytes, the payload buffer always has 512. */
  datatype Packet = Packet(address: word, from: dword, lengthHi: byte, lengthLo: byte, payload: Frame)
  {
    function Length(): (n: nat)
      ensures n <= DMX_LENGTH
    {
      var n := lengthHi as int * 0x100 + lengthLo as int;
      if n <= DMX_LENGTH then n else DMX_LENGTH
    }
  }

  datatype Config = Config(directUpdate: bool, disableMergeTimeout: bool, lossTimeout: dword, version: nat)

  datatype State = State(ports: seq<Port>, mergeMode: bool, syncMode: bool, syncMillis: dword, packetMillis: dword)
  {
    predicate Valid()
    {
      |ports| >= MAX_PORTS && forall i :: 0 <= i < |ports| ==> ports[i].Valid()
    }
  }

  /** Nothing: no packet was waiting. Assign stands for the port address changes of an ArtAddress packet. */
  datatype Event =
    | Nothing
    | Dmx(packet: Packet)
    | Sync(millis: dword)
    | Clear(port: nat)
    | SelectProtocol(port: nat, protocol: Protocol)
    | SelectMerge(port: nat, mode: MergeMode)
    | CancelMerge
    | Assign(port: nat, enabled: bool, address: word)
    | Other

  // ---- one packet at one port ----

  /** The first n bytes of src over the rest of f. */
  function Overlay(src: Frame, n: nat, f: Frame): Frame
    requires n <= DMX_LENGTH
  {
    src[..n] + f[n..]
  }

  function Max(a: byte, b: byte): byte { if a < b then b else a }

  /** Channel by channel the higher of two frames over the first n channels. */
  function Highest(a: Frame, b: Frame, n: nat, f: Frame): Frame
    requires n <= DMX_LENGTH
  {
    seq(DMX_LENGTH, i requires 0 <= i < DMX_LENGTH => if i < n then Max(a[i], b[i]) else f[i])
  }

  predicate Changed(before: Port, after: Port)
    requires after.Valid()
  {
    before.length != after.length || before.data[..after.length] != after.data[..after.length]
  }

  /** Which source a sender is, in the order in which the node decides it. */
  datatype Role = First | OnlyA | OnlyB | NewB | NewA | MergeA | MergeB | Both | Third
  {
    predicate Accepted() { this != Both && this != Third }
    predicate Merges() { NewB? || NewA? || MergeA? || MergeB? }
    predicate IsA() { First? || OnlyA? || NewA? || MergeA? }
  }

  function RoleOf(ipA: dword, ipB: dword, from: dword): Role
  {
    if ipA == 0 && ipB == 0 then First
    else if ipA == from && ipB == 0 then OnlyA
    else if ipA == 0 && ipB == from then OnlyB
    else if ipA != from && ipB == 0 then NewB
    else if ipA == 0 && ipB != from then NewA
    else if ipA == from && ipB != from then MergeA
    else if ipA != from && ipB == from then MergeB
    else if ipA == from && ipB == from then Both
    else Third
  }

  /** The packet as the last one of its source. */
  function Heard(source: Source, role: Role, packet: Packet, now: dword): Source
  {
    Source(Overlay(packet.payload, packet.Length(), source.data), now,
           if role.First? || role.NewA? || role.NewB? then packet.from else source.ip)
  }

  /** The port with the packet stored at its source. */
  function WithSource(port: Port, role: Role, packet: Packet, now: dword): Port
  {
    if role.IsA() then port.(a := Heard(port.a, role, packet, now)) else port.(b := Heard(port.b, role, packet, now))
  }

  /** The frame in force once the packet is stored: the packet itself, or the two sources merged. */
  function FrameOf(port: Port, role: Role, packet: Packet): Frame
  {
    var n := packet.Length();
    if !role.Merges() then Overlay(packet.payload, n, port.data)
    else if port.mode == Htp then Highest(port.a.data, port.b.data, n, port.data)
    else Overlay(if role.IsA() then port.a.data else port.b.data, n, port.data)
  }

  function Stored(port: Port, role: Role, packet: Packet, now: dword): (r: Port)
    ensures r.length == packet.Length()
  {
    var p := WithSource(port, role, packet, now);
    p.(length := packet.Length(), data := FrameOf(p, role, packet), merging := p.merging || role.Merges())
  }

  /** The light output gets the frame at once, or the frame waits for an ArtSync. */
  function Delivered(port: Port, changed: bool, direct: bool, sync: bool): Port
    requires port.Valid()
  {
    if !(changed || direct) then port
    else if sync then port.(pending := changed)
    else port.(sent := port.data[..port.length], running := true)
  }

  /** A source that has been silent for too long is forgotten. */
  function TimedOut(port: Port, now: dword): Port
  {
    var lateA, lateB := Sub32(now, port.a.millis) > MERGE_TIMEOUT, Sub32(now, port.b.millis) > MERGE_TIMEOUT;
    port.(a := if lateA then port.a.(ip := 0) else port.a,
          b := if lateB then port.b.(ip := 0) else port.b,
          merging := port.merging && !lateA && !lateB)
  }

  predicate AnyMerging(ports: seq<Port>)
  {
    exists i :: 0 <= i < |ports| && ports[i].merging
  }

  function TimeoutsChecked(s: State, i: nat, now: dword): State
    requires i < |s.ports|
  {
    var ports := s.ports[i := TimedOut(s.ports[i], now)];
    s.(ports := ports, mergeMode := s.mergeMode && AnyMerging(ports))
  }

  // ---- events at the node ----

  predicate Addressed(port: Port, packet: Packet)
  {
    port.enabled && port.protocol == ArtNet && packet.address == port.address
  }

  /** The state in which the packet is stored: sources may just have timed out, though the role was decided before. */
  function BeforeStore(cfg: Config, s: State, i: nat, now: dword): State
    requires i < |s.ports|
  {
    if s.mergeMode && !cfg.disableMergeTimeout then TimeoutsChecked(s, i, now) else s
  }

  /** One addressed port takes the packet. */
  function Taken(cfg: Config, s: State, i: nat, packet: Packet, now: dword): (r: State)
    requires s.Valid() && i < |s.ports| && RoleOf(s.ports[i].a.ip, s.ports[i].b.ip, packet.from).Accepted()
  {
    var role := RoleOf(s.ports[i].a.ip, s.ports[i].b.ip, packet.from);
    var t := BeforeStore(cfg, s, i, now);
    var p := Stored(t.ports[i], role, packet, now);
    t.(ports := t.ports[i := Delivered(p, Changed(t.ports[i], p), cfg.directUpdate, t.syncMode)],
       mergeMode := t.mergeMode || role.Merges())
  }

  /** The ports from i on see the packet in turn; one that rejects it stops the rest from seeing it. */
  function DmxFrom(cfg: Config, s: State, i: nat, packet: Packet, now: dword): State
    requires s.Valid() && i <= |s.ports|
    decreases |s.ports| - i
  {
    if i == |s.ports| then s
    else if !Addressed(s.ports[i], packet) then DmxFrom(cfg, s, i + 1, packet, now)
    else if !RoleOf(s.ports[i].a.ip, s.ports[i].b.ip, packet.from).Accepted() then BeforeStore(cfg, s, i, now)
    else DmxFrom(cfg, Taken(cfg, s, i, packet, now), i + 1, packet, now)
  }

  function SyncedPort(cfg: Config, port: Port): Port
    requires port.Valid()
  {
    if port.protocol == ArtNet && (port.pending || (port.enabled && cfg.directUpdate))
    then port.(sent := port.data[..port.length], running := true, pending := false)
    else port
  }

  function Dark(): Frame { seq(DMX_LENGTH, i => 0) }

  function ClearedPort(port: Port): Port
  {
    var p := port.(data := Dark(), length := DMX_LENGTH);
    if p.protocol == ArtNet then p.(sent := p.data, running := true) else p
  }

  function LostPort(port: Port): Port
  {
    var p := port.(length := 0, a := port.a.(ip := 0), b := port.b.(ip := 0));
    if p.protocol == ArtNet then p.(running := false) else p
  }

  predicate DataLost(cfg: Config, s: State, now: dword)
  {
    cfg.lossTimeout != 0 && Sub32(now, s.packetMillis) >= cfg.lossTimeout
  }

  /** Every received packet first marks the time and may end synchronous mode. */
  function Received(s: State, now: dword): State
  {
    s.(packetMillis := now, syncMode := s.syncMode && Sub32(now, s.syncMillis) < SYNC_TIMEOUT)
  }

  /** A port of the node; the clear command names one of the first page. */
  predicate Legal(s: State, e: Event)
  {
    && (e.SelectProtocol? || e.SelectMerge? || e.Assign? ==> e.port < |s.ports|)
    && (e.Clear? ==> e.port < MAX_PORTS)
  }

  function Step(cfg: Config, s: State, now: dword, e: Event): State
    requires s.Valid() && Legal(s, e)
  {
    var t := Received(s, now);
    match e
    case Nothing =>
      if DataLost(cfg, s, now)
      then s.(ports := seq(|s.ports|, i requires 0 <= i < |s.ports| => LostPort(s.ports[i])), mergeMode := false,
        syncMode := false)
      else s
    case Dmx(packet) => DmxFrom(cfg, t, 0, packet, now)
    case Sync(millis) =>
      t.(syncMode := true, syncMillis := millis,
         ports := seq(|t.ports|, i requires 0 <= i < |t.ports| => SyncedPort(cfg, t.ports[i])))
    case Clear(i) => t.(ports := t.ports[i := ClearedPort(t.ports[i])])
    case SelectProtocol(i, protocol) => if cfg.version > 3
      then t.(ports := t.ports[i := t.ports[i].(protocol := protocol)]) else t
    case SelectMerge(i, mode) => t.(ports := t.ports[i := t.ports[i].(mode := mode)])
    case CancelMerge => t.(mergeMode := false,
      ports := seq(|t.ports|, i requires 0 <= i < |t.ports| => t.ports[i].(merging := false)))
    case Assign(i, enabled, address) => t.(ports := t.ports[i := t.ports[i].(enabled := enabled, address := address)])
    case Other => t
  }

  // ---- one port during a packet ----

  /** What the packet makes of one addressed port, whether or not its timeouts are checked first. */
  function Arrived(cfg: Config, port: Port, checked: bool, sync: bool, packet: Packet, now: dword): (r: Port)
    requires port.Valid()
    ensures r.Valid()
  {
    var role := RoleOf(port.a.ip, port.b.ip, packet.from);
    var p := if checked then TimedOut(port, now) else port;
    if role.Accepted() then
      var q := Stored(p, role, packet, now);
      Delivered(q, Changed(p, q), cfg.directUpdate, sync)
    else p
  }

  /** No port before p rejects the packet. */
  ghost predicate Reaches(ports: seq<Port>, i: nat, packet: Packet, p: nat)
    requires p <= |ports|
  {
    forall j :: i <= j < p && Addressed(ports[j], packet) ==>
      RoleOf(ports[j].a.ip, ports[j].b.ip, packet.from).Accepted()
  }

  /** Taking or rejecting the packet at port i touches that port alone. */
  lemma OnePort(cfg: Config, s: State, i: nat, packet: Packet, now: dword)
    requires s.Valid() && i < |s.ports|
    ensures var port := s.ports[i];
            var role := RoleOf(port.a.ip, port.b.ip, packet.from);
            var checked := s.mergeMode && !cfg.disableMergeTimeout;
            var t := if role.Accepted() then Taken(cfg, s, i, packet, now) else BeforeStore(cfg, s, i, now);
            && t.ports == s.ports[i := Arrived(cfg, port, checked, s.syncMode, packet, now)]
            && t.syncMode == s.syncMode && t.syncMillis == s.syncMillis && t.Valid()
            && t.mergeMode == ((s.mergeMode && (checked ==> AnyMerging(s.ports[i := TimedOut(port, now)])))
              || (role.Accepted() && role.Merges()))
  {
    hide Stored, Delivered, Changed, RoleOf, TimedOut, AnyMerging;
  }

  lemma SameReach(ports: seq<Port>, others: seq<Port>, i: nat, packet: Packet, p: nat)
    requires |others| == |ports| && i < p <= |ports|
    requires forall j :: i < j < |ports| ==> others[j] == ports[j]
    requires Addressed(ports[i], packet) ==> RoleOf(ports[i].a.ip, ports[i].b.ip, packet.from).Accepted()
    ensures Reaches(others, i + 1, packet, p) <==> Reaches(ports, i, packet, p)
  {
    hide RoleOf, Addressed;
  }

  /** Port j has seen the packet by the time it comes to port p. */
  predicate Seen(ports: seq<Port>, i: nat, packet: Packet, p: nat, j: nat)
    requires j < |ports|
  {
    i <= j < p && Addressed(ports[j], packet)
  }

  /** Port j still merges then, its sources checked for silence if it has seen the packet. */
  predicate StillMerging(ports: seq<Port>, i: nat, packet: Packet, now: dword, p: nat, j: nat)
    requires j < |ports|
  {
    if Seen(ports, i, packet, p, j) then TimedOut(ports[j], now).merging else ports[j].merging
  }

  /** A port that has seen the packet has merged it. */
  ghost predicate AnyMerged(ports: seq<Port>, i: nat, packet: Packet, p: nat)
  {
    exists j: nat :: j < |ports| && Seen(ports, i, packet, p, j)
      && RoleOf(ports[j].a.ip, ports[j].b.ip, packet.from).Merges()
  }

  ghost predicate AnySeen(ports: seq<Port>, i: nat, packet: Packet, p: nat)
  {
    exists j: nat :: j < |ports| && Seen(ports, i, packet, p, j)
  }

  ghost predicate AnyStillMerging(ports: seq<Port>, i: nat, packet: Packet, now: dword, p: nat)
  {
    exists j: nat :: j < |ports| && StillMerging(ports, i, packet, now, p, j)
  }

  /**
    Whether port p is checked for silent sources before it takes the packet: the node is in merge mode by then, because
    an earlier port has merged the packet, or because it was before and no port has been checked or one still merges.
   */
  ghost predicate ChecksTimeouts(cfg: Config, s: State, i: nat, packet: Packet, now: dword, p: nat)
  {
    && !cfg.disableMergeTimeout
    && (|| AnyMerged(s.ports, i, packet, p)
        || (s.mergeMode && (!AnySeen(s.ports, i, packet, p) || AnyStillMerging(s.ports, i, packet, now, p))))
  }

  /** Port j, other than i, is the same whether the count of ports begins at i or behind it. */
  lemma SameBehind(ports: seq<Port>, others: seq<Port>, i: nat, packet: Packet, now: dword, p: nat, j: nat)
    requires |others| == |ports| && j < |ports| && (j == i ==> !Addressed(ports[j], packet)) && others[j] == ports[j]
    ensures Seen(others, i + 1, packet, p, j) <==> Seen(ports, i, packet, p, j)
    ensures StillMerging(others, i + 1, packet, now, p, j) <==> StillMerging(ports, i, packet, now, p, j)
  {
    hide TimedOut, Addressed;
  }

  lemma AnyMergedNext(ports: seq<Port>, others: seq<Port>, i: nat, packet: Packet, p: nat)
    requires |others| == |ports| && i < p <= |ports| && Addressed(ports[i], packet)
    requires forall j :: 0 <= j < |ports| && j != i ==> others[j] == ports[j]
    ensures AnyMerged(ports, i, packet, p) <==>
              AnyMerged(others, i + 1, packet, p) || RoleOf(ports[i].a.ip, ports[i].b.ip, packet.from).Merges()
  {
    hide RoleOf, Addressed, Role.Merges;
    assert Seen(ports, i, packet, p, i);
    forall j: nat | j < |ports| && j != i
      ensures Seen(others, i + 1, packet, p, j) <==> Seen(ports, i, packet, p, j)
    {
      SameBehind(ports, others, i, packet, 0, p, j);
    }
    if AnyMerged(ports, i, packet, p) {
      var j: nat :| j < |ports| && Seen(ports, i, packet, p, j)
        && RoleOf(ports[j].a.ip, ports[j].b.ip, packet.from).Merges();
      assert j != i ==> Seen(others, i + 1, packet, p, j);
    }
  }

  lemma AnyStillNext(ports: seq<Port>, others: seq<Port>, i: nat, packet: Packet, now: dword, p: nat)
    requires |others| == |ports| && i < p <= |ports| && Addressed(ports[i], packet)
    requires forall j :: 0 <= j < |ports| && j != i ==> others[j] == ports[j]
    requires others[i].merging == TimedOut(ports[i], now).merging
    ensures AnyStillMerging(ports, i, packet, now, p) <==> AnyStillMerging(others, i + 1, packet, now, p)
  {
    hide TimedOut, Addressed;
    if AnyStillMerging(ports, i, packet, now, p) {
      var j: nat :| j < |ports| && StillMerging(ports, i, packet, now, p, j);
      if j != i { SameBehind(ports, others, i, packet, now, p, j); }
      assert StillMerging(others, i + 1, packet, now, p, j);
    }
    if AnyStillMerging(others, i + 1, packet, now, p) {
      var j: nat :| j < |others| && StillMerging(others, i + 1, packet, now, p, j);
      if j != i { SameBehind(ports, others, i, packet, now, p, j); }
      assert StillMerging(ports, i, packet, now, p, j);
    }
  }

  /** With no port behind i to see the packet, those still merging are those that merge once i was checked. */
  lemma AnyStillLast(ports: seq<Port>, i: nat, packet: Packet, now: dword, p: nat)
    requires i < p <= |ports| && Addressed(ports[i], packet)
    ensures AnyStillMerging(ports, i, packet, now, p) ==> AnyMerging(ports[i := TimedOut(ports[i], now)])
    ensures !AnySeen(ports, i + 1, packet, p) && AnyMerging(ports[i := TimedOut(ports[i], now)]) ==>
              AnyStillMerging(ports, i, packet, now, p)
  {
    hide TimedOut, Addressed;
    var checked := ports[i := TimedOut(ports[i], now)];
    TimedOutMerges(ports, packet, i, p, now);
    assert StillMerging(ports, i, packet, now, p, i) <==> checked[i].merging;
    if AnyStillMerging(ports, i, packet, now, p) {
      var j: nat :| j < |ports| && StillMerging(ports, i, packet, now, p, j);
      assert checked[j].merging;
    }
    if !AnySeen(ports, i + 1, packet, p) && AnyMerging(checked) {
      var j :| 0 <= j < |checked| && checked[j].merging;
      assert j != i ==> !Seen(ports, i + 1, packet, p, j);
      assert StillMerging(ports, i, packet, now, p, j);
    }
  }

  lemma SameSeen(ports: seq<Port>, others: seq<Port>, k: nat, packet: Packet, p: nat)
    requires |others| == |ports| && forall j :: k <= j < |ports| ==> others[j] == ports[j]
    ensures AnySeen(others, k, packet, p) <==> AnySeen(ports, k, packet, p)
  {
    hide Addressed;
    assert forall j: nat :: j < |ports| ==> (Seen(others, k, packet, p, j) <==> Seen(ports, k, packet, p, j));
  }

  /** Once port i has taken the packet, the check at a later port p is decided as before. */
  lemma SameCheck(cfg: Config, s: State, t: State, i: nat, packet: Packet, now: dword, p: nat)
    requires |t.ports| == |s.ports| && i < p <= |s.ports|
    requires forall j :: 0 <= j < |s.ports| && j != i ==> t.ports[j] == s.ports[j]
    requires Addressed(s.ports[i], packet) && !cfg.disableMergeTimeout
    requires var role := RoleOf(s.ports[i].a.ip, s.ports[i].b.ip, packet.from);
             && t.ports[i].merging == ((if s.mergeMode then TimedOut(s.ports[i], now) else s.ports[i]).merging
               || role.Merges())
             && t.mergeMode == ((s.mergeMode && AnyMerging(s.ports[i := TimedOut(s.ports[i], now)])) || role.Merges())
    ensures ChecksTimeouts(cfg, t, i + 1, packet, now, p) <==> ChecksTimeouts(cfg, s, i, packet, now, p)
  {
    hide TimedOut, RoleOf, Addressed, Role.Merges, AnyMerged, AnySeen, AnyStillMerging, AnyMerging;
    var role := RoleOf(s.ports[i].a.ip, s.ports[i].b.ip, packet.from);
    AnyMergedNext(s.ports, t.ports, i, packet, p);
    if role.Merges() {
      assert AnyStillMerging(t.ports, i + 1, packet, now, p) by { OneStill(t.ports, i + 1, packet, now, p, i); }
    } else if s.mergeMode {
      assert AnySeen(s.ports, i, packet, p) by { OneSeen(s.ports, i, packet, p, i); }
      SameSeen(s.ports, t.ports, i + 1, packet, p);
      AnyStillNext(s.ports, t.ports, i, packet, now, p);
      AnyStillLast(s.ports, i, packet, now, p);
    }
  }

  lemma OneSeen(ports: seq<Port>, i: nat, packet: Packet, p: nat, j: nat)
    requires j < |ports| && i <= j < p && Addressed(ports[j], packet)
    ensures AnySeen(ports, i, packet, p)
  {
    assert Seen(ports, i, packet, p, j);
  }

  lemma OneStill(ports: seq<Port>, i: nat, packet: Packet, now: dword, p: nat, j: nat)
    requires j < |ports| && j < i && ports[j].merging
    ensures AnyStillMerging(ports, i, packet, now, p)
  {
    assert StillMerging(ports, i, packet, now, p, j);
  }

  lemma TimedOutMerges(ports: seq<Port>, packet: Packet, i: nat, p: nat, now: dword)
    ensures forall j: nat :: j < |ports| && StillMerging(ports, i, packet, now, p, j) ==> ports[j].merging
  {
  }

  /**
    Each port sees the packet if it is addressed and no earlier port rejects it, after a check of its sources if the
    node is in merge mode by then; no other port changes.
   */
  lemma {:induction false} DmxPort(cfg: Config, s: State, i: nat, packet: Packet, now: dword, p: nat)
    requires s.Valid() && i <= |s.ports| && p < |s.ports|
    ensures var t := DmxFrom(cfg, s, i, packet, now);
            && |t.ports| == |s.ports|
            && t.syncMode == s.syncMode && t.syncMillis == s.syncMillis
            && t.ports[p] == if i <= p && Addressed(s.ports[p], packet) && Reaches(s.ports, i, packet, p)
                             then Arrived(cfg, s.ports[p], ChecksTimeouts(cfg, s, i, packet, now, p), s.syncMode,
                               packet, now)
                             else s.ports[p]
    decreases |s.ports| - i
  {
    hide Arrived, Taken, BeforeStore, RoleOf, ChecksTimeouts, TimedOut, AnyMerging;
    if i < |s.ports| {
      OnePort(cfg, s, i, packet, now);
      if i == p { FirstCheck(cfg, s, i, packet, now); }
      if !Addressed(s.ports[i], packet) {
        DmxPort(cfg, s, i + 1, packet, now, p);
        if i < p { SkipCheck(cfg, s, i, packet, now, p); }
      } else if RoleOf(s.ports[i].a.ip, s.ports[i].b.ip, packet.from).Accepted() {
        var t := Taken(cfg, s, i, packet, now);
        DmxPort(cfg, t, i + 1, packet, now, p);
        if i < p {
          SameReach(s.ports, t.ports, i, packet, p);
          TakenCheck(cfg, s, i, packet, now, p);
        }
      } else {
        assert i < p ==> !Reaches(s.ports, i, packet, p);
      }
    }
  }

  lemma FirstCheck(cfg: Config, s: State, i: nat, packet: Packet, now: dword)
    requires i <= |s.ports|
    ensures ChecksTimeouts(cfg, s, i, packet, now, i) <==> s.mergeMode && !cfg.disableMergeTimeout
  {
    hide TimedOut, RoleOf;
  }

  lemma SkipCheck(cfg: Config, s: State, i: nat, packet: Packet, now: dword, p: nat)
    requires i < p <= |s.ports| && !Addressed(s.ports[i], packet)
    ensures ChecksTimeouts(cfg, s, i + 1, packet, now, p) <==> ChecksTimeouts(cfg, s, i, packet, now, p)
  {
    hide TimedOut, RoleOf, Addressed, Seen, StillMerging, Role.Merges;
    MoreSeen(s.ports, i, i + 1, packet, now, p);
    MoreSeen(s.ports, i + 1, i, packet, now, p);
  }

  lemma MoreSeen(ports: seq<Port>, i: nat, k: nat, packet: Packet, now: dword, p: nat)
    requires i <= p <= |ports| && k <= p
    requires (k == i + 1 && !Addressed(ports[i], packet)) || (i == k + 1 && !Addressed(ports[k], packet))
    ensures AnySeen(ports, i, packet, p) ==> AnySeen(ports, k, packet, p)
    ensures AnyMerged(ports, i, packet, p) ==> AnyMerged(ports, k, packet, p)
    ensures AnyStillMerging(ports, i, packet, now, p) ==> AnyStillMerging(ports, k, packet, now, p)
  {
    hide TimedOut, RoleOf, Addressed, Role.Merges;
    if AnySeen(ports, i, packet, p) {
      var j: nat :| j < |ports| && Seen(ports, i, packet, p, j);
      assert Seen(ports, k, packet, p, j);
    }
    if AnyMerged(ports, i, packet, p) {
      var j: nat :| j < |ports| && Seen(ports, i, packet, p, j)
        && RoleOf(ports[j].a.ip, ports[j].b.ip, packet.from).Merges();
      assert Seen(ports, k, packet, p, j);
    }
    if AnyStillMerging(ports, i, packet, now, p) {
      var j: nat :| j < |ports| && StillMerging(ports, i, packet, now, p, j);
      assert StillMerging(ports, k, packet, now, p, j);
    }
  }

  lemma TakenCheck(cfg: Config, s: State, i: nat, packet: Packet, now: dword, p: nat)
    requires s.Valid() && i < p <= |s.ports| && Addressed(s.ports[i], packet)
    requires RoleOf(s.ports[i].a.ip, s.ports[i].b.ip, packet.from).Accepted()
    ensures ChecksTimeouts(cfg, Taken(cfg, s, i, packet, now), i + 1, packet, now, p) <==>
              ChecksTimeouts(cfg, s, i, packet, now, p)
  {
    hide RoleOf, ChecksTimeouts, TimedOut, AnyMerging, Taken, BeforeStore, Arrived;
    OnePort(cfg, s, i, packet, now);
    ArrivedMerges(cfg, s.ports[i], s.mergeMode && !cfg.disableMergeTimeout, s.syncMode, packet, now);
    if cfg.disableMergeTimeout {
      NoCheck(cfg, s, i, packet, now, p);
      NoCheck(cfg, Taken(cfg, s, i, packet, now), i + 1, packet, now, p);
    } else {
      SameCheck(cfg, s, Taken(cfg, s, i, packet, now), i, packet, now, p);
    }
  }

  lemma NoCheck(cfg: Config, s: State, i: nat, packet: Packet, now: dword, p: nat)
    requires p <= |s.ports| && cfg.disableMergeTimeout
    ensures !ChecksTimeouts(cfg, s, i, packet, now, p)
  {
  }

  lemma ArrivedMerges(cfg: Config, port: Port, checked: bool, sync: bool, packet: Packet, now: dword)
    requires port.Valid() && RoleOf(port.a.ip, port.b.ip, packet.from).Accepted()
    ensures var role := RoleOf(port.a.ip, port.b.ip, packet.from);
            Arrived(cfg, port, checked, sync, packet, now).merging
              == ((if checked then TimedOut(port, now) else port).merging || role.Merges())
  {
    hide RoleOf, Changed, FrameOf, WithSource, TimedOut, Role.Merges;
    StoredMerges(if checked then TimedOut(port, now) else port, RoleOf(port.a.ip, port.b.ip, packet.from), packet, now);
  }

  lemma StoredMerges(port: Port, role: Role, packet: Packet, now: dword)
    ensures Stored(port, role, packet, now).merging == (port.merging || role.Merges())
  {
    hide FrameOf, Heard, Role.Merges, Role.IsA;
  }

  lemma DmxValid(cfg: Config, s: State, packet: Packet, now: dword)
    requires s.Valid()
    ensures var t := DmxFrom(cfg, s, 0, packet, now); |t.ports| == |s.ports| && t.Valid()
  {
    hide Arrived, DmxFrom, Reaches, ChecksTimeouts;
    DmxPort(cfg, s, 0, packet, now, 0);
    forall p | 0 <= p < |s.ports|
      ensures DmxFrom(cfg, s, 0, packet, now).ports[p].Valid()
    {
      DmxPort(cfg, s, 0, packet, now, p);
    }
  }

  /** Every event keeps the ports and their lengths in range. */
  lemma StepValid(cfg: Config, s: State, now: dword, e: Event)
    requires s.Valid() && Legal(s, e)
    ensures Step(cfg, s, now, e).Valid() && |Step(cfg, s, now, e).ports| == |s.ports|
  {
    hide DmxFrom;
    if e.Dmx? {
      DmxValid(cfg, Received(s, now), e.packet, now);
    }
  }

  /** The output of an accepted packet: the packet itself from one source or under LTP, else the maximum of both
      sources. */
  lemma AcceptedOutput(cfg: Config, port: Port, checked: bool, sync: bool, packet: Packet, now: dword)
    requires port.Valid() && RoleOf(port.a.ip, port.b.ip, packet.from).Accepted()
    ensures var role := RoleOf(port.a.ip, port.b.ip, packet.from);
            var n := packet.Length();
            var r := Arrived(cfg, port, checked, sync, packet, now);
            && r.length == n
            && (if role.IsA() then r.a else r.b).data[..n] == packet.payload[..n]
            && (if role.IsA() then r.b.data == port.b.data else r.a.data == port.a.data)
            && if role.Merges() && port.mode == Htp
               then forall k :: 0 <= k < n ==>
                      && r.data[k] >= r.a.data[k] && r.data[k] >= r.b.data[k]
                      && (r.data[k] == r.a.data[k] || r.data[k] == r.b.data[k])
               else r.data[..n] == packet.payload[..n]
  {
    hide RoleOf, Changed, FrameOf, Overlay, Packet.Length, Role.Merges, Role.IsA;
    var role := RoleOf(port.a.ip, port.b.ip, packet.from);
    var p := if checked then TimedOut(port, now) else port;
    StoredFrame(p, role, packet, now);
  }

  lemma StoredFrame(port: Port, role: Role, packet: Packet, now: dword)
    ensures var n := packet.Length();
            var r := Stored(port, role, packet, now);
            && (if role.IsA() then r.a else r.b).data[..n] == packet.payload[..n]
            && (if role.IsA() then r.b == port.b else r.a == port.a)
            && if role.Merges() && port.mode == Htp
               then forall k :: 0 <= k < n ==>
                      && r.data[k] >= r.a.data[k] && r.data[k] >= r.b.data[k]
                      && (r.data[k] == r.a.data[k] || r.data[k] == r.b.data[k])
               else r.data[..n] == packet.payload[..n]
  {
    hide Packet.Length, Role.Merges, Role.IsA;
  }

  /** A rejected packet leaves frame, buffers, output and flags of the port alone. */
  lemma RejectedOutput(cfg: Config, port: Port, checked: bool, sync: bool, packet: Packet, now: dword)
    requires port.Valid() && !RoleOf(port.a.ip, port.b.ip, packet.from).Accepted()
    ensures var r := Arrived(cfg, port, checked, sync, packet, now);
            r == port.(a := port.a.(ip := r.a.ip), b := port.b.(ip := r.b.ip), merging := r.merging)
  {
  }

  // ---- invariants ----

  /** Sources stay apart even when one of them times out while its packet, or the other's, is being stored. */
  lemma ArrivedApart(cfg: Config, port: Port, checked: bool, sync: bool, packet: Packet, now: dword)
    requires port.Valid() && port.Apart()
    ensures Arrived(cfg, port, checked, sync, packet, now).Apart()
    ensures RoleOf(port.a.ip, port.b.ip, packet.from) != Both
  {
    hide FrameOf, Changed, Overlay, Packet.Length, Stored, RoleOf, Role.IsA;
    var role := RoleOf(port.a.ip, port.b.ip, packet.from);
    var p := if checked then TimedOut(port, now) else port;
    RoleApart(port.a.ip, port.b.ip, packet.from, p.a.ip, p.b.ip);
    StoredSource(p, role, packet, now);
  }

  lemma StoredSource(port: Port, role: Role, packet: Packet, now: dword)
    ensures var r := Stored(port, role, packet, now);
            && r.a.ip == (if role.First? || role.NewA? then packet.from else port.a.ip)
            && r.b.ip == (if role.NewB? then packet.from else port.b.ip)
  {
  }

  /** Decided on the addresses ipA and ipB, of which either may be zero by the time the sender is entered. */
  lemma RoleApart(ipA: dword, ipB: dword, from: dword, nowA: dword, nowB: dword)
    requires ipA == ipB ==> ipA == 0
    requires (nowA == ipA || nowA == 0) && (nowB == ipB || nowB == 0)
    ensures var role := RoleOf(ipA, ipB, from);
            && role != Both
            && var a := if role.First? || role.NewA? then from else nowA;
               var b := if role.NewB? then from else nowB;
               a == b ==> a == 0
  {
  }

  /** With direct update on, a repeated packet in synchronous mode takes back the pending mark of a frame not shown
      yet. */
  predicate Forgets(cfg: Config, port: Port, sync: bool, packet: Packet, now: dword)
    requires port.Valid()
  {
    var role := RoleOf(port.a.ip, port.b.ip, packet.from);
    && cfg.directUpdate && sync && role.Accepted()
    && port.running && port.pending && port.sent != port.data[..port.length]
    && !Changed(port, Stored(port, role, packet, now))
  }

  lemma ArrivedCurrent(cfg: Config, port: Port, checked: bool, sync: bool, packet: Packet, now: dword)
    requires port.Valid() && port.Current()
    ensures Arrived(cfg, port, checked, sync, packet, now).Current() <==> !Forgets(cfg, port, sync, packet, now)
  {
    hide Stored, RoleOf;
    var role := RoleOf(port.a.ip, port.b.ip, packet.from);
    StoredFlags(if checked then TimedOut(port, now) else port, role, packet, now);
    TimedOutFrame(port, role, packet, now);
  }

  /** A timeout has no part in the frame. */
  lemma TimedOutFrame(port: Port, role: Role, packet: Packet, now: dword)
    ensures Stored(TimedOut(port, now), role, packet, now).data == Stored(port, role, packet, now).data
  {
    hide WithSource, FrameOf, TimedOut, Packet.Length, Role.Merges;
    var p := TimedOut(port, now);
    TimedOutFields(port, now);
    SourceFields(p, port, role, packet, now);
    SameFrame(WithSource(p, role, packet, now), WithSource(port, role, packet, now), role, packet);
  }

  predicate SameBuffers(p: Port, q: Port)
  {
    p.mode == q.mode && p.data == q.data && p.a.data == q.a.data && p.b.data == q.b.data
  }

  lemma TimedOutFields(port: Port, now: dword)
    ensures SameBuffers(TimedOut(port, now), port)
  {
  }

  lemma SourceFields(p: Port, q: Port, role: Role, packet: Packet, now: dword)
    requires SameBuffers(p, q)
    ensures SameBuffers(WithSource(p, role, packet, now), WithSource(q, role, packet, now))
  {
    hide Heard, Role.IsA, SameBuffers;
    var x, y := WithSource(p, role, packet, now), WithSource(q, role, packet, now);
    if role.IsA() {
      ReplacedA(p, q, x.a, y.a, role, packet, now);
    } else {
      ReplacedB(p, q, x.b, y.b, role, packet, now);
    }
  }

  lemma ReplacedA(p: Port, q: Port, x: Source, y: Source, role: Role, packet: Packet, now: dword)
    requires SameBuffers(p, q) && x == Heard(p.a, role, packet, now) && y == Heard(q.a, role, packet, now)
    ensures SameBuffers(p.(a := x), q.(a := y))
  {
    hide Heard;
    HeardData(p.a, q.a, role, packet, now);
  }

  lemma ReplacedB(p: Port, q: Port, x: Source, y: Source, role: Role, packet: Packet, now: dword)
    requires SameBuffers(p, q) && x == Heard(p.b, role, packet, now) && y == Heard(q.b, role, packet, now)
    ensures SameBuffers(p.(b := x), q.(b := y))
  {
    hide Heard;
    HeardData(p.b, q.b, role, packet, now);
  }

  lemma HeardData(x: Source, y: Source, role: Role, packet: Packet, now: dword)
    requires x.data == y.data
    ensures Heard(x, role, packet, now).data == Heard(y, role, packet, now).data
  {
    assert x.data == y.data;
  }

  lemma SameFrame(p: Port, q: Port, role: Role, packet: Packet)
    requires SameBuffers(p, q)
    ensures FrameOf(p, role, packet) == FrameOf(q, role, packet)
  {
    hide Overlay, Packet.Length, Role.IsA, Role.Merges, Highest;
  }

  lemma StoredFlags(port: Port, role: Role, packet: Packet, now: dword)
    ensures var r := Stored(port, role, packet, now);
            r.running == port.running && r.pending == port.pending && r.sent == port.sent
  {
  }

  lemma ApartStep(cfg: Config, s: State, now: dword, e: Event, i: nat)
    requires s.Valid() && Legal(s, e) && i < |s.ports| && s.ports[i].Apart()
    ensures i < |Step(cfg, s, now, e).ports| && Step(cfg, s, now, e).ports[i].Apart()
  {
    hide DmxFrom, Arrived, ChecksTimeouts;
    if e.Dmx? {
      var t := Received(s, now);
      DmxPort(cfg, t, 0, e.packet, now, i);
      ArrivedApart(cfg, s.ports[i], ChecksTimeouts(cfg, t, 0, e.packet, now, i), t.syncMode, e.packet, now);
    }
  }

  /**
    The events after which a port does not show its frame: a clear command or a network loss changes the frame
    of a running sACN port without handing it to the output, and with direct update on a packet may be forgotten.
   */
  ghost predicate Silenced(cfg: Config, s: State, now: dword, e: Event, i: nat)
    requires s.Valid() && i < |s.ports|
  {
    var p := s.ports[i];
    || (p.protocol == Sacn && p.running && !p.pending
        && ((e.Clear? && e.port == i && p.data[..p.length] != Dark()) || (e.Nothing? && DataLost(cfg, s, now)
          && p.length != 0)))
    || (e.Dmx? && Addressed(p, e.packet) && Reaches(s.ports, 0, e.packet, i)
      && Forgets(cfg, p, Received(s, now).syncMode, e.packet, now))
  }

  /** An event leaves the output of a port current exactly when it does not silence the port. */
  lemma CurrentStep(cfg: Config, s: State, now: dword, e: Event, i: nat)
    requires s.Valid() && Legal(s, e) && i < |s.ports| && s.ports[i].Current()
    ensures i < |Step(cfg, s, now, e).ports| && Step(cfg, s, now, e).ports[i].Valid()
    ensures Step(cfg, s, now, e).ports[i].Current() <==> !Silenced(cfg, s, now, e, i)
  {
    hide DmxFrom, Arrived, Forgets, Reaches, ChecksTimeouts;
    StepValid(cfg, s, now, e);
    if e.Dmx? {
      var t := Received(s, now);
      DmxPort(cfg, t, 0, e.packet, now, i);
      ArrivedCurrent(cfg, s.ports[i], ChecksTimeouts(cfg, t, 0, e.packet, now, i), t.syncMode, e.packet, now);
    }
  }

  // ---- runs ----

  datatype Timed = Timed(now: dword, event: Event)

  function Init(n: nat): State
  {
    var none := Source(Dark(), 0, 0);
    var port := Port(false, ArtNet, 0, Htp, Dark(), 0, none, none, false, false, false, []);
    State(seq(n, i => port), false, false, 0, 0)
  }

  ghost predicate LegalRun(s: State, run: seq<Timed>)
  {
    s.Valid() && forall k :: 0 <= k < |run| ==> Legal(s, run[k].event)
  }

  ghost function After(cfg: Config, s: State, run: seq<Timed>): State
    requires LegalRun(s, run)
    decreases |run|
  {
    if run == [] then s
    else
      StepValid(cfg, s, run[0].now, run[0].event);
      After(cfg, Step(cfg, s, run[0].now, run[0].event), run[1..])
  }

  /** No event of the run silences port i. */
  ghost predicate NeverSilenced(cfg: Config, s: State, run: seq<Timed>, i: nat)
    requires LegalRun(s, run) && i < |s.ports|
    decreases |run|
  {
    run == [] ||
    (StepValid(cfg, s, run[0].now, run[0].event);
     && !Silenced(cfg, s, run[0].now, run[0].event, i)
     && NeverSilenced(cfg, Step(cfg, s, run[0].now, run[0].event), run[1..], i))
  }

  /** In every run the two sources of a port are apart; the output stays current if the port is never silenced. */
  lemma {:induction false} PortInvariants(cfg: Config, s: State, run: seq<Timed>, i: nat)
    requires LegalRun(s, run) && i < |s.ports| && s.ports[i].Apart()
    ensures var t := After(cfg, s, run);
            && |t.ports| == |s.ports| && t.Valid() && t.ports[i].Apart()
            && (s.ports[i].Current() && NeverSilenced(cfg, s, run, i) ==> t.ports[i].Current())
    decreases |run|
  {
    hide Step, Silenced;
    if run != [] {
      StepValid(cfg, s, run[0].now, run[0].event);
      ApartStep(cfg, s, run[0].now, run[0].event, i);
      if s.ports[i].Current() {
        CurrentStep(cfg, s, run[0].now, run[0].event, i);
      }
      PortInvariants(cfg, Step(cfg, s, run[0].now, run[0].event), run[1..], i);
    }
  }

  predicate ToSacn(e: Event) { e.SelectProtocol? && e.protocol == Sacn }

  lemma ArrivedProtocol(cfg: Config, port: Port, checked: bool, sync: bool, packet: Packet, now: dword)
    requires port.Valid()
    ensures Arrived(cfg, port, checked, sync, packet, now).protocol == port.protocol
  {
    hide FrameOf, Heard, Changed, RoleOf, Packet.Length;
  }

  lemma ProtocolStep(cfg: Config, s: State, now: dword, e: Event, i: nat)
    requires s.Valid() && Legal(s, e) && i < |s.ports| && s.ports[i].protocol == ArtNet && !ToSacn(e)
    ensures i < |Step(cfg, s, now, e).ports| && Step(cfg, s, now, e).ports[i].protocol == ArtNet
  {
    hide DmxFrom, Arrived, ChecksTimeouts;
    if e.Dmx? {
      var t := Received(s, now);
      DmxPort(cfg, t, 0, e.packet, now, i);
      ArrivedProtocol(cfg, s.ports[i], ChecksTimeouts(cfg, t, 0, e.packet, now, i), t.syncMode, e.packet, now);
    }
  }

  /** With direct update off, a port that is never switched to sACN is never silenced. */
  lemma {:induction false} ArtNetNeverSilenced(cfg: Config, s: State, run: seq<Timed>, i: nat)
    requires !cfg.directUpdate && LegalRun(s, run) && i < |s.ports| && s.ports[i].protocol == ArtNet
    requires forall k :: 0 <= k < |run| ==> !ToSacn(run[k].event)
    ensures NeverSilenced(cfg, s, run, i)
    decreases |run|
  {
    hide Step;
    if run != [] {
      StepValid(cfg, s, run[0].now, run[0].event);
      ProtocolStep(cfg, s, run[0].now, run[0].event, i);
      ArtNetNeverSilenced(cfg, Step(cfg, s, run[0].now, run[0].event), run[1..], i);
    }
  }

  /**
    Every run of a node with direct update off that never selects sACN: whatever packets, ArtSyncs, clear
    commands, timeouts and network losses come, each running port without pending data shows its frame.
   */
  lemma NoFrameLost(cfg: Config, n: nat, run: seq<Timed>, i: nat)
    requires n >= MAX_PORTS && i < n && !cfg.directUpdate && LegalRun(Init(n), run)
    requires forall k :: 0 <= k < |run| ==> !ToSacn(run[k].event)
    ensures var t := After(cfg, Init(n), run); |t.ports| == n && t.ports[i].Valid() && t.ports[i].Current()
  {
    hide Step;
    ArtNetNeverSilenced(cfg, Init(n), run, i);
    PortInvariants(cfg, Init(n), run, i);
  }

  /** In every run no port ever finds its sender in both sources, and its two sources differ. */
  lemma SourcesApart(cfg: Config, n: nat, run: seq<Timed>, i: nat, from: dword)
    requires n >= MAX_PORTS && i < n && LegalRun(Init(n), run)
    ensures var t := After(cfg, Init(n), run);
            && |t.ports| == n && t.ports[i].Apart()
            && RoleOf(t.ports[i].a.ip, t.ports[i].b.ip, from) != Both
  {
    hide Step;
    PortInvariants(cfg, Init(n), run, i);
  }

  /**
    Without the condition a frame is lost. Any running port that shows a lit frame, switched to sACN, cleared
    there and switched back, is an Art-Net port, running, with nothing pending, that still shows the old frame.
   */
  lemma SwitchLosesFrame(cfg: Config, s: State, i: nat, now: dword)
    requires s.Valid() && i < MAX_PORTS && cfg.version > 3
    requires s.ports[i].running && !s.ports[i].pending && s.ports[i].Current()
    requires s.ports[i].data[..s.ports[i].length] != Dark()
    ensures var run := [Timed(now, SelectProtocol(i, Sacn)), Timed(now, Clear(i)),
            Timed(now, SelectProtocol(i, ArtNet))];
            && LegalRun(s, run)
            && var t := After(cfg, s, run);
               && |t.ports| == |s.ports| && t.Valid() && t.ports[i].protocol == ArtNet
               && t.ports[i].running && !t.ports[i].pending && !t.ports[i].Current()
  {
    var e0, e1, e2 := Timed(now, SelectProtocol(i, Sacn)), Timed(now, Clear(i)), Timed(now, SelectProtocol(i, ArtNet));
    var s1 := Step(cfg, s, now, e0.event);
    var s2 := Step(cfg, s1, now, e1.event);
    var s3 := Step(cfg, s2, now, e2.event);
    assert [e0, e1, e2][1..] == [e1, e2] && [e1, e2][1..] == [e2] && [e2][1..] == [];
    assert After(cfg, s, [e0, e1, e2]) == After(cfg, s1, [e1, e2]) == After(cfg, s2, [e2]) == After(cfg, s3, []);
  }

  /** The same with a network loss instead of the clear command: the frame is empty, and the old one is shown. */
  lemma LossLosesFrame(cfg: Config, s: State, i: nat, now: dword, later: dword)
    requires s.Valid() && i < |s.ports| && cfg.version > 3 && cfg.lossTimeout != 0
    requires Sub32(later, now) >= cfg.lossTimeout
    requires s.ports[i].running && !s.ports[i].pending && s.ports[i].Current() && s.ports[i].length != 0
    ensures var run := [Timed(now, SelectProtocol(i, Sacn)), Timed(later, Nothing),
            Timed(later, SelectProtocol(i, ArtNet))];
            && LegalRun(s, run)
            && var t := After(cfg, s, run);
               && |t.ports| == |s.ports| && t.Valid() && t.ports[i].protocol == ArtNet
               && t.ports[i].running && !t.ports[i].pending && !t.ports[i].Current()
  {
    hide Sub32;
    var e0, e1, e2 := Timed(now, SelectProtocol(i, Sacn)), Timed(later, Nothing),
      Timed(later, SelectProtocol(i, ArtNet));
    var s1 := Step(cfg, s, now, e0.event);
    var s2 := Step(cfg, s1, later, e1.event);
    var s3 := Step(cfg, s2, later, e2.event);
    assert s2.ports[i] == LostPort(s1.ports[i]);
    assert [e0, e1, e2][1..] == [e1, e2] && [e1, e2][1..] == [e2] && [e2][1..] == [];
    assert After(cfg, s, [e0, e1, e2]) == After(cfg, s1, [e1, e2]) == After(cfg, s2, [e2]) == After(cfg, s3, []);
  }

  /** A packet from the only source of a port that changes its frame, and the same packet again. */
  lemma StoredAgain(port: Port, packet: Packet, now: dword, role: Role)
    requires role.First? || role.OnlyA?
    ensures var q := Stored(port, role, packet, now);
            && q.data == Overlay(packet.payload, packet.Length(), port.data) && q.length == packet.Length()
            && q.pending == port.pending && q.running == port.running && q.sent == port.sent
            && q.b == port.b && (q.a.ip == packet.from || q.a.ip == port.a.ip)
  {
    hide Overlay, Packet.Length;
  }

  /** The first of two equal packets in synchronous mode makes the frame wait for an ArtSync. */
  lemma MadePending(cfg: Config, port: Port, checked: bool, packet: Packet, now: dword)
    requires port.Valid() && port.a.ip == packet.from != 0 && port.b.ip == 0 && port.running && !port.pending
    requires port.Current()
    requires Changed(port, Stored(port, OnlyA, packet, now))
    ensures var q := Arrived(cfg, port, checked, true, packet, now);
            && q.Valid() && q.running && q.pending && q.sent != q.data[..q.length] && q.Current()
            && q.data == Overlay(packet.payload, packet.Length(), port.data) && q.length == packet.Length()
            && q.b.ip == 0 && (q.a.ip == packet.from || q.a.ip == 0)
            && q.enabled == port.enabled && q.protocol == port.protocol && q.address == port.address
  {
    hide Overlay, Packet.Length, Stored, TimedOut;
    var p := if checked then TimedOut(port, now) else port;
    TimedOutRest(port, now);
    StoredAgain(p, packet, now, OnlyA);
    StoredAgain(port, packet, now, OnlyA);
    StoredRest(p, packet, now, OnlyA);
  }

  lemma TimedOutRest(port: Port, now: dword)
    ensures var p := TimedOut(port, now);
            && p == port.(a := p.a, b := p.b, merging := p.merging)
            && (p.a.ip == port.a.ip || p.a.ip == 0) && (p.b.ip == port.b.ip || p.b.ip == 0)
  {
  }

  lemma StoredRest(port: Port, packet: Packet, now: dword, role: Role)
    ensures var q := Stored(port, role, packet, now);
            q.enabled == port.enabled && q.protocol == port.protocol && q.address == port.address
  {
    hide FrameOf, Heard, Packet.Length;
  }

  /** The second one takes the mark back. */
  lemma RepeatForgets(cfg: Config, port: Port, packet: Packet, now: dword, data: Frame)
    requires cfg.directUpdate && port.Valid() && port.running && port.pending && port.sent != port.data[..port.length]
    requires port.data == Overlay(packet.payload, packet.Length(), data) && port.length == packet.Length()
    requires port.b.ip == 0 && (port.a.ip == packet.from || port.a.ip == 0)
    ensures Forgets(cfg, port, true, packet, now)
  {
    hide Stored, Packet.Length;
    var role := RoleOf(port.a.ip, port.b.ip, packet.from);
    StoredAgain(port, packet, now, role);
    var n := packet.Length();
    assert Overlay(packet.payload, n, port.data)[..n] == packet.payload[..n] == port.data[..n];
  }

  /**
    With direct update on, two equal packets in synchronous mode lose a frame: a running port that shows another
    one, and that no earlier port keeps the packets from, is then not waiting for an ArtSync and still shows it.
   */
  lemma RepeatLosesFrame(cfg: Config, s: State, i: nat, packet: Packet, now: dword)
    requires cfg.directUpdate && s.Valid() && i < |s.ports| && s.syncMode && Sub32(now, s.syncMillis) < SYNC_TIMEOUT
    requires Addressed(s.ports[i], packet) && forall j :: 0 <= j < i ==> !Addressed(s.ports[j], packet)
    requires var port := s.ports[i];
             && port.a.ip == packet.from != 0 && port.b.ip == 0 && port.running && !port.pending && port.Current()
             && Changed(port, Stored(port, OnlyA, packet, now))
    ensures var run := [Timed(now, Dmx(packet)), Timed(now, Dmx(packet))];
            && LegalRun(s, run)
            && var t := After(cfg, s, run);
               && |t.ports| == |s.ports| && t.ports[i].Valid()
               && t.ports[i].running && !t.ports[i].pending && !t.ports[i].Current()
  {
    hide DmxFrom, Arrived, Stored, Changed, Overlay, Packet.Length, ChecksTimeouts, Forgets, Sub32;
    var e := Timed(now, Dmx(packet));
    assert [e, e][1..] == [e] && [e][1..] == [];
    var r := Received(s, now);
    var t := Step(cfg, s, now, e.event);
    StepValid(cfg, s, now, e.event);
    DmxPort(cfg, r, 0, packet, now, i);
    MadePending(cfg, s.ports[i], ChecksTimeouts(cfg, r, 0, packet, now, i), packet, now);
    forall j | 0 <= j < i
      ensures !Addressed(t.ports[j], packet)
    {
      DmxPort(cfg, r, 0, packet, now, j);
    }
    RepeatForgets(cfg, t.ports[i], packet, now, s.ports[i].data);
    CurrentStep(cfg, t, now, e.event, i);
    StepValid(cfg, t, now, e.event);
    assert After(cfg, s, [e, e]) == After(cfg, t, [e]) == After(cfg, Step(cfg, t, now, e.event), []);
  }

  /** What the runs are about exists: every port of every page can be made to run. */
  lemma EveryPortCanRun(cfg: Config, n: nat, i: nat)
    requires n >= MAX_PORTS && i < n
    ensures var run := [Timed(0, Assign(i, true, 0)), Timed(0, Dmx(Packet(0, 1, 0, 1, Dark())))];
            && LegalRun(Init(n), run)
            && var t := After(cfg, Init(n), run); |t.ports| == n && t.ports[i].Valid() && t.ports[i].running
  {
    hide DmxFrom, Arrived, ChecksTimeouts;
    var packet := Packet(0, 1, 0, 1, Dark());
    var e0, e1 := Timed(0, Assign(i, true, 0)), Timed(0, Dmx(packet));
    var s := Step(cfg, Init(n), 0, e0.event);
    StepValid(cfg, s, 0, e1.event);
    assert [e0, e1][1..] == [e1] && [e1][1..] == [];
    assert After(cfg, Init(n), [e0, e1]) == After(cfg, s, [e1]) == After(cfg, Step(cfg, s, 0, e1.event), []);
    DmxPort(cfg, Received(s, 0), 0, packet, 0, i);
    FirstPacketRuns(cfg, s.ports[i], ChecksTimeouts(cfg, Received(s, 0), 0, packet, 0, i), packet, 0);
  }

  lemma FirstPacketRuns(cfg: Config, port: Port, checked: bool, packet: Packet, now: dword)
    requires port.Valid() && port.length != packet.Length() && port.a.ip == 0 && port.b.ip == 0
    ensures Arrived(cfg, port, checked, false, packet, now).running
  {
    hide FrameOf, Packet.Length, WithSource;
  }

  const FIRST: Packet := Packet(0, 1, 0, 1, Dark())
  const LIT: Packet := Packet(0, 1, 0, 1, Dark()[0 := 255])

  /** A port that shows a dark channel, in synchronous mode. */
  lemma ShowsDark(cfg: Config, n: nat, i: nat) returns (s: State)
    requires n >= MAX_PORTS && i < n && cfg.directUpdate
    ensures var run := [Timed(0, Assign(i, true, 0)), Timed(0, Dmx(FIRST)), Timed(0, Sync(0))];
            LegalRun(Init(n), run) && After(cfg, Init(n), run) == s
    ensures s.Valid() && |s.ports| == n && s.syncMode && s.syncMillis == 0
    ensures forall j :: 0 <= j < n && j != i ==> !s.ports[j].enabled
    ensures var port := s.ports[i];
            && Addressed(port, LIT) && port.a.ip == 1 && port.b.ip == 0 && port.running && !port.pending
            && port.length == 1 && port.data[0] == 0 && port.Current()
  {
    hide DmxFrom, Arrived, ChecksTimeouts;
    var e0, e1, e2 := Timed(0, Assign(i, true, 0)), Timed(0, Dmx(FIRST)), Timed(0, Sync(0));
    var s1 := Step(cfg, Init(n), 0, e0.event);
    var s2 := Step(cfg, s1, 0, e1.event);
    StepValid(cfg, s1, 0, e1.event);
    s := Step(cfg, s2, 0, e2.event);
    assert [e0, e1, e2][1..] == [e1, e2] && [e1, e2][1..] == [e2] && [e2][1..] == [];
    assert After(cfg, Init(n), [e0, e1, e2]) == After(cfg, s1, [e1, e2]) == After(cfg, s2, [e2]) == After(cfg, s, []);
    forall j | 0 <= j < n
      ensures j != i ==> s2.ports[j] == s1.ports[j]
    {
      DmxPort(cfg, Received(s1, 0), 0, FIRST, 0, j);
    }
    DmxPort(cfg, Received(s1, 0), 0, FIRST, 0, i);
    FirstPacket(cfg, s1.ports[i], ChecksTimeouts(cfg, Received(s1, 0), 0, FIRST, 0, i));
  }

  lemma FirstPacket(cfg: Config, port: Port, checked: bool)
    requires port == Port(true, ArtNet, 0, Htp, Dark(), 0, Source(Dark(), 0, 0), Source(Dark(), 0, 0), false, false,
             false, [])
    ensures var q := Arrived(cfg, port, checked, false, FIRST, 0);
            && q.enabled && q.protocol == ArtNet && q.address == 0 && q.running && !q.pending
            && q.length == 1 && q.data[0] == 0 && q.a.ip == 1 && q.b.ip == 0
  {
  }

  /** So from the start: with direct update on, five events make any port show a frame that is not in force. */
  lemma RepeatLosesFrameFromStart(cfg: Config, n: nat, i: nat)
    requires n >= MAX_PORTS && i < n && cfg.directUpdate
    ensures var run := [Timed(0, Assign(i, true, 0)), Timed(0, Dmx(FIRST)), Timed(0, Sync(0)), Timed(0, Dmx(LIT)),
            Timed(0, Dmx(LIT))];
            && LegalRun(Init(n), run)
            && var t := After(cfg, Init(n), run);
               && |t.ports| == n && t.ports[i].Valid() && t.ports[i].running && !t.ports[i].pending
                 && !t.ports[i].Current()
  {
    hide Step, Init, Changed, Stored;
    var s := ShowsDark(cfg, n, i);
    var head := [Timed(0, Assign(i, true, 0)), Timed(0, Dmx(FIRST)), Timed(0, Sync(0))];
    var tail := [Timed(0, Dmx(LIT)), Timed(0, Dmx(LIT))];
    assert Changed(s.ports[i], Stored(s.ports[i], OnlyA, LIT, 0)) by { LitChanges(s.ports[i]); }
    RepeatLosesFrame(cfg, s, i, LIT, 0);
    AfterMore(cfg, Init(n), head, tail);
    assert head + tail == [Timed(0, Assign(i, true, 0)), Timed(0, Dmx(FIRST)), Timed(0, Sync(0)), Timed(0, Dmx(LIT)),
           Timed(0, Dmx(LIT))];
  }

  lemma LitChanges(port: Port)
    requires port.Valid() && port.length == 1 && port.data[0] == 0
    ensures Changed(port, Stored(port, OnlyA, LIT, 0))
  {
    hide Stored;
    StoredAgain(port, LIT, 0, OnlyA);
    var q := Stored(port, OnlyA, LIT, 0);
    assert port.data[..1][0] == 0 && q.data[..1][0] == 255;
  }

  /** A run goes on from where it has come to. */
  lemma {:induction false} AfterMore(cfg: Config, s: State, a: seq<Timed>, b: seq<Timed>)
    requires LegalRun(s, a) && LegalRun(After(cfg, s, a), b) && LegalRun(s, a + b)
    ensures After(cfg, s, a + b) == After(cfg, After(cfg, s, a), b)
    decreases |a|
  {
    hide Step;
    if a == [] {
      assert a + b == b;
    } else {
      StepValid(cfg, s, a[0].now, a[0].event);
      assert (a + b)[1..] == a[1..] + b;
      AfterMore(cfg, Step(cfg, s, a[0].now, a[0].event), a[1..], b);
    }
  }
}
