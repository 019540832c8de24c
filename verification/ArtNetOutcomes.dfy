/**
  What an event makes of an output port, said of the fields of the port, the bytes of the packet and the clock alone:
  which sender is taken, where its frame goes, what the output shows, and who is forgotten.
 */
module ArtNetOutcomes {
  import opened Bytes
  import opened ArtNetPorts

  /** Milliseconds from one reading of the 32-bit clock to a later one. */
  function Since(now: dword, before: dword): nat
  {
    if before <= now then now - before else now + 0x1_0000_0000 - before
  }

  /** A source heard within ten seconds keeps its address, a later one loses it, and then the port no longer merges. */
  lemma SilentSource(port: Port, now: dword)
    ensures var r := TimedOut(port, now);
            && r.a == (if Since(now, port.a.millis) > 10_000 then port.a.(ip := 0) else port.a)
            && r.b == (if Since(now, port.b.millis) > 10_000 then port.b.(ip := 0) else port.b)
            && (r.merging <==>
                  port.merging && Since(now, port.a.millis) <= 10_000 && Since(now, port.b.millis) <= 10_000)
            && r == port.(a := r.a, b := r.b, merging := r.merging)
  {
    hide Sub32;
  }

  /** A sender is turned away exactly if both places are taken, and it has none of them or both. */
  lemma TurnedAway(a: dword, b: dword, from: dword)
    ensures RoleOf(a, b, from).Accepted() <==> a == 0 || b == 0 || (from == a) != (from == b)
  {
  }

  /** It takes the first place if that is free or its own, and it does not have the second; it merges with the other
      place exactly if that is taken. */
  lemma PlaceTaken(a: dword, b: dword, from: dword)
    requires RoleOf(a, b, from).Accepted()
    ensures var role := RoleOf(a, b, from);
            && (role.IsA() <==> (a == 0 || a == from) && (b == 0 || b != from))
            && (role.Merges() <==> if role.IsA() then b != 0 else a != 0)
            && (role.First? || role.NewA? || role.NewB? <==> if role.IsA() then a == 0 else b == 0)
  {
  }

  /** The length of a packet has its high byte first; longer packets count as 512 channels. */
  lemma PacketLength(packet: Packet)
    ensures var n := 0x100 * packet.lengthHi as int + packet.lengthLo as int;
            packet.Length() == if n <= 512 then n else 512
  {
  }

  /** The places of a port in the order of a sender: its own, and the other. */
  function Mine(port: Port, first: bool): Source { if first then port.a else port.b }

  function Other(port: Port, first: bool): Source { if first then port.b else port.a }

  /** The sender has the first place: it is free or its own, and the second one is not its own. */
  predicate First(port: Port, from: dword)
  {
    (port.a.ip == 0 || port.a.ip == from) && (port.b.ip == 0 || port.b.ip != from)
  }

  /** A packet that is taken is kept at the place of its sender, with the time; the other place stays. */
  lemma StoredPlaces(port: Port, role: Role, packet: Packet, now: dword)
    ensures var n := packet.Length();
            var r := Stored(port, role, packet, now);
            var mine, was := Mine(r, role.IsA()), Mine(port, role.IsA());
            && mine.data[..n] == packet.payload[..n] && mine.data[n..] == was.data[n..] && mine.millis == now
            && mine.ip == (if role.First? || role.NewA? || role.NewB? then packet.from else was.ip)
            && Other(r, role.IsA()) == Other(port, role.IsA())
  {
    hide Packet.Length, FrameOf;
  }

  /** Its channels are in force, or the higher one of both places; channels behind its length stay. */
  lemma StoredChannels(port: Port, role: Role, packet: Packet, now: dword)
    ensures var n := packet.Length();
            var r := Stored(port, role, packet, now);
            && r.length == n && r.data[n..] == port.data[n..]
            && (forall k :: 0 <= k < n ==>
                  if role.Merges() && port.mode == Htp
                  then r.data[k] == (if r.a.data[k] >= r.b.data[k] then r.a.data[k] else r.b.data[k])
                  else r.data[k] == packet.payload[k])
            && (r.merging <==> port.merging || role.Merges())
            && r == port.(a := r.a, b := r.b, length := r.length, data := r.data, merging := r.merging)
  {
    hide Packet.Length, Role.Merges, Role.IsA;
    StoredFrame(port, role, packet, now);
    var n, r := packet.Length(), Stored(port, role, packet, now);
    if !(role.Merges() && port.mode == Htp) {
      assert forall k :: 0 <= k < n ==> r.data[k] == r.data[..n][k] == packet.payload[..n][k];
    }
  }

  /** The frame of a packet is kept at a place, with the time; channels behind its length stay. */
  ghost predicate KeptAt(mine: Source, was: Source, packet: Packet, now: dword)
  {
    var n := packet.Length();
    mine.millis == now && mine.data[..n] == packet.payload[..n] && mine.data[n..] == was.data[n..]
  }

  /** The sender is taken: a place is free, or exactly one is its own. */
  predicate Taken(port: Port, from: dword)
  {
    port.a.ip == 0 || port.b.ip == 0 || (from == port.a.ip) != (from == port.b.ip)
  }

  /** The frame is the packet, or with another sender under HTP the higher of both places channel by channel. */
  ghost predicate InForce(r: Port, was: Port, merges: bool, packet: Packet)
  {
    var n := packet.Length();
    && r.length == n && r.data[n..] == was.data[n..]
    && forall k :: 0 <= k < n ==>
         if merges && was.mode == Htp
         then r.data[k] == (if r.a.data[k] >= r.b.data[k] then r.a.data[k] else r.b.data[k])
         else r.data[k] == packet.payload[k]
  }

  /** A port that takes a packet, its places having been checked for silence or not. */
  lemma TakenPort(port: Port, p: Port, packet: Packet, now: dword)
    requires port.Valid() && p.Valid() && Taken(port, packet.from)
    requires p.mode == port.mode
    ensures var role := RoleOf(port.a.ip, port.b.ip, packet.from);
            var q := Stored(p, role, packet, now);
            var first := First(port, packet.from);
            && role.Accepted() && q.Valid()
            && KeptAt(Mine(q, first), Mine(p, first), packet, now) && Other(q, first) == Other(p, first)
            && Mine(q, first).ip == (if Mine(port, first).ip == 0 then packet.from else Mine(p, first).ip)
            && InForce(q, p, Other(port, first).ip != 0, packet)
            && (q.merging <==> p.merging || Other(port, first).ip != 0)
            && (Changed(p, q) <==> p.length != q.length || p.data != q.data)
            && q == p.(a := q.a, b := q.b, length := q.length, data := q.data, merging := q.merging)
  {
    hide RoleOf, Stored, Changed, Packet.Length, Role.Merges, Role.IsA, Role.Accepted;
    var role := RoleOf(port.a.ip, port.b.ip, packet.from);
    TurnedAway(port.a.ip, port.b.ip, packet.from);
    PlaceTaken(port.a.ip, port.b.ip, packet.from);
    StoredPlaces(p, role, packet, now);
    StoredChannels(p, role, packet, now);
    SameFrames(p, Stored(p, role, packet, now), packet.Length());
  }

  /** Showing a frame or letting it wait has no part in the sources. */
  lemma ShownSources(cfg: Config, port: Port, p: Port, checked: bool, sync: bool, packet: Packet, now: dword)
    requires port.Valid() && p == if checked then TimedOut(port, now) else port
    ensures var role := RoleOf(port.a.ip, port.b.ip, packet.from);
            var q := if role.Accepted() then Stored(p, role, packet, now) else p;
            var r := Arrived(cfg, port, checked, sync, packet, now);
            r.a == q.a && r.b == q.b && r.merging == q.merging
  {
    hide TimedOut, RoleOf, Stored, Changed, Role.Accepted;
  }

  /** What an address is after a check for silence. */
  function Forgotten(x: Source, checked: bool, now: dword): Source
  {
    if checked && Since(now, x.millis) > 10_000 then x.(ip := 0) else x
  }

  /**
    Who is remembered after a packet. A sender that is taken keeps its place with its frame, except that one which was
    silent for too long is taken but not remembered; the other place is forgotten if it was silent.
   */
  lemma PacketSources(cfg: Config, port: Port, checked: bool, sync: bool, packet: Packet, now: dword)
    requires port.Valid()
    ensures var r := Arrived(cfg, port, checked, sync, packet, now);
            var first := First(port, packet.from);
            var mine, other := Mine(port, first), Other(port, first);
            && Other(r, first) == Forgotten(other, checked, now)
            && (Taken(port, packet.from) ==>
                  && KeptAt(Mine(r, first), mine, packet, now)
                  && Mine(r, first).ip == (if mine.ip == 0 then packet.from else Forgotten(mine, checked, now).ip))
            && (!Taken(port, packet.from) ==> Mine(r, first) == Forgotten(mine, checked, now))
  {
    hide Arrived, TimedOut, RoleOf, Stored, Changed, Role.Accepted, Since, KeptAt, InForce;
    var p := if checked then TimedOut(port, now) else port;
    ShownSources(cfg, port, p, checked, sync, packet, now);
    SilentSource(port, now);
    TurnedAway(port.a.ip, port.b.ip, packet.from);
    if Taken(port, packet.from) {
      TakenPort(port, p, packet, now);
      KeptSame(Mine(p, First(port, packet.from)), Mine(port, First(port, packet.from)), packet, now);
    }
  }

  lemma KeptSame(was: Source, before: Source, packet: Packet, now: dword)
    requires was.data == before.data
    ensures forall mine :: KeptAt(mine, was, packet, now) ==> KeptAt(mine, before, packet, now)
  {
    hide Packet.Length;
  }

  /** A port merges if the other place was taken, or if it merged before and nobody was silent. */
  lemma PacketMerges(cfg: Config, port: Port, checked: bool, sync: bool, packet: Packet, now: dword)
    requires port.Valid()
    ensures Arrived(cfg, port, checked, sync, packet, now).merging <==>
              || (Taken(port, packet.from) && Other(port, First(port, packet.from)).ip != 0)
              || (port.merging
                  && !(checked && (Since(now, port.a.millis) > 10_000 || Since(now, port.b.millis) > 10_000)))
  {
    hide Arrived, TimedOut, RoleOf, Stored, Changed, Role.Accepted, Since, KeptAt, InForce, Packet.Length;
    var p := if checked then TimedOut(port, now) else port;
    ShownSources(cfg, port, p, checked, sync, packet, now);
    SilentSource(port, now);
    TurnedAway(port.a.ip, port.b.ip, packet.from);
    if Taken(port, packet.from) { TakenPort(port, p, packet, now); }
  }

  lemma ShownFrame(cfg: Config, port: Port, p: Port, checked: bool, sync: bool, packet: Packet, now: dword)
    requires port.Valid() && p == (if checked then TimedOut(port, now) else port) && p.Valid()
    ensures var role := RoleOf(port.a.ip, port.b.ip, packet.from);
            var q := Stored(p, role, packet, now);
            var r := Arrived(cfg, port, checked, sync, packet, now);
            var shown := Changed(p, q) || cfg.directUpdate;
            && (!role.Accepted() ==> r == p)
            && (role.Accepted() ==>
                  && r == q.(pending := r.pending, running := r.running, sent := r.sent) && q.Valid()
                  && r.running == (q.running || (shown && !sync))
                  && r.sent == (if shown && !sync then q.data[..q.length] else q.sent)
                  && r.pending == if shown && sync then Changed(p, q) else q.pending)
  {
    hide TimedOut, RoleOf, Stored, Changed, Role.Accepted;
  }

  /** The frame after a packet, and whether the output shows it, waits for an ArtSync or goes on as it was. */
  lemma PacketOutput(cfg: Config, port: Port, checked: bool, sync: bool, packet: Packet, now: dword)
    requires port.Valid()
    ensures var r := Arrived(cfg, port, checked, sync, packet, now);
            var changed := port.length != r.length || port.data != r.data;
            var taken := Taken(port, packet.from);
            && (taken ==> InForce(r, port, Other(port, First(port, packet.from)).ip != 0, packet))
            && (!taken ==> !changed)
            && (taken && !sync && (changed || cfg.directUpdate) ==> r.running && r.sent == r.data[..r.length])
            && (!(taken && !sync && (changed || cfg.directUpdate)) ==>
                  r.running == port.running && r.sent == port.sent)
            && r.pending == (if taken && sync && (changed || cfg.directUpdate) then changed else port.pending)
            && r == port.(a := r.a, b := r.b, merging := r.merging, length := r.length, data := r.data,
                 pending := r.pending, running := r.running, sent := r.sent)
  {
    hide Arrived, TimedOut, RoleOf, Stored, Changed, Role.Accepted, Since, KeptAt, InForce, Packet.Length;
    var p := if checked then TimedOut(port, now) else port;
    SilentSource(port, now);
    ShownFrame(cfg, port, p, checked, sync, packet, now);
    TurnedAway(port.a.ip, port.b.ip, packet.from);
    if Taken(port, packet.from) {
      TakenPort(port, p, packet, now);
      SameInForce(Stored(p, RoleOf(port.a.ip, port.b.ip, packet.from), packet, now), p,
        Arrived(cfg, port, checked, sync, packet, now), port, Other(port, First(port, packet.from)).ip != 0, packet);
    }
  }

  lemma SameInForce(q: Port, p: Port, r: Port, port: Port, merges: bool, packet: Packet)
    requires InForce(q, p, merges, packet) && p.mode == port.mode && p.data == port.data
    requires r.length == q.length && r.data == q.data && r.a == q.a && r.b == q.b
    ensures InForce(r, port, merges, packet)
  {
    hide Packet.Length;
  }

  lemma SameFrames(p: Port, q: Port, n: nat)
    requires n <= DMX_LENGTH && q.length == n && q.data[n..] == p.data[n..]
    ensures Changed(p, q) <==> p.length != n || p.data != q.data
  {
    assert p.data == p.data[..n] + p.data[n..] && q.data == q.data[..n] + q.data[n..];
  }

  /** A packet is for an enabled port of its address that sACN does not have. */
  predicate For(port: Port, packet: Packet)
  {
    port.enabled && port.protocol == ArtNet && port.address == packet.address
  }

  /** A packet comes to every port it is for, up to the first that turns its sender away, and leaves all others as they
      are. */
  lemma PacketReaches(cfg: Config, s: State, now: dword, packet: Packet, i: nat)
    requires s.Valid() && i < |s.ports|
    ensures var t := Step(cfg, s, now, Dmx(packet));
            var sync := s.syncMode && Since(now, s.syncMillis) < 4_000;
            && |t.ports| == |s.ports| && t.syncMode == sync && t.packetMillis == now
            && if For(s.ports[i], packet)
                  && forall j :: 0 <= j < i && For(s.ports[j], packet) ==> Taken(s.ports[j], packet.from)
               then t.ports[i] == Arrived(cfg, s.ports[i], ChecksTimeouts(cfg, s, 0, packet, now, i), sync, packet, now)
               else t.ports[i] == s.ports[i]
  {
    hide Arrived, DmxFrom, ChecksTimeouts, RoleOf, Role.Accepted, Since, Taken;
    SyncModeEnds(s, now);
    var r := Received(s, now);
    DmxPort(cfg, r, 0, packet, now, i);
    DmxClock(cfg, r, 0, packet, now);
    SameChecks(cfg, s, r, packet, now, i);
    forall j | 0 <= j < |s.ports|
      ensures RoleOf(s.ports[j].a.ip, s.ports[j].b.ip, packet.from).Accepted() <==> Taken(s.ports[j], packet.from)
    {
      TakenRole(s.ports[j], packet.from);
    }
  }

  lemma TakenRole(port: Port, from: dword)
    ensures RoleOf(port.a.ip, port.b.ip, from).Accepted() <==> Taken(port, from)
  {
    TurnedAway(port.a.ip, port.b.ip, from);
  }

  lemma SameChecks(cfg: Config, s: State, r: State, packet: Packet, now: dword, p: nat)
    requires r.ports == s.ports && r.mergeMode == s.mergeMode && p <= |s.ports|
    ensures ChecksTimeouts(cfg, r, 0, packet, now, p) <==> ChecksTimeouts(cfg, s, 0, packet, now, p)
  {
  }

  lemma {:induction false} DmxClock(cfg: Config, s: State, i: nat, packet: Packet, now: dword)
    requires s.Valid() && i <= |s.ports|
    ensures DmxFrom(cfg, s, i, packet, now).packetMillis == s.packetMillis
    decreases |s.ports| - i
  {
    hide RoleOf, TimedOut, Stored, Delivered;
    if i < |s.ports| {
      OnePort(cfg, s, i, packet, now);
      if !Addressed(s.ports[i], packet) {
        DmxClock(cfg, s, i + 1, packet, now);
      } else if RoleOf(s.ports[i].a.ip, s.ports[i].b.ip, packet.from).Accepted() {
        DmxClock(cfg, ArtNetPorts.Taken(cfg, s, i, packet, now), i + 1, packet, now);
      }
    }
  }

  /** After an ArtSync no Art-Net port waits any more, and each that did shows its frame; frames stay as they are. */
  lemma SyncShowsPending(cfg: Config, s: State, now: dword, millis: dword, i: nat)
    requires s.Valid() && i < |s.ports|
    ensures var t := Step(cfg, s, now, Sync(millis));
            var p := s.ports[i];
            && |t.ports| == |s.ports| && t.syncMode && t.syncMillis == millis && t.packetMillis == now
            && (p.protocol == ArtNet ==> !t.ports[i].pending)
            && (if p.protocol == ArtNet && (p.pending || (p.enabled && cfg.directUpdate))
                then t.ports[i] == p.(sent := p.data[..p.length], running := true, pending := false)
                else t.ports[i] == p)
  {
  }

  /** With direct update off, a port that waits for an ArtSync goes on waiting, whatever packet comes. */
  lemma PendingStays(cfg: Config, s: State, now: dword, packet: Packet, i: nat)
    requires s.Valid() && i < |s.ports| && s.ports[i].pending && s.ports[i].protocol == ArtNet && !cfg.directUpdate
    ensures var t := Step(cfg, s, now, Dmx(packet));
            |t.ports| == |s.ports| && t.Valid() && t.ports[i].pending && t.ports[i].protocol == ArtNet
  {
    hide Arrived, DmxFrom, ChecksTimeouts, Reaches, Sub32;
    var r := Received(s, now);
    StepValid(cfg, s, now, Dmx(packet));
    DmxPort(cfg, r, 0, packet, now, i);
    PacketOutput(cfg, s.ports[i], ChecksTimeouts(cfg, r, 0, packet, now, i), r.syncMode, packet, now);
  }

  lemma {:induction false} PendingRun(cfg: Config, s: State, run: seq<Timed>, i: nat)
    requires LegalRun(s, run) && forall k :: 0 <= k < |run| ==> run[k].event.Dmx?
    requires i < |s.ports| && s.ports[i].pending && s.ports[i].protocol == ArtNet && !cfg.directUpdate
    ensures var t := After(cfg, s, run);
            t.Valid() && |t.ports| == |s.ports| && t.ports[i].pending && t.ports[i].protocol == ArtNet
    decreases |run|
  {
    hide Step;
    if run != [] {
      PendingStays(cfg, s, run[0].now, run[0].event.packet, i);
      PendingRun(cfg, Step(cfg, s, run[0].now, run[0].event), run[1..], i);
    }
  }

  /** So whatever packets come, the next ArtSync shows the frame that is in force by then. */
  lemma WaitingFrameShown(cfg: Config, s: State, run: seq<Timed>, i: nat, now: dword, millis: dword)
    requires LegalRun(s, run) && forall k :: 0 <= k < |run| ==> run[k].event.Dmx?
    requires i < |s.ports| && s.ports[i].pending && s.ports[i].protocol == ArtNet && !cfg.directUpdate
    ensures var t := After(cfg, s, run);
            && t.Valid() && |t.ports| == |s.ports|
            && var u := Step(cfg, t, now, Sync(millis));
               && |u.ports| == |s.ports| && u.ports[i].running && !u.ports[i].pending
               && u.ports[i].data == t.ports[i].data && u.ports[i].length == t.ports[i].length <= DMX_LENGTH
               && u.ports[i].sent == t.ports[i].data[..t.ports[i].length]
  {
    hide Step;
    PendingRun(cfg, s, run, i);
    SyncShowsPending(cfg, After(cfg, s, run), now, millis, i);
  }

  /** A clear command makes the 512 channels of its port dark and, unless sACN has the port, shows that. */
  lemma ClearShowsDark(cfg: Config, s: State, now: dword, i: nat)
    requires s.Valid() && i < 4
    ensures var t, p := Step(cfg, s, now, Clear(i)), s.ports[i];
            && |t.ports| == |s.ports| && t.ports[i].length == 512
            && (forall k :: 0 <= k < 512 ==> t.ports[i].data[k] == 0)
            && (if p.protocol == ArtNet then t.ports[i].sent == t.ports[i].data && t.ports[i].running
                else t.ports[i].sent == p.sent && t.ports[i].running == p.running)
            && t.ports[i].pending == p.pending && t.ports[i].a == p.a && t.ports[i].b == p.b
            && forall j :: 0 <= j < |s.ports| && j != i ==> t.ports[j] == s.ports[j]
  {
  }

  /**
    Silence of the network: once the configured time has passed since the last packet, every Art-Net output stops, and
    all lengths and senders are forgotten; before that nothing happens.
   */
  lemma LossStops(cfg: Config, s: State, now: dword, i: nat)
    requires s.Valid() && i < |s.ports|
    ensures var t, p := Step(cfg, s, now, Nothing), s.ports[i];
            && |t.ports| == |s.ports|
            && if cfg.lossTimeout != 0 && Since(now, s.packetMillis) >= cfg.lossTimeout
               then
                 && !t.mergeMode && !t.syncMode && t.packetMillis == s.packetMillis
                 && t.ports[i].length == 0 && t.ports[i].a.ip == 0 && t.ports[i].b.ip == 0
                 && (t.ports[i].running <==> p.running && p.protocol == Sacn)
                 && t.ports[i].data == p.data && t.ports[i].sent == p.sent && t.ports[i].pending == p.pending
               else t == s
  {
  }

  /** The other commands: a protocol is selected from version 4 on, a merge mode always; merging is cancelled at every
      port; an address is assigned to one port. No frame and no output changes. */
  lemma CommandsSet(cfg: Config, s: State, now: dword, e: Event, i: nat)
    requires s.Valid() && Legal(s, e) && i < |s.ports|
    requires e.SelectProtocol? || e.SelectMerge? || e.CancelMerge? || e.Assign? || e.Other?
    ensures var t, p := Step(cfg, s, now, e), s.ports[i];
            && |t.ports| == |s.ports|
            && t.ports[i] == p.(protocol := t.ports[i].protocol, mode := t.ports[i].mode,
                 merging := t.ports[i].merging, enabled := t.ports[i].enabled, address := t.ports[i].address)
            && t.ports[i].protocol ==
                 (if e.SelectProtocol? && e.port == i && cfg.version >= 4 then e.protocol else p.protocol)
            && t.ports[i].mode == (if e.SelectMerge? && e.port == i then e.mode else p.mode)
            && (t.ports[i].merging <==> p.merging && !e.CancelMerge?)
            && (t.mergeMode <==> s.mergeMode && !e.CancelMerge?)
            && t.ports[i].enabled == (if e.Assign? && e.port == i then e.enabled else p.enabled)
            && t.ports[i].address == (if e.Assign? && e.port == i then e.address else p.address)
  {
  }

  /** A check for silence ends merge mode exactly if no port of the node merges any more. */
  lemma MergeModeEnds(s: State, i: nat, now: dword)
    requires i < |s.ports|
    ensures var t := TimeoutsChecked(s, i, now);
            && |t.ports| == |s.ports| && t.ports[i] == TimedOut(s.ports[i], now)
            && (t.mergeMode <==> s.mergeMode && exists j :: 0 <= j < |t.ports| && t.ports[j].merging)
            && t == s.(ports := t.ports, mergeMode := t.mergeMode)
            && forall j :: 0 <= j < |s.ports| && j != i ==> t.ports[j] == s.ports[j]
  {
    hide TimedOut;
  }

  /** Synchronous mode ends with the first packet that comes four seconds or more after the last ArtSync. */
  lemma SyncModeEnds(s: State, now: dword)
    ensures Received(s, now) == s.(packetMillis := now, syncMode := s.syncMode && Since(now, s.syncMillis) < 4_000)
  {
  }
}
