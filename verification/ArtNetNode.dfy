/** The node that changes its output ports in place, packet by packet. */
module ArtNetNode {
  import opened Bytes
  import opened ArtNetPorts

  class Node {
    const cfg: Config
    const ports: array<Port>
    var mergeMode: bool
    var syncMode: bool
    var syncMillis: dword
    var packetMillis: dword

    ghost function St(): State
      reads this, ports
    {
      State(ports[..], mergeMode, syncMode, syncMillis, packetMillis)
    }

    ghost predicate Valid()
      reads this, ports
    {
      St().Valid()
    }

    constructor (cfg: Config, pages: nat)
      requires 1 <= pages <= 8
      ensures Valid() && fresh(ports) && this.cfg == cfg
      ensures St() == Init(MAX_PORTS * pages)
    {
      this.cfg := cfg;
      var port := Port(false, ArtNet, 0, Htp, Dark(), 0, Source(Dark(), 0, 0), Source(Dark(), 0, 0), false, false,
        false, []);
      ports := new Port[MAX_PORTS * pages](i => port);
      mergeMode, syncMode, syncMillis, packetMillis := false, false, 0, 0;
    }

    /** Stores the frame and tells whether it differs from the one in force. */
    method StoreFrame(p: nat, src: Frame, n: nat) returns (changed: bool)
      requires p < ports.Length && n <= DMX_LENGTH
      modifies ports
      ensures ports[..] == old(ports[..])[p := old(ports[p]).(length := n, data := Overlay(src, n, old(ports[p]).data))]
      ensures changed <==> Changed(old(ports[p]), ports[p])
    {
      hide Overlay;
      ghost var was := ports[p];
      OverlayFacts(src, n, was.data);
      if n != ports[p].length {
        ports[p] := ports[p].(length := n);
        for i := 0 to n
          invariant ports[..] == old(ports[..])[p := was.(length := n, data := Overlay(src, i, was.data))]
        {
          ports[p] := ports[p].(data := ports[p].data[i := src[i]]);
          OverlayNext(src, i, was.data);
        }
        return true;
      }
      changed := false;
      for i := 0 to n
        invariant ports[..] == old(ports[..])[p := was.(data := Overlay(src, i, was.data))]
        invariant changed <==> was.data[..i] != src[..i]
      {
        if ports[p].data[i] != src[i] {
          changed := true;
        }
        ports[p] := ports[p].(data := ports[p].data[i := src[i]]);
        OverlayNext(src, i, was.data);
        assert was.data[..i + 1] == was.data[..i] + [was.data[i]] && src[..i + 1] == src[..i] + [src[i]];
      }
    }

    /** Puts the merged frame in force and tells whether it differs from the one before. */
    method MergeFrame(p: nat, src: Frame, n: nat) returns (changed: bool)
      requires p < ports.Length && n <= DMX_LENGTH
      modifies ports, `mergeMode
      ensures mergeMode
      ensures var was := old(ports[p]);
              var frame := if was.mode == Htp then Highest(was.a.data, was.b.data, n, was.data)
                else Overlay(src, n, was.data);
              ports[..] == old(ports[..])[p := was.(length := n, data := frame, merging := true)]
      ensures changed <==> Changed(old(ports[p]), ports[p])
    {
      if !mergeMode {
        mergeMode := true;
      }
      ghost var was := ports[p];
      ports[p] := ports[p].(merging := true);
      if ports[p].mode == Ltp {
        changed := StoreFrame(p, src, n);
      } else {
        changed := MergeHighest(p, n);
      }
    }

    method MergeHighest(p: nat, n: nat) returns (changed: bool)
      requires p < ports.Length && n <= DMX_LENGTH
      modifies ports
      ensures var was := old(ports[p]);
              ports[..] == old(ports[..])[p := was.(length := n, data := Highest(was.a.data, was.b.data, n, was.data))]
      ensures changed <==> Changed(old(ports[p]), ports[p])
    {
      hide Highest;
      ghost var was := ports[p];
      HighestNone(was.a.data, was.b.data, was.data);
      if n != ports[p].length {
        ports[p] := ports[p].(length := n);
        for i := 0 to n
          invariant ports[..] == old(ports[..])[p := was.(length := n, data := Highest(was.a.data, was.b.data, i,
                    was.data))]
        {
          var data := Max(ports[p].a.data[i], ports[p].b.data[i]);
          ports[p] := ports[p].(data := ports[p].data[i := data]);
          HighestNext(was.a.data, was.b.data, i, was.data);
        }
        return true;
      }
      changed := false;
      for i := 0 to n
        invariant ports[..] == old(ports[..])[p := was.(data := Highest(was.a.data, was.b.data, i, was.data))]
        invariant changed <==> was.data[..i] != Highest(was.a.data, was.b.data, i, was.data)[..i]
      {
        var data := Max(ports[p].a.data[i], ports[p].b.data[i]);
        HighestNext(was.a.data, was.b.data, i, was.data);
        if data != ports[p].data[i] {
          ports[p] := ports[p].(data := ports[p].data[i := data]);
          changed := true;
        }
      }
    }

    method CheckMergeTimeouts(p: nat, now: dword)
      requires p < ports.Length
      modifies ports, `mergeMode
      ensures St() == TimeoutsChecked(old(St()), p, now)
    {
      var timeoutA := Sub32(now, ports[p].a.millis);
      if timeoutA > MERGE_TIMEOUT {
        ports[p] := ports[p].(a := ports[p].a.(ip := 0), merging := false);
      }
      var timeoutB := Sub32(now, ports[p].b.millis);
      if timeoutB > MERGE_TIMEOUT {
        ports[p] := ports[p].(b := ports[p].b.(ip := 0), merging := false);
      }
      assert ports[..] == old(ports[..])[p := TimedOut(old(ports[p]), now)];
      var isMerging := Merging();
      if !isMerging {
        mergeMode := false;
      }
    }

    method Merging() returns (r: bool)
      ensures r <==> AnyMerging(ports[..])
    {
      r := false;
      for i := 0 to ports.Length
        invariant r <==> AnyMerging(ports[..i])
      {
        r := r || ports[i].merging;
        assert ports[..i + 1] == ports[..i] + [ports[i]];
        AnyMergingNext(ports[..i], ports[i]);
      }
      assert ports[..ports.Length] == ports[..];
    }

    /** One addressed port: the sender's role is decided before timeouts are checked. */
    method TakePort(i: nat, packet: Packet, now: dword) returns (accepted: bool)
      requires Valid() && i < ports.Length
      modifies ports, `mergeMode
      ensures accepted <==> RoleOf(old(ports[i]).a.ip, old(ports[i]).b.ip, packet.from).Accepted()
      ensures St() == if accepted then Taken(cfg, old(St()), i, packet, now) else BeforeStore(cfg, old(St()), i, now)
    {
      hide Stored, Delivered, TimedOut, RoleOf, Changed, AnyMerging;
      var role := RoleOf(ports[i].a.ip, ports[i].b.ip, packet.from);
      if mergeMode && !cfg.disableMergeTimeout {
        CheckMergeTimeouts(i, now);
      }
      if !role.Accepted() {
        return false;
      }
      var changed := StorePacket(i, role, packet, now);
      Deliver(i, changed);
      return true;
    }

    /** Hands the frame to the light output, or leaves it for the next ArtSync. */
    method Deliver(i: nat, changed: bool)
      requires i < ports.Length && ports[i].Valid()
      modifies ports
      ensures ports[..] == old(ports[..])[i := Delivered(old(ports[i]), changed, cfg.directUpdate, syncMode)]
    {
      if changed || cfg.directUpdate {
        if !syncMode {
          ports[i] := ports[i].(sent := ports[i].data[..ports[i].length]);
          if !ports[i].running {
            ports[i] := ports[i].(running := true);
          }
        } else {
          ports[i] := ports[i].(pending := changed);
        }
      }
    }

    /** The source of the packet, with its frame and time. */
    method NoteSource(i: nat, role: Role, packet: Packet, now: dword)
      requires i < ports.Length && role.Accepted()
      modifies ports
      ensures ports[..] == old(ports[..])[i := WithSource(old(ports[i]), role, packet, now)]
    {
      hide Overlay, Packet.Length;
      if role.First? || role.NewA? {
        ports[i] := ports[i].(a := ports[i].a.(ip := packet.from));
      } else if role.NewB? {
        ports[i] := ports[i].(b := ports[i].b.(ip := packet.from));
      }
      if role.IsA() {
        ports[i] := ports[i].(a := ports[i].a.(millis := now, data := Overlay(packet.payload, packet.Length(),
          ports[i].a.data)));
      } else {
        ports[i] := ports[i].(b := ports[i].b.(millis := now, data := Overlay(packet.payload, packet.Length(),
          ports[i].b.data)));
      }
    }

    method StorePacket(i: nat, role: Role, packet: Packet, now: dword) returns (changed: bool)
      requires i < ports.Length && role.Accepted()
      modifies ports, `mergeMode
      ensures ports[..] == old(ports[..])[i := Stored(old(ports[i]), role, packet, now)]
      ensures mergeMode == (old(mergeMode) || role.Merges())
      ensures changed <==> Changed(old(ports[i]), ports[i])
    {
      hide Overlay, Packet.Length, Highest;
      var n := packet.Length();
      NoteSource(i, role, packet, now);
      if role.Merges() {
        changed := MergeFrame(i, if role.IsA() then ports[i].a.data else ports[i].b.data, n);
      } else {
        changed := StoreFrame(i, packet.payload, n);
      }
    }

    method HandleDmx(packet: Packet, now: dword)
      requires Valid()
      modifies this, ports
      ensures St() == DmxFrom(cfg, old(St()), 0, packet, now)
    {
      var i := 0;
      while i < ports.Length
        invariant 0 <= i <= ports.Length && Valid()
        invariant DmxFrom(cfg, St(), i, packet, now) == DmxFrom(cfg, old(St()), 0, packet, now)
      {
        ghost var s := St();
        if ports[i].enabled && ports[i].protocol == ArtNet && packet.address == ports[i].address {
          OnePort(cfg, s, i, packet, now);
          var accepted := TakePort(i, packet, now);
          if !accepted {
            return;
          }
        }
        i := i + 1;
      }
    }

    method HandleSync(millis: dword)
      requires Valid()
      modifies this, ports
      ensures var s := old(St());
              St() == s.(syncMode := true, syncMillis := millis,
                         ports := seq(|s.ports|, i requires 0 <= i < |s.ports| => SyncedPort(cfg, s.ports[i])))
    {
      syncMode := true;
      syncMillis := millis;
      for i := 0 to ports.Length
        invariant forall k :: 0 <= k < i ==> ports[k] == SyncedPort(cfg, old(ports[k]))
        invariant forall k :: i <= k < ports.Length ==> ports[k] == old(ports[k])
        invariant unchanged(`mergeMode) && unchanged(`packetMillis) && syncMode && syncMillis == millis
      {
        if ports[i].protocol == ArtNet && (ports[i].pending || (ports[i].enabled && cfg.directUpdate)) {
          ports[i] := ports[i].(sent := ports[i].data[..ports[i].length]);
          if !ports[i].running {
            ports[i] := ports[i].(running := true);
          }
          ports[i] := ports[i].(pending := false);
        }
      }
    }

    method Darken(p: nat)
      requires p < ports.Length
      modifies ports
      ensures ports[..] == old(ports[..])[p := old(ports[p]).(data := Dark())]
    {
      ghost var was := ports[p];
      for i := 0 to DMX_LENGTH
        invariant ports[..] == old(ports[..])[p := was.(data := ports[p].data)]
        invariant forall k :: 0 <= k < i ==> ports[p].data[k] == 0
      {
        ports[p] := ports[p].(data := ports[p].data[i := 0]);
      }
      assert ports[p].data == Dark();
    }

    /** The clear command: the frame is dark, and an Art-Net port shows it at once. */
    method ClearPort(p: nat)
      requires Valid() && p < MAX_PORTS
      modifies ports
      ensures St() == old(St()).(ports := old(ports[..])[p := ClearedPort(old(ports[p]))])
    {
      Darken(p);
      ports[p] := ports[p].(length := DMX_LENGTH);
      if ports[p].protocol == ArtNet {
        ports[p] := ports[p].(sent := ports[p].data[..ports[p].length]);
        assert ports[p].data[..DMX_LENGTH] == ports[p].data;
      }
      if ports[p].protocol == ArtNet && !ports[p].running {
        ports[p] := ports[p].(running := true);
      }
    }

    method SetNetworkDataLossCondition()
      requires Valid()
      modifies this, ports
      ensures var s := old(St());
              St() == s.(ports := seq(|s.ports|, i requires 0 <= i < |s.ports| => LostPort(s.ports[i])),
                mergeMode := false, syncMode := false)
    {
      mergeMode := false;
      syncMode := false;
      for i := 0 to ports.Length
        invariant forall k :: 0 <= k < i ==> ports[k] == LostPort(old(ports[k]))
        invariant forall k :: i <= k < ports.Length ==> ports[k] == old(ports[k])
        invariant unchanged(`syncMillis) && unchanged(`packetMillis) && !syncMode && !mergeMode
      {
        if ports[i].protocol == ArtNet && ports[i].running {
          ports[i] := ports[i].(running := false);
        }
        ports[i] := ports[i].(length := 0, a := ports[i].a.(ip := 0), b := ports[i].b.(ip := 0));
      }
    }

    method CancelMerging()
      requires Valid()
      modifies this, ports
      ensures var s := old(St());
              St() == s.(mergeMode := false,
                ports := seq(|s.ports|, i requires 0 <= i < |s.ports| => s.ports[i].(merging := false)))
    {
      mergeMode := false;
      for i := 0 to ports.Length
        invariant forall k :: 0 <= k < i ==> ports[k] == old(ports[k]).(merging := false)
        invariant forall k :: i <= k < ports.Length ==> ports[k] == old(ports[k])
        invariant unchanged(`syncMillis) && unchanged(`packetMillis) && unchanged(`syncMode) && !mergeMode
      {
        ports[i] := ports[i].(merging := false);
      }
    }

    /** One pass of the node: a packet is handled, or the silence of the network is noticed. */
    method Run(now: dword, e: Event)
      requires Valid() && Legal(St(), e)
      modifies this, ports
      ensures St() == Step(cfg, old(St()), now, e)
      ensures Valid()
    {
      StepValid(cfg, St(), now, e);
      if e.Nothing? {
        if cfg.lossTimeout != 0 && Sub32(now, packetMillis) >= cfg.lossTimeout {
          SetNetworkDataLossCondition();
        }
        return;
      }
      packetMillis := now;
      if syncMode && Sub32(now, syncMillis) >= SYNC_TIMEOUT {
        syncMode := false;
      }
      assert St() == Received(old(St()), now);
      Dispatch(now, e);
    }

    method Dispatch(now: dword, e: Event)
      requires Valid() && Legal(St(), e) && !e.Nothing?
      modifies this, ports
      ensures forall s: State :: s.Valid() && old(St()) == Received(s, now) ==> St() == Step(cfg, s, now, e)
    {
      match e
      case Dmx(packet) => HandleDmx(packet, now);
      case Sync(millis) => HandleSync(millis);
      case Clear(p) => ClearPort(p);
      case SelectProtocol(p, protocol) =>
        if cfg.version > 3 {
          ports[p] := ports[p].(protocol := protocol);
        }
      case SelectMerge(p, mode) => ports[p] := ports[p].(mode := mode);
      case CancelMerge => CancelMerging();
      case Assign(p, enabled, address) => ports[p] := ports[p].(enabled := enabled, address := address);
      case Other =>
    }
  }

  // ---- loop steps ----

  lemma OverlayNext(src: Frame, i: nat, f: Frame)
    requires i < DMX_LENGTH
    ensures Overlay(src, i, f)[i := src[i]] == Overlay(src, i + 1, f)
    ensures Overlay(src, i, f)[i] == f[i]
  {
  }

  lemma OverlayFacts(src: Frame, n: nat, f: Frame)
    requires n <= DMX_LENGTH
    ensures Overlay(src, 0, f) == f
    ensures Overlay(src, n, f)[..n] == src[..n]
  {
  }

  lemma HighestNone(a: Frame, b: Frame, f: Frame)
    ensures Highest(a, b, 0, f) == f
  {
  }

  lemma HighestNext(a: Frame, b: Frame, i: nat, f: Frame)
    requires i < DMX_LENGTH
    ensures Highest(a, b, i, f)[i := Max(a[i], b[i])] == Highest(a, b, i + 1, f)
    ensures Highest(a, b, i, f)[i] == f[i]
    ensures f[i] == Max(a[i], b[i]) ==> Highest(a, b, i, f) == Highest(a, b, i + 1, f)
    ensures f[..i + 1] == Highest(a, b, i + 1, f)[..i + 1] <==>
              f[..i] == Highest(a, b, i, f)[..i] && f[i] == Max(a[i], b[i])
  {
    var h, k := Highest(a, b, i, f), Highest(a, b, i + 1, f);
    assert f[..i + 1] == f[..i] + [f[i]] && k[..i + 1] == h[..i] + [k[i]];
  }

  lemma AnyMergingNext(ports: seq<Port>, port: Port)
    ensures AnyMerging(ports + [port]) <==> AnyMerging(ports) || port.merging
  {
    if port.merging {
      assert (ports + [port])[|ports|].merging;
    }
    if AnyMerging(ports) {
      var i :| 0 <= i < |ports| && ports[i].merging;
      assert (ports + [port])[i].merging;
    }
  }
}
