/** BLE presence: the in-range device table and the events it emits (src/ble_manager.c). Every callback
    and every pass of the RSSI task is one step. */
module Presence {
  import opened Board
  import opened Wire

  const IN_RANGE_MAX := 16
  const IN_RANGE_TIMEOUT_S := 10

  /** An identity address, as the number its six bytes stand for. */
  type Mac = nat

  datatype Slot = Slot(
    mac: Mac, rssi: int, connHandle: nat, connTime: nat, inUse: bool, active: bool, lastActive: nat)

  const EMPTY_SLOT := Slot(0, 0, 0, 0, false, false, 0)

  datatype Event = InRange(mac: Mac, rssi: int) | OutOfRange(mac: Mac, reason: nat) | Rssi(mac: Mac, rssi: int)

  /** The table, and the events a step sends. */
  datatype Outcome = Outcome(slots: seq<Slot>, events: seq<Event>)

  // ---- The table operations, on values -----------------------------------------------------------------

  function FindMac(slots: seq<Slot>, mac: Mac): (i: nat)
    ensures i <= |slots| && (i < |slots| ==> slots[i].inUse && slots[i].mac == mac)
    ensures forall j :: 0 <= j < i ==> !(slots[j].inUse && slots[j].mac == mac)
  {
    if slots == [] || (slots[0].inUse && slots[0].mac == mac) then 0 else 1 + FindMac(slots[1..], mac)
  }

  function FindHandle(slots: seq<Slot>, handle: nat): (i: nat)
    ensures i <= |slots| && (i < |slots| ==> slots[i].inUse && slots[i].connHandle == handle)
    ensures forall j :: 0 <= j < i ==> !(slots[j].inUse && slots[j].connHandle == handle)
  {
    if slots == [] || (slots[0].inUse && slots[0].connHandle == handle) then 0 else 1 + FindHandle(slots[1..], handle)
  }

  function FindFree(slots: seq<Slot>): (i: nat)
    ensures i <= |slots| && (i < |slots| ==> !slots[i].inUse)
    ensures forall j :: 0 <= j < i ==> slots[j].inUse
  {
    if slots == [] || !slots[0].inUse then 0 else 1 + FindFree(slots[1..])
  }

  /** The entry of an identity, put into the first free slot if there is none yet. */
  function Added(slots: seq<Slot>, mac: Mac): seq<Slot> {
    var i := FindFree(slots);
    if FindMac(slots, mac) < |slots| || i == |slots| then slots
    else slots[i := Slot(mac, 0, CONN_HANDLE_NONE, 0, true, false, 0)]
  }

  function Refreshed(d: Slot, rssi: int, handle: nat, now: nat): Slot {
    Slot(d.mac, rssi, if handle != CONN_HANDLE_NONE then handle else d.connHandle,
         if d.active then d.connTime else now, d.inUse, true, now)
  }

  /** Refresh entry `i`; an inactive device comes into range. */
  function Marked(slots: seq<Slot>, i: nat, rssi: int, handle: nat, now: nat): Outcome {
    if i >= |slots| then Outcome(slots, [])
    else Outcome(slots[i := Refreshed(slots[i], rssi, handle, now)],
                 if slots[i].active then [] else [InRange(slots[i].mac, rssi)])
  }

  /** Time in seconds is an unsigned 32-bit number. */
  function Elapsed(now: nat, since: nat): nat { (now - since) % U32 }

  predicate Stale(d: Slot, now: nat) {
    d.inUse && d.active && Elapsed(now, d.lastActive) >= IN_RANGE_TIMEOUT_S
  }

  /** The expiry loop after its first `n` slots. */
  function Expired(slots: seq<Slot>, now: nat, n: nat): Outcome
    requires n <= |slots|
    ensures |Expired(slots, now, n).slots| == |slots|
  {
    if n == 0 then Outcome(slots, [])
    else
      var o := Expired(slots, now, n - 1);
      var d := slots[n - 1];
      if Stale(d, now)
      then
        var out := d.(active := false, connHandle := CONN_HANDLE_NONE);
        Outcome(o.slots[n - 1 := out], o.events + [OutOfRange(d.mac, 0)])
      else o
  }

  /** What the stack answers when a connection handle is looked up: the peer's identity and its RSSI. */
  type Links = nat -> Option<(Mac, int)>

  predicate Reachable(d: Slot, links: Links) {
    d.inUse && d.connHandle != CONN_HANDLE_NONE && links(d.connHandle).Some?
  }

  /** The liveness loop over connected devices after its first `n` slots. */
  function Polled(slots: seq<Slot>, links: Links, now: nat, n: nat): Outcome
    requires n <= |slots|
    ensures |Polled(slots, links, now, n).slots| == |slots|
  {
    if n == 0 then Outcome(slots, [])
    else
      var o := Polled(slots, links, now, n - 1);
      var d := slots[n - 1];
      if Reachable(d, links) then
        var (peer, rssi) := links(d.connHandle).value;
        var m := Marked(o.slots, n - 1, rssi, d.connHandle, now);
        Outcome(m.slots, o.events + m.events + [Rssi(peer, rssi)])
      else o
  }

  function Detached(slots: seq<Slot>, handle: nat): seq<Slot> {
    var i := FindHandle(slots, handle);
    if handle == CONN_HANDLE_NONE || i == |slots| then slots
    else slots[i := slots[i].(connHandle := CONN_HANDLE_NONE)]
  }

  function BondDeleted(slots: seq<Slot>, mac: Mac, deleted: bool): Outcome {
    var i := FindMac(slots, mac);
    if !deleted || i == |slots| then Outcome(slots, [])
    else Outcome(slots[i := EMPTY_SLOT], if slots[i].active then [OutOfRange(mac, 1)] else [])
  }

  function Seeded(slots: seq<Slot>, macs: seq<Mac>): seq<Slot> {
    if macs == [] then slots else Added(Seeded(slots, macs[..|macs| - 1]), macs[|macs| - 1])
  }

  // ---- Steps ---------------------------------------------------------------------------------------------

  datatype Step =
    | Seed(bonded: seq<Mac>)
    | Advertised(mac: Mac, rssi: int)
    | Encrypted(mac: Mac, handle: nat, rssi: int)
    | Disconnected(handle: nat)
    | DeleteBond(mac: Mac, deleted: bool)
    | StartScan
    | Pass(links: Links)

  datatype State = State(slots: seq<Slot>, lastScan: nat)

  function ScanOutcome(slots: seq<Slot>, mac: Mac, rssi: int, now: nat): Outcome {
    var i := FindMac(slots, mac);
    if i == |slots| then Outcome(slots, [])
    else
      var m := Marked(slots, i, rssi, CONN_HANDLE_NONE, now);
      Outcome(m.slots, m.events + [Rssi(mac, rssi)])
  }

  function EncryptedOutcome(slots: seq<Slot>, mac: Mac, handle: nat, rssi: int, now: nat): Outcome {
    var added := Added(slots, mac);
    Marked(added, FindMac(added, mac), rssi, handle, now)
  }

  predicate PollDue(lastScan: nat, now: nat) { Elapsed(now, lastScan) >= 5 }

  function PassOutcome(slots: seq<Slot>, lastScan: nat, links: Links, now: nat): Outcome {
    var p := if PollDue(lastScan, now) then Polled(slots, links, now, |slots|) else Outcome(slots, []);
    var e := Expired(p.slots, now, |p.slots|);
    Outcome(e.slots, p.events + e.events)
  }

  function OutcomeOf(s: State, step: Step, now: nat): Outcome {
    match step
    case Seed(bonded) => Outcome(Seeded(s.slots, bonded), [])
    case Advertised(mac, rssi) => ScanOutcome(s.slots, mac, rssi, now)
    case Encrypted(mac, handle, rssi) => EncryptedOutcome(s.slots, mac, handle, rssi, now)
    case Disconnected(handle) => Outcome(Detached(s.slots, handle), [])
    case DeleteBond(mac, deleted) => BondDeleted(s.slots, mac, deleted)
    case StartScan => Outcome(s.slots, [])
    case Pass(links) => PassOutcome(s.slots, s.lastScan, links, now)
  }

  function LastScanAfter(lastScan: nat, step: Step, now: nat): nat {
    match step
    case StartScan => 0
    case Pass(_) => if PollDue(lastScan, now) then now else lastScan
    case _ => lastScan
  }

  // ---- The table in memory ---------------------------------------------------------------------------------

  class InRangeTable {
    const slots: array<Slot>
    var lastScan: nat
    var sent: seq<Event>

    ghost predicate Valid()
      reads this
    {
      slots.Length == IN_RANGE_MAX
    }

    ghost function Current(): State
      reads this, slots
    {
      State(slots[..], lastScan)
    }

    constructor ()
      ensures Valid() && fresh(slots) && sent == [] && lastScan == 0
      ensures slots[..] == seq(IN_RANGE_MAX, _ => EMPTY_SLOT)
    {
      slots := new Slot[IN_RANGE_MAX](_ => EMPTY_SLOT);
      lastScan, sent := 0, [];
    }

    method FindByMac(mac: Mac) returns (i: nat)
      ensures i == FindMac(slots[..], mac)
    {
      i := 0;
      while i < slots.Length && !(slots[i].inUse && slots[i].mac == mac)
        invariant i <= slots.Length
        invariant forall j :: 0 <= j < i ==> !(slots[j].inUse && slots[j].mac == mac)
      {
        i := i + 1;
      }
      MacIndex(slots[..], mac, i);
    }

    method FindByHandle(handle: nat) returns (i: nat)
      ensures i == if handle == CONN_HANDLE_NONE then slots.Length else FindHandle(slots[..], handle)
    {
      if handle == CONN_HANDLE_NONE {
        return slots.Length;
      }
      i := 0;
      while i < slots.Length && !(slots[i].inUse && slots[i].connHandle == handle)
        invariant i <= slots.Length
        invariant forall j :: 0 <= j < i ==> !(slots[j].inUse && slots[j].connHandle == handle)
      {
        i := i + 1;
      }
      HandleIndex(slots[..], handle, i);
    }

    method GetOrAdd(mac: Mac) returns (i: nat)
      requires Valid()
      modifies slots
      ensures slots[..] == Added(old(slots[..]), mac) && i == FindMac(slots[..], mac)
    {
      i := FindByMac(mac);
      if i < slots.Length {
        return;
      }
      i := 0;
      while i < slots.Length && slots[i].inUse
        invariant i <= slots.Length
        invariant forall j :: 0 <= j < i ==> slots[j].inUse
      {
        i := i + 1;
      }
      FreeIndex(slots[..], i);
      if i < slots.Length {
        ghost var before := slots[..];
        slots[i] := Slot(mac, 0, CONN_HANDLE_NONE, 0, true, false, 0);
        assert slots[..] == Added(before, mac);
        MacIndex(slots[..], mac, i);
      }
    }

    method MarkActive(i: nat, rssi: int, handle: nat, now: nat)
      requires Valid()
      modifies this`sent, slots
      ensures var m := Marked(old(slots[..]), i, rssi, handle, now);
              slots[..] == m.slots && sent == old(sent) + m.events
    {
      if i >= slots.Length {
        return;
      }
      slots[i] := slots[i].(lastActive := now, rssi := rssi);
      if handle != CONN_HANDLE_NONE {
        slots[i] := slots[i].(connHandle := handle);
      }
      if !slots[i].active {
        slots[i] := slots[i].(active := true, connTime := now);
        sent := sent + [InRange(slots[i].mac, rssi)];
      }
    }

    method ExpireStale(now: nat)
      requires Valid()
      modifies this`sent, slots
      ensures var e := Expired(old(slots[..]), now, IN_RANGE_MAX);
              slots[..] == e.slots && sent == old(sent) + e.events
    {
      ghost var before := slots[..];
      for i := 0 to IN_RANGE_MAX
        invariant slots[..] == Expired(before, now, i).slots
        invariant sent == old(sent) + Expired(before, now, i).events
        invariant forall k :: i <= k < IN_RANGE_MAX ==> slots[k] == before[k]
      {
        var d := slots[i];
        if !d.inUse || !d.active {
          continue;
        }
        if (now - d.lastActive) % U32 < IN_RANGE_TIMEOUT_S {
          continue;
        }
        slots[i] := d.(active := false, connHandle := CONN_HANDLE_NONE);
        sent := sent + [OutOfRange(d.mac, 0)];
      }
    }

    method SeedFromBonds(bonded: seq<Mac>)
      requires Valid()
      modifies slots
      ensures slots[..] == Seeded(old(slots[..]), bonded)
    {
      for i := 0 to |bonded|
        invariant slots[..] == Seeded(old(slots[..]), bonded[..i])
      {
        assert bonded[..i + 1][..i] == bonded[..i];
        var _ := GetOrAdd(bonded[i]);
      }
      assert bonded[..|bonded|] == bonded;
    }

    method OnAdvertised(mac: Mac, rssi: int, now: nat)
      requires Valid()
      modifies this`sent, slots
      ensures var o := ScanOutcome(old(slots[..]), mac, rssi, now);
              slots[..] == o.slots && sent == old(sent) + o.events
    {
      var i := FindByMac(mac);
      if i < slots.Length {
        MarkActive(i, rssi, CONN_HANDLE_NONE, now);
        sent := sent + [Rssi(slots[i].mac, rssi)];
      }
    }

    method OnEncrypted(mac: Mac, handle: nat, rssi: int, now: nat)
      requires Valid()
      modifies this`sent, slots
      ensures var o := EncryptedOutcome(old(slots[..]), mac, handle, rssi, now);
              slots[..] == o.slots && sent == old(sent) + o.events
    {
      var i := GetOrAdd(mac);
      MarkActive(i, rssi, handle, now);
    }

    method OnDisconnected(handle: nat)
      requires Valid()
      modifies slots
      ensures slots[..] == Detached(old(slots[..]), handle)
    {
      var i := FindByHandle(handle);
      if i < slots.Length {
        slots[i] := slots[i].(connHandle := CONN_HANDLE_NONE);
      }
    }

    /** `deleted` says whether the bond store had the bond under either address type. */
    method DeleteBond(mac: Mac, deleted: bool)
      requires Valid()
      modifies this`sent, slots
      ensures var o := BondDeleted(old(slots[..]), mac, deleted);
              slots[..] == o.slots && sent == old(sent) + o.events
    {
      var i := FindByMac(mac);
      var wasActive := i < slots.Length && slots[i].active;
      if !deleted {
        return;
      }
      if wasActive {
        sent := sent + [OutOfRange(mac, 1)];
      }
      if i < slots.Length {
        slots[i] := EMPTY_SLOT;
      }
    }

    method StartScan()
      modifies this`lastScan
      ensures lastScan == 0
    {
      lastScan := 0;
    }

    /** The liveness loop of the RSSI task. */
    method PollConnected(links: Links, now: nat)
      requires Valid()
      modifies this`sent, slots
      ensures var p := Polled(old(slots[..]), links, now, IN_RANGE_MAX);
              slots[..] == p.slots && sent == old(sent) + p.events
    {
      ghost var before := slots[..];
      for i := 0 to IN_RANGE_MAX
        invariant slots[..] == Polled(before, links, now, i).slots
        invariant sent == old(sent) + Polled(before, links, now, i).events
        invariant forall k :: i <= k < IN_RANGE_MAX ==> slots[k] == before[k]
      {
        var d := slots[i];
        if !d.inUse || d.connHandle == CONN_HANDLE_NONE {
          continue;
        }
        var link := links(d.connHandle);
        if link.None? {
          continue;
        }
        MarkActive(i, link.value.1, d.connHandle, now);
        sent := sent + [Rssi(link.value.0, link.value.1)];
      }
    }

    /** One pass of the RSSI task over the table. */
    method RssiPass(links: Links, now: nat)
      requires Valid()
      modifies this`sent, this`lastScan, slots
      ensures var o := PassOutcome(old(slots[..]), old(lastScan), links, now);
              slots[..] == o.slots && sent == old(sent) + o.events
      ensures lastScan == LastScanAfter(old(lastScan), Pass(links), now)
    {
      if (now - lastScan) % U32 >= 5 {
        lastScan := now;
        PollConnected(links, now);
      }
      ExpireStale(now);
    }

    /** The active devices, at most `limit` of them, in slot order. */
    method GetInRange(limit: nat) returns (devices: seq<Slot>)
      requires Valid()
      ensures devices <= ActiveSlots(slots[..])
      ensures |devices| == if limit < |ActiveSlots(slots[..])| then limit else |ActiveSlots(slots[..])|
    {
      devices := [];
      var i := 0;
      while i < IN_RANGE_MAX && |devices| < limit
        invariant i <= IN_RANGE_MAX && |devices| <= i && |devices| <= limit
        invariant devices == ActiveSlots(slots[..i])
      {
        assert slots[..i + 1][..i] == slots[..i];
        if slots[i].inUse && slots[i].active {
          devices := devices + [slots[i]];
        }
        i := i + 1;
      }
      assert i == IN_RANGE_MAX ==> slots[..i] == slots[..];
      ActivePrefix(slots[..], i);
      assert slots[..][..i] == slots[..i];
    }

    /** The answer to CMD_BLE_GET_IN_RANGE: its buffer is as long as the table, so nothing is cut off. */
    method InRangeList() returns (list: seq<(Mac, int)>)
      requires Valid()
      ensures list == DeviceList(slots[..])
    {
      var devices := GetInRange(IN_RANGE_MAX);
      ActiveSlotsFit(slots[..]);
      assert devices == ActiveSlots(slots[..]);
      list := [];
      for i := 0 to |devices|
        invariant list == Listing(devices[..i])
      {
        assert devices[..i + 1][..i] == devices[..i];
        list := list + [(devices[i].mac, devices[i].rssi)];
      }
      assert devices[..|devices|] == devices;
    }
  }

  function Listing(devices: seq<Slot>): seq<(Mac, int)> {
    if devices == [] then []
    else Listing(devices[..|devices| - 1]) + [(devices[|devices| - 1].mac, devices[|devices| - 1].rssi)]
  }

  /** The device list of a CMD_BLE_GET_IN_RANGE answer. */
  function DeviceList(slots: seq<Slot>): seq<(Mac, int)> {
    Listing(ActiveSlots(slots))
  }

  lemma {:induction false} ActiveSlotsFit(slots: seq<Slot>)
    ensures |ActiveSlots(slots)| <= |slots|
  {
    if slots != [] {
      ActiveSlotsFit(slots[..|slots| - 1]);
    }
  }

  function ActiveSlots(slots: seq<Slot>): seq<Slot> {
    if slots == [] then []
    else
      var d := slots[|slots| - 1];
      ActiveSlots(slots[..|slots| - 1]) + (if d.inUse && d.active then [d] else [])
  }

  lemma {:induction false} ActivePrefix(slots: seq<Slot>, i: nat)
    requires i <= |slots|
    ensures ActiveSlots(slots[..i]) <= ActiveSlots(slots)
    decreases |slots|
  {
    if i < |slots| {
      ActivePrefix(slots[..|slots| - 1], i);
      assert slots[..|slots| - 1][..i] == slots[..i];
    } else {
      assert slots[..i] == slots;
    }
  }

  lemma MacIndex(slots: seq<Slot>, mac: Mac, i: nat)
    requires i <= |slots| && (i < |slots| ==> slots[i].inUse && slots[i].mac == mac)
    requires forall j :: 0 <= j < i ==> !(slots[j].inUse && slots[j].mac == mac)
    ensures FindMac(slots, mac) == i
  {
    var k := FindMac(slots, mac);
    assert k < |slots| ==> slots[k].inUse && slots[k].mac == mac;
  }

  lemma HandleIndex(slots: seq<Slot>, handle: nat, i: nat)
    requires i <= |slots| && (i < |slots| ==> slots[i].inUse && slots[i].connHandle == handle)
    requires forall j :: 0 <= j < i ==> !(slots[j].inUse && slots[j].connHandle == handle)
    ensures FindHandle(slots, handle) == i
  {
    var k := FindHandle(slots, handle);
    assert k < |slots| ==> slots[k].inUse && slots[k].connHandle == handle;
  }

  lemma FreeIndex(slots: seq<Slot>, i: nat)
    requires i <= |slots| && (i < |slots| ==> !slots[i].inUse)
    requires forall j :: 0 <= j < i ==> slots[j].inUse
    ensures FindFree(slots) == i
  {
    var k := FindFree(slots);
    assert k < |slots| ==> !slots[k].inUse;
  }
}
