/** The host's replica of BLE presence (custom_components/rose/coordinator.py,
    custom_components/rose/ble_state.py). Devices are keyed by their MAC. */
module Replica {
  import opened Wire
  import opened Presence
  import opened PresenceRuns

  /** A display name: one that was given, or the address itself. */
  datatype Name = Given(text: string) | Address(mac: Mac)

  datatype BleState = BleState(home: bool, rssi: Option<int>, name: Name)

  type Devices = map<Mac, BleState>

  /** What the event bus is told. */
  datatype Notice = Notice(mac: Mac, home: bool)

  function Home(ble: Devices): set<Mac> {
    set mac | mac in ble && ble[mac].home
  }

  function WasHome(ble: Devices, mac: Mac): bool { mac in ble && ble[mac].home }

  function OldRssi(ble: Devices, mac: Mac): Option<int> {
    if mac in ble then ble[mac].rssi else None
  }

  function NameOf(ble: Devices, mac: Mac): Name {
    if mac in ble then ble[mac].name else Address(mac)
  }

  function WithState(ble: Devices, mac: Mac, home: bool, rssi: Option<int>): Devices {
    ble[mac := BleState(home, rssi, NameOf(ble, mac))]
  }

  function Handled(ble: Devices, e: Event): Devices {
    match e
    case InRange(mac, rssi) => WithState(ble, mac, true, Some(rssi))
    case OutOfRange(mac, _) => WithState(ble, mac, false, OldRssi(ble, mac))
    case Rssi(mac, rssi) => WithState(ble, mac, WasHome(ble, mac), Some(rssi))
  }

  function HandledAll(ble: Devices, events: seq<Event>): Devices {
    if events == [] then ble else Handled(HandledAll(ble, events[..|events| - 1]), events[|events| - 1])
  }

  /** A list of devices as a dictionary: of two entries for a MAC the later one counts. */
  function Listed(devices: seq<(Mac, int)>): map<Mac, int> {
    if devices == [] then map[]
    else Listed(devices[..|devices| - 1])[devices[|devices| - 1].0 := devices[|devices| - 1].1]
  }

  function RssiOf(listed: map<Mac, int>, mac: Mac): Option<int> {
    if mac in listed then Some(listed[mac]) else None
  }

  /** After an in-range list exactly the listed devices are home. */
  function SnapshotApplied(ble: Devices, listed: map<Mac, int>): Devices {
    map mac | mac in ble.Keys + listed.Keys :: BleState(mac in listed, RssiOf(listed, mac), NameOf(ble, mac))
  }

  function WentOffline(ble: Devices): Devices {
    map mac | mac in ble :: BleState(false, None, ble[mac].name)
  }

  /** The first of the given name, the name so far and the address that is not empty. */
  function MergedName(previous: Devices, names: map<Mac, string>, mac: Mac): Name {
    if mac in names && names[mac] != "" then Given(names[mac])
    else if mac in previous && previous[mac].name != Given("") then previous[mac].name
    else Address(mac)
  }

  function Merged(previous: Devices, names: map<Mac, string>, listed: map<Mac, int>): Devices {
    map mac | mac in previous.Keys + names.Keys + listed.Keys ::
      BleState(mac in listed, RssiOf(listed, mac), MergedName(previous, names, mac))
  }

  /** A refresh with the answers it got. */
  function RefreshedWith(
    previous: Devices, names: Option<map<Mac, string>>, snapshot: Option<seq<(Mac, int)>>): Devices
  {
    Merged(previous, if names.Some? then names.value else map[], Listed(if snapshot.Some? then snapshot.value else []))
  }

  /** Merge the known devices with the current snapshot. */
  method MergeBleDevices(previous: Devices, names: map<Mac, string>, snapshot: seq<(Mac, int)>) returns (ble: Devices)
    ensures ble == Merged(previous, names, Listed(snapshot))
  {
    var devices := Listed(snapshot);
    ble := previous;
    var todo := ble.Keys + names.Keys + devices.Keys;
    ghost var all := todo;
    while todo != {}
      invariant todo <= all && previous.Keys <= all
      invariant ble.Keys == previous.Keys + (all - todo)
      invariant forall mac :: mac in todo && mac in previous ==> ble[mac] == previous[mac]
      invariant forall mac :: mac in all && mac !in todo ==>
                  ble[mac] == BleState(mac in devices, RssiOf(devices, mac), MergedName(previous, names, mac))
      decreases todo
    {
      var mac :| mac in todo;
      ble := ble[mac := BleState(mac in devices, RssiOf(devices, mac), MergedName(ble, names, mac))];
      todo := todo - {mac};
    }
  }

  /** No two notices are about the same device. */
  ghost predicate ToldOnce(notices: seq<Notice>) {
    forall i, j :: 0 <= i < j < |notices| ==> notices[i].mac != notices[j].mac
  }

  class RoseCoordinator {
    var ble: Devices
    var connected: bool
    var receivedBleSnapshot: bool
    var fired: seq<Notice>

    constructor ()
      ensures ble == map[] && !connected && !receivedBleSnapshot && fired == []
    {
      ble, connected, receivedBleSnapshot, fired := map[], false, false, [];
    }

    method SetBleState(mac: Mac, home: bool, rssi: Option<int>, fireEvent: bool)
      modifies this`ble, this`fired
      ensures ble == WithState(old(ble), mac, home, rssi)
      ensures fired == old(fired) + if fireEvent && home != WasHome(old(ble), mac) then [Notice(mac, home)] else []
    {
      var previousHome := mac in ble && ble[mac].home;
      var name := if mac in ble then ble[mac].name else Address(mac);
      ble := ble[mac := BleState(home, rssi, name)];
      if fireEvent && home != previousHome {
        fired := fired + [Notice(mac, home)];
      }
    }

    /** A single device event. The bus is told of a change of presence and of nothing else. */
    method OnDeviceEvent(e: Event)
      modifies this`ble, this`fired
      ensures ble == Handled(old(ble), e)
      ensures fired == old(fired) + if Home(ble) != Home(old(ble)) then [Notice(e.mac, e.InRange?)] else []
    {
      var mac := e.mac;
      HandledHome(ble, e);
      var home := if !e.Rssi? then !e.OutOfRange? else mac in ble && ble[mac].home;
      var rssi := if e.OutOfRange? then OldRssi(ble, mac) else Some(e.rssi);
      SetBleState(mac, home, rssi, !e.Rssi?);
    }

    /** An in-range list. The known devices come in no particular order; changes are told from the
        second list on. */
    method OnInRangeList(devices: seq<(Mac, int)>)
      modifies this`ble, this`fired, this`receivedBleSnapshot
      ensures ble == SnapshotApplied(old(ble), Listed(devices)) && receivedBleSnapshot
      ensures old(fired) <= fired
      ensures !old(receivedBleSnapshot) ==> fired == old(fired)
      ensures old(receivedBleSnapshot) ==> forall n :: n in fired[|old(fired)|..] <==>
                n == Notice(n.mac, n.mac in Home(ble)) && (n.mac in Home(ble)) != (n.mac in Home(old(ble)))
      ensures ToldOnce(fired[|old(fired)|..])
    {
      var listed := Listed(devices);
      ghost var before, told := ble, fired;
      var todo := ble.Keys + listed.Keys;
      ghost var all := todo;
      ghost var news: seq<Notice> := [];
      while todo != {}
        invariant todo <= all && before.Keys <= all
        invariant ble.Keys == before.Keys + (all - todo)
        invariant forall mac :: mac in todo && mac in before ==> ble[mac] == before[mac]
        invariant forall mac :: mac in all && mac !in todo ==>
                    ble[mac] == BleState(mac in listed, RssiOf(listed, mac), NameOf(before, mac))
        invariant receivedBleSnapshot == old(receivedBleSnapshot)
        invariant fired == told + news && (!receivedBleSnapshot ==> news == [])
        invariant receivedBleSnapshot ==> forall n :: n in news <==>
                    n.mac in all - todo && n.home == (n.mac in listed) && n.home != WasHome(before, n.mac)
        invariant ToldOnce(news)
        decreases todo
      {
        var mac :| mac in todo;
        SetBleState(mac, mac in listed, RssiOf(listed, mac), receivedBleSnapshot);
        if receivedBleSnapshot && (mac in listed) != WasHome(before, mac) {
          news := news + [Notice(mac, mac in listed)];
        }
        todo := todo - {mac};
      }
      receivedBleSnapshot := true;
      assert fired[|told|..] == news;
    }

    method OnConnectionChange(isConnected: bool)
      modifies this`ble, this`connected
      ensures connected == isConnected
      ensures ble == if isConnected then old(ble) else WentOffline(old(ble))
    {
      connected := isConnected;
      if !isConnected {
        ble := map mac | mac in ble :: ble[mac].(home := false, rssi := None);
      }
    }

    /** The periodic refresh asks the platform for its status, the device names and the in-range list. Without
        a status nothing changes; a failed answer to one of the others counts as an empty one. */
    method Refresh(statusOk: bool, names: Option<map<Mac, string>>, snapshot: Option<seq<(Mac, int)>>)
      modifies this`ble
      ensures ble == if statusOk then RefreshedWith(old(ble), names, snapshot) else old(ble)
    {
      if !statusOk {
        return;
      }
      var known := if names.Some? then names.value else map[];
      var inRange := if snapshot.Some? then snapshot.value else [];
      ble := MergeBleDevices(ble, known, inRange);
    }
  }

  // ---- Agreement with the firmware ---------------------------------------------------------------------------

  /** The host's set of devices at home moves as an observer's of the firmware's events; an RSSI event
      never moves it, whatever MAC it names. */
  lemma HandledHome(ble: Devices, e: Event)
    ensures Home(Handled(ble, e)) == After(Home(ble), e)
    ensures e.Rssi? ==> Home(Handled(ble, e)) == Home(ble)
  {
  }

  lemma {:induction false} HandledAllHome(ble: Devices, events: seq<Event>)
    ensures Home(HandledAll(ble, events)) == Track(Home(ble), events)
  {
    if events != [] {
      hide Home, Handled, After;
      HandledAllHome(ble, events[..|events| - 1]);
      HandledHome(HandledAll(ble, events[..|events| - 1]), events[|events| - 1]);
    }
  }

  /** Event `k` is the last that reports the RSSI of a device. */
  ghost predicate LastReport(events: seq<Event>, k: nat, mac: Mac, rssi: int) {
    && k < |events| && (events[k] == InRange(mac, rssi) || events[k] == Rssi(mac, rssi))
    && forall j :: k < j < |events| && events[j].mac == mac ==> events[j].OutOfRange?
  }

  /** What the events leave of the rest: the RSSI last reported, and the name as it was; a device that no event
      names is untouched. */
  lemma {:induction false} HandledRest(ble: Devices, events: seq<Event>, mac: Mac)
    ensures var after := HandledAll(ble, events);
      && (mac in after <==> mac in ble || exists k :: 0 <= k < |events| && events[k].mac == mac)
      && (mac in after ==> after[mac].name == if mac in ble then ble[mac].name else Address(mac))
      && (forall k: nat, rssi :: LastReport(events, k, mac, rssi) ==> mac in after && after[mac].rssi == Some(rssi))
      && ((forall k :: 0 <= k < |events| && events[k].mac == mac ==> events[k].OutOfRange?) && mac in after ==>
            after[mac].rssi == if mac in ble then ble[mac].rssi else None)
  {
    if events != [] {
      var n := |events| - 1;
      var init := events[..n];
      HandledRest(ble, init, mac);
      assert events == init + [events[n]];
      forall k: nat, rssi | LastReport(events, k, mac, rssi)
        ensures mac in HandledAll(ble, events) && HandledAll(ble, events)[mac].rssi == Some(rssi)
      {
        if k < n {
          assert LastReport(init, k, mac, rssi);
        }
      }
      hide LastReport;
    }
  }

  lemma {:induction false} ListedIsActive(slots: seq<Slot>)
    ensures Listed(DeviceList(slots)).Keys == ActiveSet(slots)
  {
    if slots != [] {
      var n := |slots| - 1;
      ListedIsActive(slots[..n]);
      var before := ActiveSlots(slots[..n]);
      assert before + [] == before;
      assert (before + [slots[n]])[..|before|] == before;
      ActiveSetSnoc(slots);
    }
  }

  /** With each MAC goes the RSSI of its entry. */
  lemma {:induction false} ListedRssi(slots: seq<Slot>, i: nat)
    requires Distinct(slots) && i < |slots| && IsActive(slots[i])
    ensures slots[i].mac in Listed(DeviceList(slots)) && Listed(DeviceList(slots))[slots[i].mac] == slots[i].rssi
  {
    var n := |slots| - 1;
    var before := ActiveSlots(slots[..n]);
    ListedIsActive(slots);
    assert before + [] == before;
    assert (before + [slots[n]])[..|before|] == before;
    assert Distinct(slots[..n]);
    if i < n {
      ListedRssi(slots[..n], i);
    }
  }

  /** So after an in-range list the replica has the RSSI of every device in range, and of no other; names stay. */
  lemma {:induction false} SnapshotRest(slots: seq<Slot>, ble: Devices, i: nat, mac: Mac)
    requires Distinct(slots)
    ensures var after := SnapshotApplied(ble, Listed(DeviceList(slots)));
      && (i < |slots| && IsActive(slots[i]) ==>
            slots[i].mac in after && after[slots[i].mac].rssi == Some(slots[i].rssi))
      && (mac in after && mac !in ActiveSet(slots) ==> after[mac].rssi == None)
      && (mac in after ==> after[mac].name == if mac in ble then ble[mac].name else Address(mac))
      && (mac in after <==> mac in ble || mac in ActiveSet(slots))
  {
    ListedIsActive(slots);
    if i < |slots| && IsActive(slots[i]) {
      ListedRssi(slots, i);
    }
    hide Listed, DeviceList, ActiveSet;
  }

  lemma ActiveSetSnoc(slots: seq<Slot>)
    requires slots != []
    ensures var n := |slots| - 1;
            ActiveSet(slots) == ActiveSet(slots[..n]) + (if IsActive(slots[n]) then {slots[n].mac} else {})
  {
    var n := |slots| - 1;
    forall m | m in ActiveSet(slots[..n]) ensures m in ActiveSet(slots) {
      var i :| 0 <= i < n && IsActive(slots[..n][i]) && slots[..n][i].mac == m;
      assert IsActive(slots[i]) && slots[i].mac == m;
    }
    forall m | m in ActiveSet(slots) && !(IsActive(slots[n]) && m == slots[n].mac) ensures m in ActiveSet(slots[..n]) {
      var i :| 0 <= i < |slots| && IsActive(slots[i]) && slots[i].mac == m;
      assert IsActive(slots[..n][i]);
    }
  }

  /** The replica agrees with the firmware. From whatever it held before, once the host has applied an
      in-range list taken in some state of the firmware and then, in order and without loss, every event
      the firmware sent since, the devices it marks home are exactly the firmware's active devices. */
  lemma ReplicaAgrees(boot: seq<TimedStep>, since: seq<TimedStep>, ble: Devices)
    ensures var s := RunFrom(Boot(), boot).state;
            var t := RunFrom(s, since);
            Home(HandledAll(SnapshotApplied(ble, Listed(DeviceList(s.slots))), t.events)) == ActiveSet(t.state.slots)
  {
    hide Boot, RunFrom, HandledAll, Track, Legal, ActiveSet, Listed, DeviceList;
    BootDistinct();
    RunAgrees(Boot(), boot);
    var s := RunFrom(Boot(), boot).state;
    RunAgrees(s, since);
    ListedIsActive(s.slots);
    var start := SnapshotApplied(ble, Listed(DeviceList(s.slots)));
    assert Home(start) == ActiveSet(s.slots);
    HandledAllHome(start, RunFrom(s, since).events);
  }

  /** What an observer who starts from `home` holds of one device: its last move, if it has moved. */
  lemma {:induction false} TrackMoves(home: set<Mac>, events: seq<Event>, mac: Mac)
    ensures var moves := Moves(events, mac);
            mac in Track(home, events) <==> if moves == [] then mac in home else moves[|moves| - 1]
  {
    if events != [] {
      TrackMoves(home, events[..|events| - 1], mac);
    }
  }

  /** The refresh asks for the list in state `s` of the firmware and gets it, or does not. */
  function InRangeAnswer(s: State, ok: bool): Option<seq<(Mac, int)>> {
    if ok then Some(DeviceList(s.slots)) else None
  }

  /** The exact effect of a refresh. The list is taken in some state of the firmware; the events `during` the
      refresh, until its result replaces the data, are overwritten, and those `since` are handled. Then the
      devices at home are the active ones if and only if every device whose activity at the end of the refresh
      is not the one in the answer has since announced a move. A failed call answers that nobody is active. */
  lemma {:induction false} RefreshAgrees(
    boot: seq<TimedStep>, during: seq<TimedStep>, since: seq<TimedStep>, previous: Devices,
    names: Option<map<Mac, string>>, ok: bool)
    ensures var s := RunFrom(Boot(), boot).state;
            var u := RunFrom(s, during).state;
            var t := RunFrom(u, since);
            Home(HandledAll(RefreshedWith(previous, names, InRangeAnswer(s, ok)), t.events)) == ActiveSet(t.state.slots)
            <==> forall mac :: (ok && mac in ActiveSet(s.slots)) != (mac in ActiveSet(u.slots))
                               ==> Moves(t.events, mac) != []
  {
    hide Boot, RunFrom, HandledAll, Track, Legal, ActiveSet, Listed, DeviceList, Moves;
    BootDistinct();
    RunAgrees(Boot(), boot);
    var s := RunFrom(Boot(), boot).state;
    RunAgrees(s, during);
    var u := RunFrom(s, during).state;
    RunAgrees(u, since);
    ListedIsActive(s.slots);
    var events, answer := RunFrom(u, since).events, InRangeAnswer(s, ok);
    HandledAllHome(RefreshedWith(previous, names, answer), events);
    RefreshedHome(previous, names, answer);
    SameTrack(if ok then ActiveSet(s.slots) else {}, ActiveSet(u.slots), events);
  }

  /** Without a move during a refresh that succeeds the sets agree from then on; a failed one loses the
      devices that were active until they move. */
  lemma QuietRefreshAgrees(boot: seq<TimedStep>, since: seq<TimedStep>, previous: Devices,
                           names: Option<map<Mac, string>>, ok: bool)
    ensures var s := RunFrom(Boot(), boot).state;
            var t := RunFrom(s, since);
            Home(HandledAll(RefreshedWith(previous, names, InRangeAnswer(s, ok)), t.events)) == ActiveSet(t.state.slots)
            <==> ok || forall mac :: mac in ActiveSet(s.slots) ==> Moves(t.events, mac) != []
  {
    var s := RunFrom(Boot(), boot).state;
    assert RunFrom(s, []).state == s;
    hide RunFrom, HandledAll, ActiveSet, Moves, RefreshedWith, InRangeAnswer, Home;
    RefreshAgrees(boot, [], since, previous, names, ok);
  }

  lemma RefreshedHome(previous: Devices, names: Option<map<Mac, string>>, snapshot: Option<seq<(Mac, int)>>)
    ensures Home(RefreshedWith(previous, names, snapshot)) == if snapshot.Some? then Listed(snapshot.value).Keys else {}
  {
  }

  /** Observers who start from two sets agree once every device in one of them alone has moved, and not
      before. */
  lemma SameTrack(a: set<Mac>, b: set<Mac>, events: seq<Event>)
    ensures Track(a, events) == Track(b, events)
            <==> forall mac :: (mac in a) != (mac in b) ==> Moves(events, mac) != []
  {
    forall mac
      ensures mac in Track(a, events) <==> var m := Moves(events, mac); if m == [] then mac in a else m[|m| - 1]
      ensures mac in Track(b, events) <==> var m := Moves(events, mac); if m == [] then mac in b else m[|m| - 1]
    {
      TrackMoves(a, events, mac);
      TrackMoves(b, events, mac);
    }
  }

  /** In particular, right after the refresh: the sets agree exactly when the call succeeded or nobody was
      in range, and a failed call leaves nobody home. */
  lemma FailedRefresh(boot: seq<TimedStep>, previous: Devices, names: Option<map<Mac, string>>, ok: bool)
    ensures var s := RunFrom(Boot(), boot).state;
            var home := Home(RefreshedWith(previous, names, InRangeAnswer(s, ok)));
            (home == ActiveSet(s.slots) <==> ok || ActiveSet(s.slots) == {}) && (!ok ==> home == {})
  {
    hide Boot, RunFrom, ActiveSet, Listed, DeviceList;
    ListedIsActive(RunFrom(Boot(), boot).state.slots);
    RefreshedHome(previous, names, InRangeAnswer(RunFrom(Boot(), boot).state, ok));
  }

  /** Losing the connection leaves nobody home. */
  lemma NobodyHomeOffline(ble: Devices)
    ensures Home(WentOffline(ble)) == {} && WentOffline(ble).Keys == ble.Keys
  {
  }
}
