/** When a device counts as in range (src/ble_manager.c): what sees it, how long that lasts, and which link
    it is polled over. */
module PresenceTime {
  import opened Board
  import opened Wire
  import opened Presence
  import opened PresenceRuns

  /** The entry of a device. */
  function At(slots: seq<Slot>, mac: Mac): Option<Slot> {
    var i := FindMac(slots, mac);
    if i < |slots| then Some(slots[i]) else None
  }

  predicate Known(slots: seq<Slot>, mac: Mac) { At(slots, mac).Some? }

  /** The device is in range, was last seen at time `t`, and with this RSSI. */
  predicate InRangeSince(slots: seq<Slot>, mac: Mac, t: nat, rssi: int) {
    var d := At(slots, mac);
    d.Some? && d.value.active && d.value.lastActive == t && d.value.rssi == rssi
  }

  /** The device has an entry that holds this connection handle. */
  predicate HasLink(slots: seq<Slot>, mac: Mac, handle: nat) {
    var d := At(slots, mac);
    d.Some? && d.value.connHandle == handle
  }

  /** The step sees the device, with this RSSI: an advertisement of a known device, an encrypted link for which
      there is an entry or room for one, or a poll, five seconds after the last, that its link answers. */
  ghost predicate Sees(s: State, step: Step, now: nat, mac: Mac, rssi: int) {
    match step
    case Advertised(m, r) => m == mac && r == rssi && Known(s.slots, mac)
    case Encrypted(m, _, r) =>
      m == mac && r == rssi && (Known(s.slots, mac) || exists i :: 0 <= i < |s.slots| && !s.slots[i].inUse)
    case Pass(links) =>
      && s.lastScan + 5 <= now && Known(s.slots, mac)
      && var handle := At(s.slots, mac).value.connHandle;
      && handle != CONN_HANDLE_NONE && links(handle).Some? && links(handle).value.1 == rssi
    case _ => false
  }

  predicate Deletes(step: Step, mac: Mac) { step.DeleteBond? && step.mac == mac && step.deleted }

  /** A pass finds that the device was last seen ten seconds ago or earlier, and does not see it. */
  ghost predicate TimesOut(s: State, step: Step, now: nat, mac: Mac) {
    && step.Pass? && (forall r :: !Sees(s, step, now, mac, r))
    && exists t: nat, r :: InRangeSince(s.slots, mac, t, r) && now >= t + 10
  }

  /** The link is closed and the device is the first that has it. */
  ghost predicate Closes(s: State, step: Step, mac: Mac, handle: nat) {
    && step.Disconnected? && step.handle == handle && handle != CONN_HANDLE_NONE
    && exists i :: 0 <= i < |s.slots| && s.slots[i].inUse && s.slots[i].mac == mac && s.slots[i].connHandle == handle
         && forall j :: 0 <= j < i ==> !(s.slots[j].inUse && s.slots[j].connHandle == handle)
  }

  /** The state is in order: no two entries for a device, and no time in the future. */
  ghost predicate Timely(s: State, now: nat) {
    Distinct(s.slots) && SeenBy(s.slots, now) && s.lastScan <= now < U32
  }

  // ---- One entry through one step ------------------------------------------------------------------------

  lemma AtIs(slots: seq<Slot>, i: nat)
    requires Distinct(slots) && i < |slots| && slots[i].inUse
    ensures FindMac(slots, slots[i].mac) == i && At(slots, slots[i].mac) == Some(slots[i])
  {
  }

  /** Changing one entry changes it and no other. */
  lemma AtUpdated(slots: seq<Slot>, i: nat, d: Slot, mac: Mac)
    requires i < |slots| && Distinct(slots) && Distinct(slots[i := d]) && d.inUse
    requires slots[i].inUse ==> slots[i].mac == d.mac
    ensures At(slots[i := d], mac) == if mac == d.mac then Some(d) else At(slots, mac)
  {
    hide FindMac;
    var t := slots[i := d];
    AtIs(t, i);
    if mac != d.mac {
      var k, l := FindMac(slots, mac), FindMac(t, mac);
      if k < |slots| {
        AtIs(t, k);
      }
      if l < |t| {
        AtIs(slots, l);
      }
    }
  }

  lemma AtEmptied(slots: seq<Slot>, i: nat, mac: Mac)
    requires i < |slots| && Distinct(slots) && Distinct(slots[i := EMPTY_SLOT]) && slots[i].inUse
    ensures At(slots[i := EMPTY_SLOT], mac) == if mac == slots[i].mac then None else At(slots, mac)
  {
    hide FindMac;
    var t := slots[i := EMPTY_SLOT];
    var k, l := FindMac(slots, mac), FindMac(t, mac);
    AtIs(slots, i);
    if k < |slots| && k != i {
      AtIs(t, k);
    }
    if l < |t| {
      AtIs(slots, l);
    }
  }

  /** A loop over the entries that keeps who is where. */
  lemma AtMapped(slots: seq<Slot>, t: seq<Slot>, mac: Mac)
    requires |t| == |slots|
    requires forall k :: 0 <= k < |slots| ==> t[k].mac == slots[k].mac && t[k].inUse == slots[k].inUse
    ensures FindMac(t, mac) == FindMac(slots, mac)
  {
    MacIndex(t, mac, FindMac(slots, mac));
  }

  lemma AddedAt(slots: seq<Slot>, m: Mac, mac: Mac)
    requires Distinct(slots)
    ensures var room := exists i :: 0 <= i < |slots| && !slots[i].inUse;
            At(Added(slots, m), mac) ==
              if mac == m && !Known(slots, m) && room then Some(Slot(m, 0, CONN_HANDLE_NONE, 0, true, false, 0))
              else At(slots, mac)
  {
    AddedKeeps(slots, m);
    hide FindMac, FindFree;
    var i := FindFree(slots);
    if !Known(slots, m) && i < |slots| {
      AtUpdated(slots, i, Slot(m, 0, CONN_HANDLE_NONE, 0, true, false, 0), mac);
    }
  }

  lemma {:induction false} SeededAt(slots: seq<Slot>, macs: seq<Mac>, mac: Mac)
    requires Distinct(slots)
    ensures At(Seeded(slots, macs), mac) == At(slots, mac)
            || (At(slots, mac).None?
                && At(Seeded(slots, macs), mac) == Some(Slot(mac, 0, CONN_HANDLE_NONE, 0, true, false, 0)))
    ensures mac !in macs ==> At(Seeded(slots, macs), mac) == At(slots, mac)
    ensures mac in macs ==>
              Known(Seeded(slots, macs), mac) || forall d :: d in Seeded(slots, macs) ==> d.inUse
  {
    if macs != [] {
      var n := |macs| - 1;
      SeededAt(slots, macs[..n], mac);
      SeededKeeps(slots, macs[..n]);
      SeededKeeps(slots, macs);
      AddedAt(Seeded(slots, macs[..n]), macs[n], mac);
      FullStays(Seeded(slots, macs[..n]), macs[n]);
      hide Added, At, Distinct;
      assert mac in macs ==> mac in macs[..n] || mac == macs[n];
    }
  }

  lemma FullStays(slots: seq<Slot>, m: Mac)
    ensures (forall d :: d in slots ==> d.inUse) ==> Added(slots, m) == slots
    ensures |Added(slots, m)| == |slots|
  {
  }

  lemma MarkedAt(slots: seq<Slot>, m: Mac, rssi: int, handle: nat, now: nat, mac: Mac)
    requires Distinct(slots)
    ensures At(Marked(slots, FindMac(slots, m), rssi, handle, now).slots, mac) ==
              if mac == m && Known(slots, m) then Some(Refreshed(At(slots, m).value, rssi, handle, now))
              else At(slots, mac)
  {
    var i := FindMac(slots, m);
    MarkedAgrees(slots, i, rssi, handle, now);
    hide FindMac;
    if i < |slots| {
      AtUpdated(slots, i, Refreshed(slots[i], rssi, handle, now), mac);
    }
  }

  lemma {:induction false} PolledAt(slots: seq<Slot>, links: Links, now: nat, n: nat, k: nat)
    requires n <= |slots| && k < |slots|
    ensures Polled(slots, links, now, n).slots[k] ==
              if k < n && Reachable(slots[k], links)
              then Refreshed(slots[k], links(slots[k].connHandle).value.1, slots[k].connHandle, now)
              else slots[k]
  {
    if n > 0 {
      PolledAt(slots, links, now, n - 1, k);
      PolledKeeps(slots, links, now, n - 1);
    }
  }

  lemma {:induction false} ExpiredAt(slots: seq<Slot>, now: nat, n: nat, k: nat)
    requires n <= |slots| && k < |slots|
    ensures Expired(slots, now, n).slots[k] ==
              if k < n && Stale(slots[k], now) then slots[k].(active := false, connHandle := CONN_HANDLE_NONE)
              else slots[k]
  {
    if n > 0 {
      ExpiredAt(slots, now, n - 1, k);
    }
  }

  /** The entry of a device after a pass. */
  function Passed(d: Slot, lastScan: nat, links: Links, now: nat): Slot {
    var p := if PollDue(lastScan, now) && Reachable(d, links)
             then Refreshed(d, links(d.connHandle).value.1, d.connHandle, now) else d;
    if Stale(p, now) then p.(active := false, connHandle := CONN_HANDLE_NONE) else p
  }

  lemma PassAt(slots: seq<Slot>, lastScan: nat, links: Links, now: nat, mac: Mac)
    ensures At(PassOutcome(slots, lastScan, links, now).slots, mac) ==
              if Known(slots, mac) then Some(Passed(At(slots, mac).value, lastScan, links, now)) else None
  {
    var p := if PollDue(lastScan, now) then Polled(slots, links, now, |slots|).slots else slots;
    var t := Expired(p, now, |p|).slots;
    forall k | 0 <= k < |slots| ensures t[k] == Passed(slots[k], lastScan, links, now) {
      PolledAt(slots, links, now, |slots|, k);
      ExpiredAt(p, now, |p|, k);
    }
    hide Polled, Expired, FindMac;
    AtMapped(slots, t, mac);
  }

  lemma DetachedAt(slots: seq<Slot>, handle: nat, mac: Mac)
    requires Distinct(slots)
    ensures var i := FindHandle(slots, handle);
            At(Detached(slots, handle), mac) ==
              if handle != CONN_HANDLE_NONE && i < |slots| && slots[i].mac == mac
              then Some(slots[i].(connHandle := CONN_HANDLE_NONE)) else At(slots, mac)
  {
    DetachedKeeps(slots, handle);
    hide FindMac, FindHandle;
    var i := FindHandle(slots, handle);
    if handle != CONN_HANDLE_NONE && i < |slots| {
      AtUpdated(slots, i, slots[i].(connHandle := CONN_HANDLE_NONE), mac);
    }
  }

  lemma BondDeletedAt(slots: seq<Slot>, m: Mac, deleted: bool, mac: Mac)
    requires Distinct(slots)
    ensures At(BondDeleted(slots, m, deleted).slots, mac) == if deleted && mac == m then None else At(slots, mac)
  {
    BondDeletedAgrees(slots, m, deleted);
    hide FindMac;
    var i := FindMac(slots, m);
    if deleted && i < |slots| {
      AtEmptied(slots, i, mac);
    }
  }

  /** In time order the wrapped differences are true ones. */
  lemma InTime(s: State, now: nat)
    requires Timely(s, now)
    ensures PollDue(s.lastScan, now) <==> s.lastScan + 5 <= now
    ensures forall i :: 0 <= i < |s.slots| && s.slots[i].active ==>
              Elapsed(now, s.slots[i].lastActive) == now - s.slots[i].lastActive
  {
  }

  lemma StaleMeans(d: Slot, now: nat)
    requires d.active ==> d.lastActive <= now < U32
    ensures Stale(d, now) <==> d.inUse && d.active && now >= d.lastActive + 10
  {
  }

  lemma ActiveIsSeen(slots: seq<Slot>, mac: Mac, now: nat)
    requires SeenBy(slots, now) && Known(slots, mac)
    ensures At(slots, mac).value.inUse && At(slots, mac).value.mac == mac
    ensures At(slots, mac).value.active ==> At(slots, mac).value.lastActive <= now
  {
  }

  // ---- The law of presence ---------------------------------------------------------------------------------

  /** What one step makes of a device. Deleting its bond takes it out. A step that sees it leaves it in range,
      last seen now. Any other keeps it as it is, but for a pass that comes ten seconds or more after it was
      last seen. */
  lemma {:induction false} PresenceLaw(s: State, step: Step, now: nat, mac: Mac, t: nat, rssi: int)
    requires Timely(s, now)
    ensures InRangeSince(OutcomeOf(s, step, now).slots, mac, t, rssi) <==>
              if Deletes(step, mac) then false
              else if exists r :: Sees(s, step, now, mac, r) then t == now && Sees(s, step, now, mac, rssi)
              else InRangeSince(s.slots, mac, t, rssi) && !(step.Pass? && now >= t + 10)
  {
    match step {
      case Seed(bonded) =>
        hide At;
        SeededAt(s.slots, bonded, mac);
      case Advertised(m, r) =>
        MarkedAt(s.slots, m, r, CONN_HANDLE_NONE, now, mac);
        hide FindMac;
        if Known(s.slots, mac) && m == mac {
          assert Sees(s, step, now, mac, r);
        }
      case Encrypted(m, handle, r) =>
        AddedKeeps(s.slots, m);
        AddedAt(s.slots, m, mac);
        MarkedAt(Added(s.slots, m), m, r, handle, now, mac);
        hide Added, FindMac, At, Marked;
        if m == mac && (Known(s.slots, mac) || exists i :: 0 <= i < |s.slots| && !s.slots[i].inUse) {
          assert Sees(s, step, now, mac, r);
        }
      case Disconnected(handle) =>
        DetachedAt(s.slots, handle, mac);
        LinkOwner(s.slots, handle);
        hide FindMac, FindHandle, Detached;
      case DeleteBond(m, deleted) =>
        hide At;
        BondDeletedAt(s.slots, m, deleted, mac);
      case StartScan =>
      case Pass(links) =>
        PassLaw(s, links, now, mac, t, rssi);
    }
  }

  lemma LinkOwner(slots: seq<Slot>, handle: nat)
    requires Distinct(slots)
    ensures var i := FindHandle(slots, handle); i < |slots| ==> At(slots, slots[i].mac) == Some(slots[i])
  {
    var i := FindHandle(slots, handle);
    if i < |slots| {
      AtIs(slots, i);
    }
  }

  lemma PassLaw(s: State, links: Links, now: nat, mac: Mac, t: nat, rssi: int)
    requires Timely(s, now)
    ensures InRangeSince(PassOutcome(s.slots, s.lastScan, links, now).slots, mac, t, rssi) <==>
              if exists r :: Sees(s, Pass(links), now, mac, r) then t == now && Sees(s, Pass(links), now, mac, rssi)
              else InRangeSince(s.slots, mac, t, rssi) && now < t + 10
  {
    PassAt(s.slots, s.lastScan, links, now, mac);
    InTime(s, now);
    hide PassOutcome, Stale, PollDue;
    if Known(s.slots, mac) {
      var d := At(s.slots, mac).value;
      ActiveIsSeen(s.slots, mac, now);
      hide At;
      StaleMeans(d, now);
      if s.lastScan + 5 <= now && Reachable(d, links) {
        var r := links(d.connHandle).value.1;
        assert Sees(s, Pass(links), now, mac, r);
        StaleMeans(Refreshed(d, r, d.connHandle, now), now);
      }
    }
  }

  // ---- The link a device is polled over --------------------------------------------------------------------

  /** An encryption that finds an entry for the device, or room for one, over this link. */
  ghost predicate LinksOver(s: State, step: Step, mac: Mac, handle: nat) {
    && step.Encrypted? && step.mac == mac && step.handle == handle && handle != CONN_HANDLE_NONE
    && (Known(s.slots, mac) || exists i :: 0 <= i < |s.slots| && !s.slots[i].inUse)
  }

  /** The device is polled over the link it was last encrypted on, until that is closed, the device times out
      or its bond is deleted. */
  lemma {:induction false} LinkLaw(s: State, step: Step, now: nat, mac: Mac, handle: nat)
    requires Timely(s, now) && handle != CONN_HANDLE_NONE
    ensures HasLink(OutcomeOf(s, step, now).slots, mac, handle) <==>
              if Deletes(step, mac) || TimesOut(s, step, now, mac) || Closes(s, step, mac, handle) then false
              else if exists h :: LinksOver(s, step, mac, h) then LinksOver(s, step, mac, handle)
              else HasLink(s.slots, mac, handle)
  {
    match step {
      case Seed(bonded) =>
        hide At;
        SeededAt(s.slots, bonded, mac);
      case Advertised(m, r) =>
        MarkedAt(s.slots, m, r, CONN_HANDLE_NONE, now, mac);
        hide FindMac;
      case Encrypted(m, h, r) =>
        AddedKeeps(s.slots, m);
        AddedAt(s.slots, m, mac);
        MarkedAt(Added(s.slots, m), m, r, h, now, mac);
        hide Added, FindMac, At, Marked;
        if m == mac && h != CONN_HANDLE_NONE
           && (Known(s.slots, mac) || exists i :: 0 <= i < |s.slots| && !s.slots[i].inUse) {
          assert LinksOver(s, step, mac, h);
        }
      case Disconnected(h) =>
        DetachedAt(s.slots, h, mac);
        LinkOwner(s.slots, h);
        LinkCloses(s, h, mac, handle);
        hide FindMac, FindHandle, Detached, Closes;
      case DeleteBond(m, deleted) =>
        hide At;
        BondDeletedAt(s.slots, m, deleted, mac);
      case StartScan =>
      case Pass(links) =>
        PassLinks(s, links, now, mac, handle);
    }
  }

  lemma LinkCloses(s: State, h: nat, mac: Mac, handle: nat)
    requires Distinct(s.slots)
    ensures var i := FindHandle(s.slots, h);
            Closes(s, Disconnected(h), mac, handle) <==>
              h == handle && handle != CONN_HANDLE_NONE && i < |s.slots| && s.slots[i].mac == mac
  {
    var i := FindHandle(s.slots, h);
    hide FindHandle;
    if i < |s.slots| && s.slots[i].mac == mac {
      assert s.slots[i].inUse && s.slots[i].connHandle == h;
    }
  }

  lemma PassLinks(s: State, links: Links, now: nat, mac: Mac, handle: nat)
    requires Timely(s, now) && handle != CONN_HANDLE_NONE
    ensures HasLink(PassOutcome(s.slots, s.lastScan, links, now).slots, mac, handle) <==>
              !TimesOut(s, Pass(links), now, mac) && HasLink(s.slots, mac, handle)
  {
    PassAt(s.slots, s.lastScan, links, now, mac);
    InTime(s, now);
    TimesOutMeans(s, links, now, mac);
    hide PassOutcome, Stale, PollDue, TimesOut;
    if Known(s.slots, mac) {
      var d := At(s.slots, mac).value;
      ActiveIsSeen(s.slots, mac, now);
      hide At;
      StaleMeans(d, now);
      if s.lastScan + 5 <= now && Reachable(d, links) {
        StaleMeans(Refreshed(d, links(d.connHandle).value.1, d.connHandle, now), now);
      }
    }
  }

  lemma TimesOutMeans(s: State, links: Links, now: nat, mac: Mac)
    requires Timely(s, now)
    ensures TimesOut(s, Pass(links), now, mac) <==>
              && Known(s.slots, mac)
              && var d := At(s.slots, mac).value;
                 d.active && now >= d.lastActive + 10 && !(s.lastScan + 5 <= now && Reachable(d, links))
  {
    if Known(s.slots, mac) {
      var d := At(s.slots, mac).value;
      ActiveIsSeen(s.slots, mac, now);
      hide At;
      if d.active {
        assert InRangeSince(s.slots, mac, d.lastActive, d.rssi);
      }
      if s.lastScan + 5 <= now && Reachable(d, links) {
        assert Sees(s, Pass(links), now, mac, links(d.connHandle).value.1);
      }
    }
  }

  // ---- The events of a step ----------------------------------------------------------------------------------

  lemma {:induction false} PolledSends(slots: seq<Slot>, links: Links, now: nat, n: nat, e: Event)
    requires n <= |slots|
    ensures e in Polled(slots, links, now, n).events <==>
              exists k :: 0 <= k < n && PollSends(slots[k], links, e)
  {
    if n > 0 {
      PolledSends(slots, links, now, n - 1, e);
      PolledKeeps(slots, links, now, n - 1);
    }
  }

  predicate PollSends(d: Slot, links: Links, e: Event) {
    && Reachable(d, links)
    && var (peer, rssi) := links(d.connHandle).value;
       e == Rssi(peer, rssi) || (!d.active && e == InRange(d.mac, rssi))
  }

  lemma {:induction false} ExpiredSends(slots: seq<Slot>, now: nat, n: nat, e: Event)
    requires n <= |slots|
    ensures e in Expired(slots, now, n).events <==>
              exists k :: 0 <= k < n && Stale(slots[k], now) && e == OutOfRange(slots[k].mac, 0)
  {
    if n > 0 {
      ExpiredSends(slots, now, n - 1, e);
    }
  }

  /** What a step announces. A device comes into range when it is seen and was not in range; it leaves for
      reason 0 when a pass times it out, and for reason 1 when its bond is deleted while it is in range. */
  lemma {:induction false} EventLaw(s: State, step: Step, now: nat, mac: Mac, rssi: int, reason: nat)
    requires Timely(s, now)
    ensures InRange(mac, rssi) in OutcomeOf(s, step, now).events <==>
              Sees(s, step, now, mac, rssi) && mac !in ActiveSet(s.slots)
    ensures OutOfRange(mac, reason) in OutcomeOf(s, step, now).events <==>
              || (reason == 0 && TimesOut(s, step, now, mac))
              || (reason == 1 && Deletes(step, mac) && mac in ActiveSet(s.slots))
  {
    ActiveIs(s.slots, mac);
    match step {
      case Seed(bonded) =>
      case Advertised(m, r) => hide FindMac, ActiveSet;
      case Encrypted(m, handle, r) =>
        AddedKeeps(s.slots, m);
        AddedAt(s.slots, m, m);
        hide Added, FindMac, ActiveSet;
      case Disconnected(handle) =>
      case DeleteBond(m, deleted) => hide FindMac, ActiveSet;
      case StartScan =>
      case Pass(links) =>
        PassSends(s, links, now, mac, rssi, reason);
    }
  }

  lemma ActiveIs(slots: seq<Slot>, mac: Mac)
    requires Distinct(slots)
    ensures mac in ActiveSet(slots) <==> Known(slots, mac) && At(slots, mac).value.active
  {
    if mac in ActiveSet(slots) {
      var i :| 0 <= i < |slots| && IsActive(slots[i]) && slots[i].mac == mac;
      AtIs(slots, i);
    }
  }

  /** The entries between polling and expiry. */
  function PolledSlots(s: State, links: Links, now: nat): (p: seq<Slot>)
    ensures |p| == |s.slots|
  {
    if PollDue(s.lastScan, now) then Polled(s.slots, links, now, |s.slots|).slots else s.slots
  }

  lemma PassEvents(s: State, links: Links, now: nat, e: Event)
    ensures e in PassOutcome(s.slots, s.lastScan, links, now).events <==>
              || (PollDue(s.lastScan, now) && exists k :: 0 <= k < |s.slots| && PollSends(s.slots[k], links, e))
              || exists k :: 0 <= k < |s.slots| && var p := PolledSlots(s, links, now);
                             Stale(p[k], now) && e == OutOfRange(p[k].mac, 0)
  {
    var p := PolledSlots(s, links, now);
    PolledSends(s.slots, links, now, |s.slots|, e);
    ExpiredSends(p, now, |p|, e);
    hide Polled, Expired, PollSends, Stale, PollDue;
  }

  lemma PassSends(s: State, links: Links, now: nat, mac: Mac, rssi: int, reason: nat)
    requires Timely(s, now)
    ensures InRange(mac, rssi) in PassOutcome(s.slots, s.lastScan, links, now).events <==>
              Sees(s, Pass(links), now, mac, rssi) && mac !in ActiveSet(s.slots)
    ensures OutOfRange(mac, reason) in PassOutcome(s.slots, s.lastScan, links, now).events <==>
              reason == 0 && TimesOut(s, Pass(links), now, mac)
  {
    PassEvents(s, links, now, InRange(mac, rssi));
    PassEvents(s, links, now, OutOfRange(mac, reason));
    PassFinds(s, links, now, mac, rssi);
    PassLoses(s, links, now, mac);
    hide PassOutcome, PolledSlots, Stale, PollDue, ActiveSet, TimesOut, Sees;
  }

  lemma PassFinds(s: State, links: Links, now: nat, mac: Mac, rssi: int)
    requires Timely(s, now)
    ensures PollDue(s.lastScan, now)
            && (exists k :: 0 <= k < |s.slots| && PollSends(s.slots[k], links, InRange(mac, rssi)))
            <==> Sees(s, Pass(links), now, mac, rssi) && mac !in ActiveSet(s.slots)
  {
    InTime(s, now);
    ActiveIs(s.slots, mac);
    hide ActiveSet, PollDue;
    if k :| 0 <= k < |s.slots| && PollSends(s.slots[k], links, InRange(mac, rssi)) {
      AtIs(s.slots, k);
    }
    if Known(s.slots, mac) && Sees(s, Pass(links), now, mac, rssi) && !At(s.slots, mac).value.active {
      assert PollSends(s.slots[FindMac(s.slots, mac)], links, InRange(mac, rssi));
    }
  }

  lemma PassLoses(s: State, links: Links, now: nat, mac: Mac)
    requires Timely(s, now)
    ensures (exists k :: 0 <= k < |s.slots| && var p := PolledSlots(s, links, now);
                         Stale(p[k], now) && p[k].mac == mac)
            <==> TimesOut(s, Pass(links), now, mac)
  {
    var p := PolledSlots(s, links, now);
    InTime(s, now);
    TimesOutMeans(s, links, now, mac);
    forall k | 0 <= k < |s.slots|
      ensures p[k].mac == s.slots[k].mac
      ensures Stale(p[k], now) <==>
                && s.slots[k].inUse && s.slots[k].active && now >= s.slots[k].lastActive + 10
                && !(s.lastScan + 5 <= now && Reachable(s.slots[k], links))
    {
      PolledAt(s.slots, links, now, |s.slots|, k);
      StaleMeans(p[k], now);
    }
    hide PolledSlots, Stale, PollDue, TimesOut, Reachable;
    if k :| 0 <= k < |s.slots| && Stale(p[k], now) && p[k].mac == mac {
      AtIs(s.slots, k);
    }
  }

  /** RSSI is reported of a known device that advertises, and of whomever the stack names at the other end of a
      link that is polled. */
  lemma {:induction false} RssiLaw(s: State, step: Step, now: nat, mac: Mac, rssi: int)
    requires Timely(s, now)
    ensures Rssi(mac, rssi) in OutcomeOf(s, step, now).events <==>
              || (step.Advertised? && Sees(s, step, now, mac, rssi))
              || (step.Pass? && s.lastScan + 5 <= now
                  && exists k :: 0 <= k < |s.slots| && s.slots[k].inUse && s.slots[k].connHandle != CONN_HANDLE_NONE
                                 && step.links(s.slots[k].connHandle) == Some((mac, rssi)))
  {
    InTime(s, now);
    match step {
      case Pass(links) =>
        PassEvents(s, links, now, Rssi(mac, rssi));
        hide PassOutcome, PolledSlots, Stale, PollDue;
        if k :| 0 <= k < |s.slots| && PollSends(s.slots[k], links, Rssi(mac, rssi)) {
          assert links(s.slots[k].connHandle).value == (mac, rssi);
          assert links(s.slots[k].connHandle) == Some((mac, rssi));
        }
        if k :| 0 <= k < |s.slots| && s.slots[k].inUse && s.slots[k].connHandle != CONN_HANDLE_NONE
                && links(s.slots[k].connHandle) == Some((mac, rssi)) {
          assert PollSends(s.slots[k], links, Rssi(mac, rssi));
        }
      case _ =>
        hide FindMac, Added;
    }
  }

  /** A device has an entry from a seed or an encrypted link on, if there is room, until its bond is deleted. */
  lemma {:induction false} KnownLaw(s: State, step: Step, now: nat, mac: Mac)
    requires Timely(s, now)
    ensures var t := OutcomeOf(s, step, now).slots;
            var asks := (step.Seed? && mac in step.bonded) || (step.Encrypted? && step.mac == mac);
      && (Deletes(step, mac) ==> !Known(t, mac))
      && (!Deletes(step, mac) && Known(s.slots, mac) ==> Known(t, mac))
      && (Known(t, mac) && !Known(s.slots, mac) ==> asks)
      && (asks ==> Known(t, mac) || forall d :: d in t ==> d.inUse)
  {
    match step {
      case Seed(bonded) =>
        hide At;
        SeededAt(s.slots, bonded, mac);
      case Advertised(m, r) =>
        MarkedAt(s.slots, m, r, CONN_HANDLE_NONE, now, mac);
        hide FindMac;
      case Encrypted(m, h, r) =>
        AddedKeeps(s.slots, m);
        AddedAt(s.slots, m, mac);
        MarkedAt(Added(s.slots, m), m, r, h, now, mac);
        FullStays(s.slots, m);
        hide FindMac, At, Added;
      case Disconnected(h) =>
        DetachedAt(s.slots, h, mac);
        LinkOwner(s.slots, h);
        hide FindMac, FindHandle, Detached;
      case DeleteBond(m, deleted) =>
        hide At;
        BondDeletedAt(s.slots, m, deleted, mac);
      case StartScan =>
      case Pass(links) =>
        PassAt(s.slots, s.lastScan, links, now, mac);
        hide PassOutcome, At;
    }
  }

  // ---- Whole runs ------------------------------------------------------------------------------------------

  /** The state before step `k` of a run from boot. */
  function StateAt(run: seq<TimedStep>, k: nat): State
    requires k <= |run|
  {
    RunFrom(Boot(), run[..k]).state
  }

  lemma {:induction false} ScanInPast(run: seq<TimedStep>, now: nat)
    requires Monotone(run) && (run != [] ==> run[|run| - 1].now <= now)
    ensures RunFrom(Boot(), run).state.lastScan <= now
  {
    if run != [] {
      var init := run[..|run| - 1];
      assert init != [] ==> init[|init| - 1] == run[|run| - 2];
      ScanInPast(init, now);
    }
  }

  lemma {:induction false} RunTimely(run: seq<TimedStep>, k: nat)
    requires Monotone(run) && k < |run|
    ensures Timely(StateAt(run, k), run[k].now)
  {
    hide RunFrom, Boot;
    var init := run[..k];
    assert init != [] ==> init[|init| - 1] == run[k - 1];
    BootDistinct();
    RunAgrees(Boot(), init);
    RunSeenBy(init, run[k].now);
    ScanInPast(init, run[k].now);
  }

  lemma NextState(run: seq<TimedStep>, k: nat)
    requires k < |run|
    ensures StateAt(run, k + 1).slots == OutcomeOf(StateAt(run, k), run[k].step, run[k].now).slots
    ensures StateAt(run, k + 1).lastScan == LastScanAfter(StateAt(run, k).lastScan, run[k].step, run[k].now)
  {
    assert run[..k + 1][..k] == run[..k];
    hide OutcomeOf;
  }

  /** Step `k` sees the device. */
  ghost predicate SeenAt(run: seq<TimedStep>, k: nat, mac: Mac, rssi: int) {
    k < |run| && Sees(StateAt(run, k), run[k].step, run[k].now, mac, rssi)
  }

  /** Step `i` is the last of the first `n` that sees the device. */
  ghost predicate LastSeen(run: seq<TimedStep>, n: nat, i: nat, mac: Mac, rssi: int) {
    i < n <= |run| && SeenAt(run, i, mac, rssi) && forall k, r :: i < k < n ==> !SeenAt(run, k, mac, r)
  }

  /** Since step `i` its bond is not deleted, and no pass came ten seconds or more later. */
  ghost predicate Kept(run: seq<TimedStep>, n: nat, i: nat, mac: Mac)
    requires i < n <= |run|
  {
    forall k :: i < k < n ==> !Deletes(run[k].step, mac) && (run[k].step.Pass? ==> run[k].now < run[i].now + 10)
  }

  /** The device was seen at time `t` with this RSSI, not again since, and has been kept. */
  ghost predicate SeenAndKept(run: seq<TimedStep>, n: nat, mac: Mac, t: nat, rssi: int)
    requires n <= |run|
  {
    exists i: nat :: LastSeen(run, n, i, mac, rssi) && Kept(run, n, i, mac) && t == run[i].now
  }

  /** In every run in time order a device is in range exactly if it has been seen, its bond has not been deleted
      since it was last seen, and no pass of the task came ten seconds or more after that; and its entry has
      the time and the RSSI of that sighting. */
  lemma {:induction false} InRangeIff(run: seq<TimedStep>, n: nat, mac: Mac, t: nat, rssi: int)
    requires Monotone(run) && n <= |run|
    ensures InRangeSince(StateAt(run, n).slots, mac, t, rssi) <==> SeenAndKept(run, n, mac, t, rssi)
  {
    if n == 0 {
      NobodyAtBoot(run, mac, t, rssi);
    } else {
      var k := n - 1;
      InRangeIff(run, k, mac, t, rssi);
      RunTimely(run, k);
      NextState(run, k);
      PresenceLaw(StateAt(run, k), run[k].step, run[k].now, mac, t, rssi);
      SeeingIsOnly(run, k, mac);
      hide StateAt, Sees, InRangeSince, OutcomeOf, Timely, SeenAndKept, Deletes;
      var s, step, now := StateAt(run, k), run[k].step, run[k].now;
      assert forall r :: SeenAt(run, k, mac, r) == Sees(s, step, now, mac, r);
      hide SeenAt;
      if r :| SeenAt(run, k, mac, r) {
        KeptWhenSeen(run, k, mac, r, t, rssi);
      } else {
        KeptWhenUnseen(run, k, mac, t, rssi);
      }
    }
  }

  lemma SeeingIsOnly(run: seq<TimedStep>, k: nat, mac: Mac)
    requires k < |run|
    ensures (exists r :: SeenAt(run, k, mac, r)) ==> !Deletes(run[k].step, mac)
  {
  }

  lemma KeptWhenSeen(run: seq<TimedStep>, k: nat, mac: Mac, r: int, t: nat, rssi: int)
    requires k < |run| && SeenAt(run, k, mac, r)
    ensures SeenAndKept(run, k + 1, mac, t, rssi) <==> t == run[k].now && SeenAt(run, k, mac, rssi)
  {
    hide SeenAt, Deletes;
    if SeenAt(run, k, mac, rssi) {
      assert LastSeen(run, k + 1, k, mac, rssi) && Kept(run, k + 1, k, mac);
    }
  }

  lemma KeptWhenUnseen(run: seq<TimedStep>, k: nat, mac: Mac, t: nat, rssi: int)
    requires k < |run| && forall r :: !SeenAt(run, k, mac, r)
    ensures SeenAndKept(run, k + 1, mac, t, rssi) <==>
              && SeenAndKept(run, k, mac, t, rssi) && !Deletes(run[k].step, mac)
              && (run[k].step.Pass? ==> run[k].now < t + 10)
  {
    SightingStays(run, k, mac, rssi);
    LastIsBefore(run, k, mac, rssi);
    hide LastSeen, Kept, Deletes, SeenAt;
    if i: nat :| LastSeen(run, k, i, mac, rssi) && Kept(run, k, i, mac) && t == run[i].now {
      assert LastSeen(run, k + 1, i, mac, rssi);
    }
    if i: nat :| LastSeen(run, k + 1, i, mac, rssi) && Kept(run, k + 1, i, mac) && t == run[i].now {
      assert LastSeen(run, k, i, mac, rssi);
    }
  }

  lemma LastIsBefore(run: seq<TimedStep>, n: nat, mac: Mac, rssi: int)
    ensures forall i: nat :: LastSeen(run, n, i, mac, rssi) ==> i < n <= |run|
  {
  }

  lemma NobodyAtBoot(run: seq<TimedStep>, mac: Mac, t: nat, rssi: int)
    ensures !InRangeSince(StateAt(run, 0).slots, mac, t, rssi)
  {
    assert run[..0] == [];
  }

  /** A step that does not see the device leaves its last sighting the last. */
  lemma SightingStays(run: seq<TimedStep>, k: nat, mac: Mac, rssi: int)
    requires k < |run| && forall r :: !SeenAt(run, k, mac, r)
    ensures forall i: nat :: LastSeen(run, k + 1, i, mac, rssi) <==> LastSeen(run, k, i, mac, rssi)
    ensures forall i: nat :: LastSeen(run, k, i, mac, rssi) ==>
              (Kept(run, k + 1, i, mac) <==>
                 Kept(run, k, i, mac) && !Deletes(run[k].step, mac)
                 && (run[k].step.Pass? ==> run[k].now < run[i].now + 10))
  {
    hide SeenAt;
  }

  /** So a device that is seen stays in range for ten seconds, whatever happens but a deletion of its bond. */
  lemma {:induction false} StaysInRange(run: seq<TimedStep>, i: nat, mac: Mac, rssi: int)
    requires Monotone(run) && SeenAt(run, i, mac, rssi)
    requires forall k :: i < k < |run| ==> !Deletes(run[k].step, mac) && run[k].now < run[i].now + 10
    ensures mac in ActiveSet(StateAt(run, |run|).slots)
  {
    var n := |run|;
    var j, r := LastSighting(run, n, i, mac, rssi);
    InRangeIff(run, n, mac, run[j].now, r);
    DistinctAt(run, n);
    ActiveIs(StateAt(run, n).slots, mac);
    hide SeenAt, StateAt, ActiveSet, Deletes, At;
    assert LastSeen(run, n, j, mac, r) && Kept(run, n, j, mac);
  }

  lemma DistinctAt(run: seq<TimedStep>, n: nat)
    requires n <= |run|
    ensures Distinct(StateAt(run, n).slots)
  {
    hide Boot, RunFrom;
    BootDistinct();
    RunAgrees(Boot(), run[..n]);
  }

  lemma {:induction false} LastSighting(run: seq<TimedStep>, n: nat, i: nat, mac: Mac, rssi: int)
    returns (j: nat, r: int)
    requires i < n <= |run| && SeenAt(run, i, mac, rssi)
    ensures i <= j && LastSeen(run, n, j, mac, r)
    decreases n - i
  {
    hide SeenAt;
    if LastSeen(run, n, i, mac, rssi) {
      return i, rssi;
    }
    var k: nat, q :| i < k < n && SeenAt(run, k, mac, q);
    j, r := LastSighting(run, n, k, mac, q);
  }

  /** And it is announced as gone for a timeout exactly by the first pass that does not see it, ten seconds or
      more after it was last seen. */
  lemma {:induction false} TimeoutIff(run: seq<TimedStep>, n: nat, mac: Mac)
    requires Monotone(run) && n < |run|
    ensures OutOfRange(mac, 0) in OutcomeOf(StateAt(run, n), run[n].step, run[n].now).events <==>
              && run[n].step.Pass? && (forall r :: !SeenAt(run, n, mac, r))
              && exists i: nat, r :: LastSeen(run, n, i, mac, r) && Kept(run, n, i, mac)
                                     && run[n].now >= run[i].now + 10
  {
    var s, step, now := StateAt(run, n), run[n].step, run[n].now;
    RunTimely(run, n);
    EventLaw(s, step, now, mac, 0, 0);
    forall t: nat, r ensures InRangeSince(s.slots, mac, t, r) <==> SeenAndKept(run, n, mac, t, r) {
      InRangeIff(run, n, mac, t, r);
    }
    LastIsNoted(run, n, mac);
    hide StateAt, Sees, InRangeSince, OutcomeOf, Timely, LastSeen, Kept, SeenAndKept;
    assert forall r :: SeenAt(run, n, mac, r) == Sees(s, step, now, mac, r);
    if t: nat, r :| InRangeSince(s.slots, mac, t, r) && now >= t + 10 {
      assert SeenAndKept(run, n, mac, t, r);
    }
    if i: nat, r :| LastSeen(run, n, i, mac, r) && Kept(run, n, i, mac) && now >= run[i].now + 10 {
      assert InRangeSince(s.slots, mac, run[i].now, r);
    }
  }

  lemma LastIsNoted(run: seq<TimedStep>, n: nat, mac: Mac)
    requires n <= |run|
    ensures forall i: nat, r :: LastSeen(run, n, i, mac, r) && Kept(run, n, i, mac) ==>
              SeenAndKept(run, n, mac, run[i].now, r)
    ensures forall t: nat, r :: SeenAndKept(run, n, mac, t, r) ==>
              exists i: nat :: LastSeen(run, n, i, mac, r) && Kept(run, n, i, mac) && t == run[i].now
  {
  }

  // ---- When the task polls ---------------------------------------------------------------------------------

  /** The pass polls: five seconds after boot, and after the last pass that did since scanning was started. */
  ghost predicate Polls(run: seq<TimedStep>, k: nat)
    requires k < |run|
    decreases k
  {
    && run[k].step.Pass? && 5 <= run[k].now
    && forall j :: 0 <= j < k && Polls(run, j) && NoStart(run, j, k) ==> run[j].now + 5 <= run[k].now
  }

  lemma {:induction false} PollsIff(run: seq<TimedStep>, k: nat)
    requires Monotone(run) && k < |run|
    ensures Polls(run, k) <==> run[k].step.Pass? && StateAt(run, k).lastScan + 5 <= run[k].now
    decreases k, 1
  {
    ScanTime(run, k);
    hide StateAt;
  }

  /** No scan is started between two steps. */
  ghost predicate NoStart(run: seq<TimedStep>, j: nat, k: nat)
    requires k <= |run|
  {
    forall l :: j < l < k ==> !run[l].step.StartScan?
  }

  /** The time of the last poll since scanning was started, or 0. */
  ghost predicate ScannedAt(run: seq<TimedStep>, k: nat, last: nat)
    requires k <= |run|
    decreases k, 0
  {
    && (forall j :: 0 <= j < k && Polls(run, j) && NoStart(run, j, k) ==> run[j].now <= last)
    && (last == 0 || exists j :: 0 <= j < k && Polls(run, j) && run[j].now == last && NoStart(run, j, k))
  }

  /** What a poll, a pass that does not poll or another step, and a new scan make of that time. */
  lemma ScannedNext(run: seq<TimedStep>, i: nat, last: nat)
    requires Monotone(run) && i < |run| && ScannedAt(run, i, last)
    ensures ScannedAt(run, i + 1, if run[i].step.StartScan? then 0 else if Polls(run, i) then run[i].now else last)
  {
    PollIsPass(run, i);
    if run[i].step.StartScan? {
      ScannedAnew(run, i);
    } else if Polls(run, i) {
      ScannedNow(run, i);
    } else {
      ScannedStays(run, i, last);
    }
    hide Polls, ScannedAt;
  }

  lemma ScannedAnew(run: seq<TimedStep>, i: nat)
    requires i < |run| && run[i].step.StartScan?
    ensures ScannedAt(run, i + 1, 0)
  {
    NoStartNext(run, i);
    PollIsPass(run, i);
    hide Polls, NoStart;
  }

  lemma ScannedNow(run: seq<TimedStep>, i: nat)
    requires Monotone(run) && i < |run| && Polls(run, i)
    ensures ScannedAt(run, i + 1, run[i].now)
  {
    NoStartNext(run, i);
    hide Polls, NoStart;
    assert NoStart(run, i, i + 1);
  }

  lemma ScannedStays(run: seq<TimedStep>, i: nat, last: nat)
    requires i < |run| && ScannedAt(run, i, last) && !run[i].step.StartScan? && !Polls(run, i)
    ensures ScannedAt(run, i + 1, last)
  {
    NoStartNext(run, i);
    hide Polls, NoStart;
    forall j | 0 <= j < i + 1 && Polls(run, j) && NoStart(run, j, i + 1) ensures run[j].now <= last {
      assert j < i && NoStart(run, j, i);
    }
    if last != 0 {
      var j :| 0 <= j < i && Polls(run, j) && run[j].now == last && NoStart(run, j, i);
      assert NoStart(run, j, i + 1);
    }
  }

  lemma NoStartNext(run: seq<TimedStep>, i: nat)
    requires i < |run|
    ensures forall j :: 0 <= j < i ==> (NoStart(run, j, i + 1) <==> NoStart(run, j, i) && !run[i].step.StartScan?)
    ensures NoStart(run, i, i + 1)
  {
    forall j | 0 <= j < i ensures NoStart(run, j, i + 1) <==> NoStart(run, j, i) && !run[i].step.StartScan? {
      if NoStart(run, j, i) && !run[i].step.StartScan? {
        forall l | j < l < i + 1 ensures !run[l].step.StartScan? {
        }
      }
    }
  }

  lemma PollIsPass(run: seq<TimedStep>, i: nat)
    requires i < |run|
    ensures Polls(run, i) ==> run[i].step.Pass?
  {
  }

  lemma {:induction false} ScanTime(run: seq<TimedStep>, k: nat)
    requires Monotone(run) && k < |run|
    ensures ScannedAt(run, k, StateAt(run, k).lastScan)
    decreases k, 0
  {
    if k == 0 {
      assert run[..0] == [];
    } else {
      var i := k - 1;
      ScanTime(run, i);
      PollsIff(run, i);
      NextState(run, i);
      RunTimely(run, i);
      InTime(StateAt(run, i), run[i].now);
      ScannedNext(run, i, StateAt(run, i).lastScan);
      hide StateAt, Polls, PollDue, Timely, ScannedAt;
    }
  }

  // ---- Which link a device is polled over --------------------------------------------------------------------

  ghost predicate LinkedAt(run: seq<TimedStep>, k: nat, mac: Mac, handle: nat) {
    k < |run| && LinksOver(StateAt(run, k), run[k].step, mac, handle)
  }

  /** What step `k` does not do to the link of a device. */
  ghost predicate LeavesLink(run: seq<TimedStep>, k: nat, mac: Mac, handle: nat)
    requires k < |run|
  {
    var s := StateAt(run, k);
    && !Deletes(run[k].step, mac) && !TimesOut(s, run[k].step, run[k].now, mac)
    && !Closes(s, run[k].step, mac, handle) && forall h :: !LinkedAt(run, k, mac, h)
  }

  /** The device was linked by one of the first `n` steps, and none since has touched its link. */
  ghost predicate Linked(run: seq<TimedStep>, n: nat, mac: Mac, handle: nat)
    requires n <= |run|
  {
    exists i: nat :: i < n && LinkedAt(run, i, mac, handle) && LinkKept(run, i, n, mac, handle)
  }

  ghost predicate LinkKept(run: seq<TimedStep>, i: nat, n: nat, mac: Mac, handle: nat)
    requires n <= |run|
  {
    forall k :: i < k < n ==> LeavesLink(run, k, mac, handle)
  }

  /** The handle in the entry of a device is that of the last encrypted link it had, and is there exactly until
      the link is closed, the device times out or its bond is deleted. */
  lemma {:induction false} LinkIff(run: seq<TimedStep>, n: nat, mac: Mac, handle: nat)
    requires Monotone(run) && n <= |run| && handle != CONN_HANDLE_NONE
    ensures HasLink(StateAt(run, n).slots, mac, handle) <==> Linked(run, n, mac, handle)
  {
    if n == 0 {
      assert run[..0] == [];
    } else {
      var k := n - 1;
      LinkIff(run, k, mac, handle);
      RunTimely(run, k);
      NextState(run, k);
      LinkLaw(StateAt(run, k), run[k].step, run[k].now, mac, handle);
      LinkingIsOnly(StateAt(run, k), run[k].step, run[k].now, mac, handle);
      LinkedNext(run, k, mac, handle);
      hide StateAt, LinksOver, HasLink, OutcomeOf, Timely, TimesOut, Closes, Deletes, Linked;
      var s, step := StateAt(run, k), run[k].step;
      assert forall h :: LinkedAt(run, k, mac, h) == LinksOver(s, step, mac, h);
    }
  }

  lemma LinkedNext(run: seq<TimedStep>, k: nat, mac: Mac, handle: nat)
    requires k < |run|
    ensures Linked(run, k + 1, mac, handle) <==>
              LinkedAt(run, k, mac, handle) || (Linked(run, k, mac, handle) && LeavesLink(run, k, mac, handle))
  {
    hide LinkedAt, LeavesLink;
    if LinkedAt(run, k, mac, handle) {
      assert LinkKept(run, k, k + 1, mac, handle);
    }
    if Linked(run, k, mac, handle) && LeavesLink(run, k, mac, handle) {
      var i: nat :| i < k && LinkedAt(run, i, mac, handle) && LinkKept(run, i, k, mac, handle);
      assert LinkKept(run, i, k + 1, mac, handle);
    }
  }

  /** A step that encrypts a link does nothing else to one. */
  lemma LinkingIsOnly(s: State, step: Step, now: nat, mac: Mac, handle: nat)
    ensures (exists h :: LinksOver(s, step, mac, h)) ==>
              !Deletes(step, mac) && !TimesOut(s, step, now, mac) && !Closes(s, step, mac, handle)
  {
  }
}
