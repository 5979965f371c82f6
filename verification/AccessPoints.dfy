/** The table of access points found by scanning, access_point.c. */
module AccessPoints {
  /** A hardware address; zero is the cleared one. */
  type Mac = nat

  const MAX_AP := 32
  const TIMEOUT := 13 * 2 + 1

  datatype Slot = Slot(active: bool, bssid: Mac, timectr: nat, rssi: int)

  /** The first slot below n with this address, or n. */
  function Match(s: seq<Slot>, b: Mac, n: nat): (i: nat)
    requires n <= |s|
    ensures i <= n && (forall j | 0 <= j < i :: s[j].bssid != b) && (i < n ==> s[i].bssid == b)
  {
    if n == 0 then 0
    else var i := Match(s, b, n - 1); if i < n - 1 then i else if s[n - 1].bssid == b then n - 1 else n
  }

  ghost predicate FirstUnused(s: seq<Slot>, i: nat) {
    i < |s| && !s[i].active && forall j | 0 <= j < i :: s[j].active
  }

  /** No slot was updated longer ago, and none before it as long ago. */
  ghost predicate Oldest(s: seq<Slot>, i: nat) {
    && i < |s| && (forall j | 0 <= j < |s| :: s[j].timectr <= s[i].timectr)
    && forall j | 0 <= j < i :: s[j].timectr < s[i].timectr
  }

  /** The slot for an address: its own, or the first unused one, or else the oldest. */
  ghost predicate Chosen(s: seq<Slot>, b: Mac, i: nat) {
    if Match(s, b, |s|) < |s| then i == Match(s, b, |s|)
    else if exists j | 0 <= j < |s| :: !s[j].active then FirstUnused(s, i)
    else Oldest(s, i)
  }

  /** Every active slot is the first one with its address. */
  ghost predicate Identified(s: seq<Slot>) {
    forall i, j | 0 <= j < i < |s| && s[i].active :: s[j].bssid != s[i].bssid
  }

  /** A slot after a beacon: rssi is none where the beacon gives no valid value. */
  function Updated(before: Slot, known: bool, b: Mac, rssi: int, valid: bool): Slot {
    Slot(true, if known then before.bssid else b, 0, if valid then rssi else if known then before.rssi else 0)
  }

  class Table {
    const slots: array<Slot>

    ghost predicate Valid()
      reads slots
    {
      slots.Length == MAX_AP && Identified(slots[..])
    }

    /** Wifi_AccessPointClearAll. */
    method ClearAll()
      requires slots.Length == MAX_AP
      modifies slots
      ensures Valid() && forall i | 0 <= i < MAX_AP :: slots[i] == old(slots[i]).(active := false, bssid := 0)
    {
      for i := 0 to MAX_AP
        invariant forall j | 0 <= j < i :: slots[j] == old(slots[j]).(active := false, bssid := 0)
        invariant forall j | i <= j < MAX_AP :: slots[j] == old(slots[j])
      {
        slots[i] := slots[i].(active := false, bssid := 0);
      }
    }

    /** The search for the slot of a beacon. */
    method Choose(b: Mac) returns (chosen: nat, known: bool)
      requires slots.Length == MAX_AP
      ensures Chosen(slots[..], b, chosen) && chosen < MAX_AP && (known <==> Match(slots[..], b, MAX_AP) < MAX_AP)
    {
      var slot := -1;
      known := false;
      var i := 0;
      while i < MAX_AP && !known
        invariant 0 <= i <= MAX_AP
        invariant !known ==> forall j | 0 <= j < i :: slots[j].bssid != b
        invariant !known ==> if slot == -1 then forall j | 0 <= j < i :: slots[j].active
          else 0 <= slot < i && FirstUnused(slots[..], slot)
        invariant known ==> slot == i < MAX_AP && slots[i].bssid == b && forall j | 0 <= j < i :: slots[j].bssid != b
        decreases MAX_AP - i, !known
      {
        if slots[i].bssid != b {
          if !slots[i].active {
            if slot == -1 {
              slot := i;
            }
          }
          i := i + 1;
        } else {
          known := true;
          slot := i;
        }
      }
      if !known && slot == -1 {
        slot := FindOldest();
      }
      chosen := slot;
    }

    /** The loop that looks for the longest time without an update. */
    method FindOldest() returns (slot: nat)
      requires slots.Length == MAX_AP
      ensures slot < MAX_AP && Oldest(slots[..], slot)
    {
      var max := 0;
      slot := 0;
      for i := 0 to MAX_AP
        invariant slot < MAX_AP && forall j | 0 <= j < i :: slots[j].timectr <= max
        invariant if max == 0 then slot == 0 else slot < i && slots[slot].timectr == max
        invariant forall j | 0 <= j < slot :: slots[j].timectr < max
      {
        if slots[i].timectr > max {
          max := slots[i].timectr;
          slot := i;
        }
      }
    }

    /** Wifi_AccessPointAdd: locked says whether the lock of the chosen slot was free. */
    method Add(b: Mac, rssi: int, valid: bool, locked: bool) returns (chosen: nat)
      requires Valid()
      modifies slots
      ensures Valid() && Chosen(old(slots[..]), b, chosen) && chosen < MAX_AP
      ensures !locked ==> slots[..] == old(slots[..])
      ensures locked ==>
        slots[..] == old(slots[..])[chosen := Updated(old(slots[chosen]), Match(old(slots[..]), b, MAX_AP) < MAX_AP, b, rssi, valid)]
    {
      var known;
      chosen, known := Choose(b);
      if locked {
        AddKeepsIdentity(slots[..], b, chosen, Updated(slots[chosen], known, b, rssi, valid));
        slots[chosen] := Updated(slots[chosen], known, b, rssi, valid);
      }
    }

    /** Wifi_AccessPointTick. */
    method Tick(dsiMode: bool)
      requires Valid()
      modifies slots
      ensures Valid()
      ensures forall i | 0 <= i < MAX_AP :: slots[i] == Ticked(old(slots[i]), if dsiMode then 10 * TIMEOUT else TIMEOUT)
      ensures forall i | 0 <= i < MAX_AP && slots[i].active :: slots[i].timectr <= if dsiMode then 10 * TIMEOUT else TIMEOUT
    {
      var timeout := if dsiMode then 10 * TIMEOUT else TIMEOUT;
      for i := 0 to MAX_AP
        invariant forall j | 0 <= j < i :: slots[j] == Ticked(old(slots[j]), timeout)
        invariant forall j | i <= j < MAX_AP :: slots[j] == old(slots[j])
      {
        if slots[i].active {
          slots[i] := slots[i].(timectr := slots[i].timectr + 1);
          if slots[i].timectr > timeout {
            slots[i] := slots[i].(active := false);
          }
        }
      }
      assert forall i | 0 <= i < MAX_AP :: slots[i].bssid == old(slots[i]).bssid && (slots[i].active ==> old(slots[i]).active);
    }
  }

  function Ticked(s: Slot, timeout: nat): Slot {
    if s.active then s.(timectr := s.timectr + 1, active := s.timectr + 1 <= timeout) else s
  }

  /** Whatever slot is chosen, and whoever is evicted, addresses stay unique among the active. */
  lemma AddKeepsIdentity(s: seq<Slot>, b: Mac, i: nat, x: Slot)
    requires Identified(s) && i < |s| && Chosen(s, b, i) && x.bssid == b
    ensures Identified(s[i := x])
  {
    if Match(s, b, |s|) == |s| {
      assert forall j | 0 <= j < |s| :: s[j].bssid != b;
    }
  }

  /** In a cleared table of 32 slots the first new address goes into the first slot. */
  lemma FirstSlotFirst(s: seq<Slot>, b: Mac, i: nat)
    requires |s| == MAX_AP && Chosen(s, b, i) && forall j | 0 <= j < |s| :: !s[j].active && s[j].bssid != b
    ensures i == 0 && |s| == 32
  {
    assert !s[0].active;
  }

  /** So no two active slots have the same address. */
  lemma ActiveUnique(s: seq<Slot>, i: nat, j: nat)
    requires Identified(s) && i < |s| && j < |s| && s[i].active && s[j].active && s[i].bssid == s[j].bssid
    ensures i == j
  {}

  /** Only a full table evicts, and never a slot updated later than another. */
  lemma EvictsOldest(s: seq<Slot>, b: Mac, i: nat)
    requires Chosen(s, b, i) && i < |s| && s[i].active && s[i].bssid != b
    ensures forall j | 0 <= j < |s| :: s[j].active && s[j].timectr <= s[i].timectr
  {}

  /** A beacon makes its slot active and current. A known address keeps its signal strength unless the beacon brings a
      valid one; a new one starts from the value of the beacon, or from zero. */
  lemma BeaconStores(before: Slot, b: Mac, rssi: int)
    ensures forall known, valid :: var x := Updated(before, known, b, rssi, valid); x.active && x.timectr == 0
    ensures Updated(before, true, b, rssi, true) == Slot(true, before.bssid, 0, rssi)
    ensures Updated(before, true, b, rssi, false) == Slot(true, before.bssid, 0, before.rssi)
    ensures Updated(before, false, b, rssi, true) == Slot(true, b, 0, rssi)
    ensures Updated(before, false, b, rssi, false) == Slot(true, b, 0, 0)
  {}

  /** n ticks on one slot. */
  function TickedTimes(s: Slot, timeout: nat, n: nat): Slot {
    if n == 0 then s else Ticked(TickedTimes(s, timeout, n - 1), timeout)
  }

  /** Without another beacon an access point stays for as many ticks as the timeout says, and not for one more. */
  lemma {:induction false} StaysUntilTimeout(s: Slot, timeout: nat, n: nat)
    requires s.active && s.timectr == 0
    ensures TickedTimes(s, timeout, n).active <==> n <= timeout
    ensures n <= timeout ==> TickedTimes(s, timeout, n).timectr == n
  {
    if n > 0 {
      StaysUntilTimeout(s, timeout, n - 1);
    }
  }

  /** In both modes: 27 ticks, or 270. */
  lemma Timeouts(s: Slot, n: nat)
    requires s.active && s.timectr == 0
    ensures TickedTimes(s, TIMEOUT, n).active <==> n <= 27
    ensures TickedTimes(s, 10 * TIMEOUT, n).active <==> n <= 270
  {
    hide Ticked;
    StaysUntilTimeout(s, TIMEOUT, n);
    StaysUntilTimeout(s, 10 * TIMEOUT, n);
  }

  // ----- runs

  /** What happens to the table: it is cleared, a beacon arrives while its slot is locked or not, or time passes. */
  datatype Event = Clear | Beacon(b: Mac, rssi: int, valid: bool, locked: bool) | Tick(dsiMode: bool)

  /** How many ticks ago the last beacon of an address was taken in, or -1 if none was since the table was cleared. */
  function Age(events: seq<Event>, b: Mac): (a: int)
    ensures a >= -1
  {
    if events == [] then -1 else
    var before := Age(events[..|events| - 1], b);
    match events[|events| - 1]
    case Clear => -1
    case Beacon(x, _, _, locked) => if locked && x == b then 0 else before
    case Tick(_) => if before < 0 then -1 else before + 1
  }

  /** The longest that an access point can stay without a beacon. */
  function Limit(events: seq<Event>): nat {
    if Tick(true) in events then 10 * TIMEOUT else TIMEOUT
  }

  /** Every active slot counts the ticks since the last beacon of its address, and none counts past the limit. */
  ghost predicate Current(s: seq<Slot>, events: seq<Event>) {
    forall i | 0 <= i < |s| && s[i].active :: s[i].timectr == Age(events, s[i].bssid) && s[i].timectr <= Limit(events)
  }

  lemma LimitGrows(events: seq<Event>, e: Event)
    ensures Limit(events) <= Limit(events + [e])
    ensures e.Tick? ==> (if e.dsiMode then 10 * TIMEOUT else TIMEOUT) <= Limit(events + [e])
  {
    assert Tick(true) in events + [e] <==> Tick(true) in events || Tick(true) == e;
  }

  lemma AgeNext(events: seq<Event>, e: Event, b: Mac)
    ensures Age(events + [e], b) == match e
      case Clear => -1
      case Beacon(x, _, _, locked) => if locked && x == b then 0 else Age(events, b)
      case Tick(_) => if Age(events, b) < 0 then -1 else Age(events, b) + 1
  {
    assert (events + [e])[..|events|] == events;
  }

  lemma BeaconCurrent(s: seq<Slot>, events: seq<Event>, e: Event, i: nat, x: Slot)
    requires e.Beacon? && e.locked && Current(s, events) && Identified(s) && i < |s| && Chosen(s, e.b, i) && x.bssid == e.b && x.timectr == 0
    ensures Current(s[i := x], events + [e])
  {
    hide Age, Limit;
    LimitGrows(events, e);
    var s' := s[i := x];
    forall j | 0 <= j < |s'| && s'[j].active
      ensures s'[j].timectr == Age(events + [e], s'[j].bssid) && s'[j].timectr <= Limit(events + [e])
    {
      AgeNext(events, e, s'[j].bssid);
    }
  }

  lemma IgnoredCurrent(s: seq<Slot>, events: seq<Event>, e: Event)
    requires e.Beacon? && !e.locked && Current(s, events)
    ensures Current(s, events + [e])
  {
    hide Age, Limit;
    LimitGrows(events, e);
    forall j | 0 <= j < |s| && s[j].active ensures s[j].timectr == Age(events + [e], s[j].bssid) {
      AgeNext(events, e, s[j].bssid);
    }
  }

  lemma TickCurrent(s: seq<Slot>, s': seq<Slot>, events: seq<Event>, e: Event)
    requires e.Tick? && Current(s, events) && |s'| == |s|
    requires forall i | 0 <= i < |s| :: s'[i] == Ticked(s[i], if e.dsiMode then 10 * TIMEOUT else TIMEOUT)
    ensures Current(s', events + [e])
  {
    hide Age, Limit;
    LimitGrows(events, e);
    forall j | 0 <= j < |s'| && s'[j].active
      ensures s'[j].timectr == Age(events + [e], s'[j].bssid) && s'[j].timectr <= Limit(events + [e])
    {
      AgeNext(events, e, s'[j].bssid);
    }
  }

  /** Any run of events: no two active slots ever have the same address, and whatever is active was heard
      of within the time limit, as many ticks ago as its counter says. */
  method Observe(t: Table, events: seq<Event>)
    requires t.slots.Length == MAX_AP
    modifies t.slots
    ensures t.Valid() && Current(t.slots[..], events)
    ensures forall i, j | 0 <= i < MAX_AP && 0 <= j < MAX_AP && t.slots[i].active && t.slots[j].active && i != j :: t.slots[i].bssid != t.slots[j].bssid
  {
    hide Age, Limit, Chosen, Identified;
    t.ClearAll();
    for n := 0 to |events|
      invariant t.Valid() && Current(t.slots[..], events[..n])
    {
      var e := events[n];
      assert events[..n + 1] == events[..n] + [e];
      Take(t, events[..n], e);
    }
    assert events[..|events|] == events;
    forall i, j | 0 <= i < MAX_AP && 0 <= j < MAX_AP && t.slots[i].active && t.slots[j].active && i != j
      ensures t.slots[i].bssid != t.slots[j].bssid
    {
      if t.slots[i].bssid == t.slots[j].bssid {
        ActiveUnique(t.slots[..], i, j);
      }
    }
  }

  method Take(t: Table, ghost before: seq<Event>, e: Event)
    requires t.Valid() && Current(t.slots[..], before)
    modifies t.slots
    ensures t.Valid() && Current(t.slots[..], before + [e])
  {
    hide Age, Limit, Chosen, Identified;
    ghost var s := t.slots[..];
    match e {
      case Clear =>
        t.ClearAll();
      case Beacon(b, rssi, valid, locked) =>
        var i := t.Add(b, rssi, valid, locked);
        if locked {
          BeaconCurrent(s, before, e, i, t.slots[i]);
        } else {
          IgnoredCurrent(s, before, e);
        }
      case Tick(dsiMode) =>
        t.Tick(dsiMode);
        TickCurrent(s, t.slots[..], before, e);
    }
  }
}
