// The table of Wi-Fi interfaces, filled by the messages of a netlink dump.
module InterfaceTable {
  import opened CString
  import opened Numerals

  const WIFI_RADIO_MAX: nat := 2
  const RADIO_IFNAME_SIZE: nat := 16
  const RADIO_PHYNAME_SIZE: nat := 8

  // One message of the dump; it may come without a physical device.
  datatype Msg = Msg(name: string, ifindex: int, phy: Option<int>)

  // The slots of the table; a free slot has the empty name.
  datatype Table = Table(names: seq<string>, indexes: seq<int>, phys: seq<string>, amount: nat)

  predicate Shaped(t: Table) {
    |t.names| == |t.indexes| == |t.phys| == WIFI_RADIO_MAX
  }

  const ATTACHED: Table := Table(["", ""], [-1, -1], ["", ""], 0)

  // What snprintf leaves in a buffer of the given size.
  function Clip(text: string, size: nat): string
    requires size > 0
  {
    if |text| < size then text else text[..size - 1]
  }

  // strncmp up to the length of the new name: a stored name counts as known if it extends it.
  predicate Known(names: seq<string>, name: string) {
    exists x :: 0 <= x < |names| && name <= names[x]
  }

  // The handler's work on one slot.
  function Slot(t: Table, m: Msg, i: nat): (r: Table)
    requires Shaped(t) && i < WIFI_RADIO_MAX
    ensures Shaped(r)
  {
    if Known(t.names, m.name) then t
    else
      var t := if t.names[i] == ""
               then t.(names := t.names[i := Clip(m.name, RADIO_IFNAME_SIZE)], indexes := t.indexes[i := m.ifindex])
               else t;
      if t.phys[i] == "" && m.phy.Some?
      then t.(phys := t.phys[i := Clip(Decimal(m.phy.value), RADIO_PHYNAME_SIZE)], amount := t.amount + 1)
      else t
  }

  function HandleFrom(t: Table, m: Msg, i: nat): (r: Table)
    requires Shaped(t) && i <= WIFI_RADIO_MAX
    ensures Shaped(r)
    decreases WIFI_RADIO_MAX - i
  {
    if i == WIFI_RADIO_MAX then t else HandleFrom(Slot(t, m, i), m, i + 1)
  }

  // wifi_hal_ifname_resp_hdlr.
  function Handle(t: Table, m: Msg): (r: Table)
    requires Shaped(t)
    ensures Shaped(r)
  {
    HandleFrom(t, m, 0)
  }

  function Dump(t: Table, ms: seq<Msg>): (r: Table)
    requires Shaped(t)
    ensures Shaped(r)
  {
    if ms == [] then t else Handle(Dump(t, ms[..|ms| - 1]), ms[|ms| - 1])
  }

  // The filled slots come first and are counted; their names are distinct and fit their buffers.
  predicate WellFormed(t: Table) {
    && Shaped(t) && t.amount <= WIFI_RADIO_MAX
    && (forall i :: 0 <= i < WIFI_RADIO_MAX ==> |t.names[i]| < RADIO_IFNAME_SIZE)
    && (forall i :: 0 <= i < t.amount ==> t.names[i] != "" && t.phys[i] != "")
    && (forall i :: t.amount <= i < WIFI_RADIO_MAX ==> t.names[i] == "" && t.phys[i] == "")
    && forall i, j :: 0 <= i < j < t.amount ==> t.names[i] != t.names[j]
  }

  predicate Full(t: Table) {
    t.amount == WIFI_RADIO_MAX
  }

  // A message as the kernel sends it: interface names are shorter than the buffer.
  predicate Complete(m: Msg) {
    m.phy.Some? && |m.name| < RADIO_IFNAME_SIZE
  }

  function Stored(t: Table, m: Msg): Table
    requires Shaped(t) && !Full(t) && t.amount <= WIFI_RADIO_MAX && m.phy.Some?
  {
    var i := t.amount;
    Table(t.names[i := m.name], t.indexes[i := m.ifindex],
          t.phys[i := Clip(Decimal(m.phy.value), RADIO_PHYNAME_SIZE)], i + 1)
  }

  lemma {:induction false} KnownStays(t: Table, m: Msg, i: nat)
    requires Shaped(t) && i <= WIFI_RADIO_MAX && Known(t.names, m.name)
    ensures HandleFrom(t, m, i) == t
    decreases WIFI_RADIO_MAX - i
  {
    if i < WIFI_RADIO_MAX {
      KnownStays(t, m, i + 1);
    }
  }

  lemma {:induction false} PassFilled(t: Table, m: Msg, i: nat)
    requires WellFormed(t) && i <= t.amount && !Known(t.names, m.name)
    ensures HandleFrom(t, m, i) == HandleFrom(t, m, t.amount)
    decreases t.amount - i
  {
    if i < t.amount {
      assert Slot(t, m, i) == t;
      PassFilled(t, m, i + 1);
    }
  }

  // A complete message fills the first free slot if no stored name extends its name, and
  // otherwise changes nothing.
  lemma HandleMeans(t: Table, m: Msg)
    requires WellFormed(t) && Complete(m)
    ensures Handle(t, m) == if Known(t.names, m.name) || Full(t) then t else Stored(t, m)
  {
    hide HandleFrom, Decimal;
    if Known(t.names, m.name) {
      KnownStays(t, m, 0);
    } else {
      PassFilled(t, m, 0);
      HandleAtEnd(t, m);
    }
  }

  lemma HandleAtEnd(t: Table, m: Msg)
    requires WellFormed(t) && Complete(m) && !Known(t.names, m.name)
    ensures HandleFrom(t, m, t.amount) == if Full(t) then t else Stored(t, m)
  {
    hide Decimal;
    if !Full(t) {
      var i := t.amount;
      var r := Slot(t, m, i);
      assert m.name <= m.name;
      assert r.names[i] == m.name;
      assert Known(r.names, m.name);
      KnownStays(r, m, i + 1);
    }
  }

  lemma HandleKeepsForm(t: Table, m: Msg)
    requires WellFormed(t) && Complete(m)
    ensures WellFormed(Handle(t, m))
  {
    hide Handle;
    HandleMeans(t, m);
    if !Known(t.names, m.name) && !Full(t) {
      var r := Stored(t, m);
      assert forall x :: 0 <= x < t.amount ==> !(m.name <= t.names[x]);
      assert forall x :: 0 <= x < t.amount ==> t.names[x] != m.name;
      EmptyKnown(t.names);
      assert m.name != "";
      assert Decimal(m.phy.value) != "";
    }
  }

  lemma EmptyKnown(names: seq<string>)
    requires names != []
    ensures Known(names, "")
  {
    assert "" <= names[0];
  }

  // Whatever is dumped, the filled slots form a prefix as long as the count says, within the
  // table, and no interface is listed twice.
  lemma {:induction false} DumpKeepsForm(t: Table, ms: seq<Msg>)
    requires Shaped(t) && WellFormed(t) && forall k :: 0 <= k < |ms| ==> Complete(ms[k])
    ensures WellFormed(Dump(t, ms))
  {
    hide Handle, WellFormed;
    if ms != [] {
      DumpKeepsForm(t, ms[..|ms| - 1]);
      HandleKeepsForm(Dump(t, ms[..|ms| - 1]), ms[|ms| - 1]);
    }
  }

  // A message that would change nothing.
  predicate Spent(t: Table, m: Msg) {
    Known(t.names, m.name) || Full(t)
  }

  lemma HandleSpends(t: Table, m: Msg, other: Msg)
    requires WellFormed(t) && Complete(m)
    ensures Spent(Handle(t, m), m)
    ensures Spent(t, other) ==> Spent(Handle(t, m), other)
  {
    hide Handle;
    HandleMeans(t, m);
    if !Spent(t, m) {
      var r := Stored(t, m);
      assert m.name <= r.names[t.amount];
      if Known(t.names, other.name) {
        var x :| 0 <= x < |t.names| && other.name <= t.names[x];
        if x < t.amount {
          assert other.name <= r.names[x];
        } else {
          EmptyKnown(r.names);
          assert other.name == "";
        }
      }
    }
  }

  lemma {:induction false} DumpSpends(t: Table, ms: seq<Msg>)
    requires Shaped(t) && WellFormed(t) && forall k :: 0 <= k < |ms| ==> Complete(ms[k])
    ensures forall k :: 0 <= k < |ms| ==> Spent(Dump(t, ms), ms[k])
  {
    hide Handle, WellFormed, Spent;
    if ms != [] {
      var before := ms[..|ms| - 1];
      DumpKeepsForm(t, before);
      DumpSpends(t, before);
      forall k | 0 <= k < |ms|
        ensures Spent(Dump(t, ms), ms[k])
      {
        HandleSpends(Dump(t, before), ms[|ms| - 1], ms[k]);
        if k < |before| {
          assert before[k] == ms[k];
        }
      }
    }
  }

  lemma {:induction false} SpentDumpStays(t: Table, ms: seq<Msg>)
    requires WellFormed(t) && forall k :: 0 <= k < |ms| ==> Complete(ms[k]) && Spent(t, ms[k])
    ensures Dump(t, ms) == t
  {
    hide Handle;
    if ms != [] {
      SpentDumpStays(t, ms[..|ms| - 1]);
      HandleMeans(t, ms[|ms| - 1]);
    }
  }

  // Replaying a dump leaves the table as it is.
  lemma ReplayStays(t: Table, ms: seq<Msg>)
    requires Shaped(t) && WellFormed(t) && forall k :: 0 <= k < |ms| ==> Complete(ms[k])
    ensures Dump(Dump(t, ms), ms) == Dump(t, ms)
  {
    hide Dump, WellFormed, Spent, Complete;
    DumpKeepsForm(t, ms);
    DumpSpends(t, ms);
    SpentDumpStays(Dump(t, ms), ms);
  }

  // From the state at attach: any dump leaves a well-formed table, and dumping it again nothing new.
  lemma AttachedDump(ms: seq<Msg>)
    requires forall k :: 0 <= k < |ms| ==> Complete(ms[k])
    ensures WellFormed(Dump(ATTACHED, ms)) && Dump(Dump(ATTACHED, ms), ms) == Dump(ATTACHED, ms)
  {
    hide Dump, Complete, WellFormed;
    AttachedForm();
    DumpKeepsForm(ATTACHED, ms);
    ReplayStays(ATTACHED, ms);
  }

  lemma AttachedForm()
    ensures Shaped(ATTACHED) && WellFormed(ATTACHED)
  {
  }

  // A name enters the table exactly when no stored name extends it and a slot is free.
  lemma NameEnters(t: Table, m: Msg)
    requires WellFormed(t) && Complete(m) && m.name != ""
    ensures m.name in Handle(t, m).names <==> m.name in t.names || !Spent(t, m)
  {
    hide Handle;
    HandleMeans(t, m);
    if !Spent(t, m) {
      assert Stored(t, m).names[t.amount] == m.name;
    }
  }

  // So of two interfaces the second is lost if and only if its name begins the first one's.
  lemma SecondLost(x: Msg, y: Msg)
    requires Complete(x) && Complete(y) && x.name != "" && y.name != ""
    ensures Dump(ATTACHED, [x, y]).names == if y.name <= x.name then [x.name, ""] else [x.name, y.name]
  {
    hide Handle, Decimal;
    DumpTwo(ATTACHED, x, y);
    assert !Known(ATTACHED.names, x.name);
    HandleMeans(ATTACHED, x);
    HandleKeepsForm(ATTACHED, x);
    var t := Handle(ATTACHED, x);
    assert t.names == [x.name, ""] && t.amount == 1;
    HandleMeans(t, y);
    assert Known(t.names, y.name) <==> y.name <= t.names[0];
  }

  // The first message of a dump, field by field: of the number of the physical device the buffer
  // keeps seven characters.
  lemma FirstStored(m: Msg)
    requires Complete(m) && m.name != ""
    ensures var phy := Decimal(m.phy.value);
            Handle(ATTACHED, m)
              == Table([m.name, ""], [m.ifindex, -1], [if |phy| <= 7 then phy else phy[..7], ""], 1)
  {
    hide Decimal;
    assert !Known(ATTACHED.names, m.name);
    HandleMeans(ATTACHED, m);
  }

  // A message without a physical device enters its name and index alone, and is not counted.
  lemma NoDevice(t: Table, m: Msg)
    requires WellFormed(t) && m.phy.None? && |m.name| < 16
    ensures Handle(t, m) == if Spent(t, m) then t
                            else t.(names := t.names[t.amount := m.name], indexes := t.indexes[t.amount := m.ifindex])
  {
    hide HandleFrom;
    if Known(t.names, m.name) {
      KnownStays(t, m, 0);
    } else {
      PassFilled(t, m, 0);
      NoDeviceAtEnd(t, m);
    }
  }

  lemma NoDeviceAtEnd(t: Table, m: Msg)
    requires WellFormed(t) && m.phy.None? && |m.name| < 16 && !Known(t.names, m.name)
    ensures HandleFrom(t, m, t.amount) == if Full(t) then t
              else t.(names := t.names[t.amount := m.name], indexes := t.indexes[t.amount := m.ifindex])
  {
    if !Full(t) {
      var r := Slot(t, m, t.amount);
      assert m.name <= r.names[t.amount];
      assert Known(r.names, m.name);
      KnownStays(r, m, t.amount + 1);
    }
  }

  // Two radios of one machine, for example, in either order.
  lemma ShorterNameLost()
    ensures Dump(ATTACHED, [Msg("wlan10", 4, Some(1)), Msg("wlan1", 3, Some(0))]).names == ["wlan10", ""]
    ensures Dump(ATTACHED, [Msg("wlan1", 3, Some(0)), Msg("wlan10", 4, Some(1))]).names == ["wlan1", "wlan10"]
  {
    hide Dump;
    SecondLost(Msg("wlan10", 4, Some(1)), Msg("wlan1", 3, Some(0)));
    SecondLost(Msg("wlan1", 3, Some(0)), Msg("wlan10", 4, Some(1)));
  }

  lemma DumpSnoc(t: Table, ms: seq<Msg>, m: Msg)
    requires Shaped(t)
    ensures Dump(t, ms + [m]) == Handle(Dump(t, ms), m)
  {
    hide Handle, Shaped;
    assert (ms + [m])[..|ms|] == ms;
  }

  lemma DumpTwo(t: Table, a: Msg, b: Msg)
    requires Shaped(t)
    ensures Dump(t, [a, b]) == Handle(Handle(t, a), b)
  {
    hide Handle, Shaped;
    DumpSnoc(t, [], a);
    DumpSnoc(t, [a], b);
    assert [] + [a] == [a] && [a] + [b] == [a, b];
  }

  // A name too long for its buffer, were the kernel to send one, would fill every free slot.
  lemma LongNameTwice(m: Msg)
    requires m.phy.Some? && m.name != ""
    ensures var r := Handle(ATTACHED, m);
            && (r.names[0] == r.names[1] <==> |m.name| >= 16)
            && (|m.name| >= 16 ==> r.names == [m.name[..15], m.name[..15]])
  {
    hide Decimal;
    var t := ATTACHED;
    assert !Known(t.names, m.name);
    var r := Slot(t, m, 0);
    assert r.names == [Clip(m.name, RADIO_IFNAME_SIZE), ""];
    if |m.name| < RADIO_IFNAME_SIZE {
      assert m.name <= r.names[0];
      KnownStays(r, m, 1);
    } else {
      assert !Known(r.names, m.name);
    }
  }

  // --- the handler itself ---

  class NetlinkContext {
    const ifname: array<string>
    const ifindex: array<int>
    const phyname: array<string>
    var radioAmount: nat

    ghost predicate Valid()
      reads this
    {
      && ifname.Length == ifindex.Length == phyname.Length == WIFI_RADIO_MAX
      && ifname != phyname
    }

    ghost function Contents(): Table
      requires Valid()
      reads this, ifname, ifindex, phyname
    {
      Table(ifname[..], ifindex[..], phyname[..], radioAmount)
    }

    constructor ()
      ensures Valid() && Contents() == ATTACHED
      ensures fresh(ifname) && fresh(ifindex) && fresh(phyname)
    {
      ifname := new string[WIFI_RADIO_MAX](_ => "");
      ifindex := new int[WIFI_RADIO_MAX](_ => -1);
      phyname := new string[WIFI_RADIO_MAX](_ => "");
      radioAmount := 0;
      new;
      assert ifname[..] == ["", ""] && ifindex[..] == [-1, -1] && phyname[..] == ["", ""];
    }

    method IsKnown(name: string) returns (known: bool)
      requires Valid()
      ensures known <==> Known(ifname[..], name)
    {
      for x := 0 to WIFI_RADIO_MAX
        invariant forall k :: 0 <= k < x ==> !(name <= ifname[k])
      {
        if name <= ifname[x] {
          assert name <= ifname[..][x];
          return true;
        }
      }
      known := false;
    }

    method HandleMessage(m: Msg)
      requires Valid()
      modifies this, ifname, ifindex, phyname
      ensures Valid() && Contents() == Handle(old(Contents()), m)
    {
      hide Known, Clip, Decimal;
      for i := 0 to WIFI_RADIO_MAX
        invariant Valid() && HandleFrom(Contents(), m, i) == Handle(old(Contents()), m)
      {
        ghost var t := Contents();
        var known := IsKnown(m.name);
        if !known {
          if ifname[i] == "" {
            ifname[i] := Clip(m.name, RADIO_IFNAME_SIZE);
            ifindex[i] := m.ifindex;
          }
          if phyname[i] == "" && m.phy.Some? {
            phyname[i] := Clip(Decimal(m.phy.value), RADIO_PHYNAME_SIZE);
            radioAmount := radioAmount + 1;
          }
        }
        assert Contents() == Slot(t, m, i);
      }
    }
  }
}
