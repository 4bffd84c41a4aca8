/**
  The device inventory of `network/lancheck.py`: a `Device` is a dictionary of fields that
  remembers the first earlier value of every field it overwrites; a `DeviceList` keys devices
  by mac address and merges other lists into itself, counting what it changed and added.
 */
module LanCheck {

  import opened Wrappers
  import opened Strs
  import opened ODict
  import opened Lists

  /** A field value: a string, a number or None. */
  datatype Value = Str(s: string) | Int(i: int) | Null

  /** Python truthiness: a non-empty string or a non-zero number. */
  predicate Truthy(v: Value) {
    match v
    case Str(s) => s != ""
    case Int(i) => i != 0
    case Null => false
  }

  /** `str(v)`. */
  function Show(v: Value): string {
    match v
    case Str(s) => s
    case Int(i) => IntToString(i)
    case Null => "None"
  }

  /** What a device holds: its fields, and for each field changed so far the value it had before its first change. */
  datatype Record = Record(info: Dict<string, Value>, changed: Dict<string, Value>)

  /** Both dictionaries hold each key once. */
  predicate WellFormed(r: Record) {
    Distinct(r.info) && Distinct(r.changed)
  }

  /** `Device.mac()`: the `mac` field, or None. */
  function MacOf(r: Record): Value {
    Get(r.info, "mac").GetOr(Null)
  }

  /**
    `Device.__getitem__`: the field, or None; a missing or None `vendor` of a device with a
    mac is looked up by `vendorOf`, the mac-prefix table.
   */
  function Item(r: Record, key: string, vendorOf: Value -> Value): Value {
    var rv := Get(r.info, key).GetOr(Null);
    if key == "vendor" && Truthy(MacOf(r)) && rv == Null then vendorOf(MacOf(r)) else rv
  }

  // ---------------------------------------------------------------------------------------
  // `Device`

  /**
    `Device.__setitem__`: the field takes the new value; when that overwrites a different
    value and the field has not changed before, the overwritten value is remembered.
   */
  function Assign(r: Record, key: string, value: Value): Record {
    var before := Get(r.info, key);
    var changed :=
      if before.Some? && before.value != value && !HasKey(r.changed, key) then Put(r.changed, key, before.value)
      else r.changed;
    Record(Put(r.info, key, value), changed)
  }

  /** An assignment keeps both dictionaries free of repeated keys. */
  lemma AssignWellFormed(r: Record, key: string, value: Value)
    requires WellFormed(r)
    ensures WellFormed(Assign(r, key, value))
  {
    PutDistinct(r.info, key, value);
    if HasKey(r.info, key) {
      PutDistinct(r.changed, key, Get(r.info, key).value);
    }
  }

  /** Assignments one after another. */
  function AssignAll(r: Record, kvs: seq<(string, Value)>): Record
    decreases |kvs|
  {
    if kvs == [] then r else AssignAll(Assign(r, kvs[0].0, kvs[0].1), kvs[1..])
  }

  /**
    The value `key` had just before the first assignment in `kvs` that gives it a different
    value, if there is one.
   */
  function FirstChange(info: Dict<string, Value>, kvs: seq<(string, Value)>, key: string): Option<Value>
    decreases |kvs|
  {
    if kvs == [] then None
    else if kvs[0].0 == key && HasKey(info, key) && Get(info, key).value != kvs[0].1 then Get(info, key)
    else FirstChange(Put(info, kvs[0].0, kvs[0].1), kvs[1..], key)
  }

  /**
    Only the first change of a field is remembered: after a run of assignments, a field
    that had not changed before holds the value it had before its first change, and one
    that had keeps its remembered value.
   */
  lemma {:induction false} FirstChangeRemembered(r: Record, kvs: seq<(string, Value)>, key: string)
    ensures Get(AssignAll(r, kvs).changed, key) ==
      if HasKey(r.changed, key) then Get(r.changed, key) else FirstChange(r.info, kvs, key)
    decreases |kvs|
  {
    if kvs != [] {
      var (k, v) := kvs[0];
      var r1 := Assign(r, k, v);
      FirstChangeRemembered(r1, kvs[1..], key);
      GetPut(r.info, k, v, key);
      if HasKey(r.info, k) {
        GetPut(r.changed, k, Get(r.info, k).value, key);
      }
    }
  }

  /** After the assignments every field holds the value last given to it, or its old value. */
  lemma {:induction false} AssignAllInfo(r: Record, kvs: seq<(string, Value)>, key: string)
    ensures Get(AssignAll(r, kvs).info, key) == LastGiven(kvs, key, Get(r.info, key))
    decreases |kvs|
  {
    if kvs != [] {
      var (k, v) := kvs[0];
      AssignAllInfo(Assign(r, k, v), kvs[1..], key);
      GetPut(r.info, k, v, key);
    }
  }

  /** The last value `kvs` gives `key`, or `prior` when it gives none. */
  function LastGiven(kvs: seq<(string, Value)>, key: string, prior: Option<Value>): Option<Value>
    decreases |kvs|
  {
    if kvs == [] then prior
    else LastGiven(kvs[1..], key, if kvs[0].0 == key then Some(kvs[0].1) else prior)
  }

  /** `has_changed(check)`: some key of `check` has changed, or, with no keys given, anything has. */
  predicate HasChangedIn(r: Record, check: seq<string>) {
    if check != [] then exists k :: k in check && HasKey(r.changed, k) else |r.changed| > 0
  }

  /** `is_new`: the remembered values are the fields, compared as dictionaries. */
  predicate IsNew(r: Record) {
    ToMap(r.changed) == ToMap(r.info)
  }

  /** `record_as_new`: every field counts as changed from its own value. */
  function AsNew(r: Record): (n: Record)
    ensures IsNew(n) && n.info == r.info
  {
    Record(r.info, r.info)
  }

  /** After `clear_changes` nothing has changed, and the device is new only when it has no fields. */
  lemma ClearedChanges(info: Dict<string, Value>, check: seq<string>)
    ensures !HasChangedIn(Record(info, []), check)
    ensures IsNew(Record(info, [])) <==> info == []
  {
    if info != [] {
      assert HasKey(info, info[0].0);
      assert info[0].0 in ToMap(info);
    }
  }

  /** `matches(key)`: some field value, as text, contains `key`. */
  predicate MatchesText(r: Record, key: string) {
    exists i :: 0 <= i < |r.info| && Contains(Show(r.info[i].1), key)
  }

  /** The device as an object whose fields `__setitem__` and its companions update in place. */
  class Device {

    var info: Dict<string, Value>
    var changed: Dict<string, Value>

    function State(): Record
      reads this
    {
      Record(info, changed)
    }

    /** `Device(info)`: a copy of the fields, nothing changed yet. */
    constructor (info: Dict<string, Value>)
      ensures State() == Record(info, [])
    {
      this.info := info;
      changed := [];
    }

    /** `device[key] = value`. */
    method SetItem(key: string, value: Value)
      modifies this
      ensures State() == Assign(old(State()), key, value)
    {
      var before := Get(info, key);
      if before.Some? && before.value != value {
        if !HasKey(changed, key) {
          changed := Put(changed, key, before.value);
        }
      }
      info := Put(info, key, value);
    }

    /** `has_changed(check)`. */
    method HasChanged(check: seq<string>) returns (b: bool)
      ensures b == HasChangedIn(State(), check)
    {
      if check != [] {
        var i := 0;
        while i < |check|
          invariant 0 <= i <= |check|
          invariant forall j :: 0 <= j < i ==> !HasKey(changed, check[j])
        {
          if HasKey(changed, check[i]) {
            return true;
          }
          i := i + 1;
        }
        return false;
      }
      return |changed| > 0;
    }

    /** `record_as_new`. */
    method RecordAsNew()
      modifies this
      ensures State() == AsNew(old(State()))
    {
      changed := info;
    }

    /** `clear_changes`. */
    method ClearChanges()
      modifies this
      ensures State() == Record(old(info), [])
    {
      changed := [];
    }

    /** `matches(key)`. */
    method Matches(key: string) returns (b: bool)
      ensures b == MatchesText(State(), key)
    {
      var i := 0;
      while i < |info|
        invariant 0 <= i <= |info|
        invariant forall j :: 0 <= j < i ==> !Contains(Show(info[j].1), key)
      {
        if Contains(Show(info[i].1), key) {
          return true;
        }
        i := i + 1;
      }
      return false;
    }

    /** `is_disabled`: the `ipv4` field is `0.0.0.0`; None stands for the `KeyError` of a device without one. */
    function IsDisabled(): (r: Option<bool>)
      reads this
      ensures r.Some? <==> HasKey(info, "ipv4")
      ensures r == Some(true) <==> Get(info, "ipv4") == Some(Str("0.0.0.0"))
    {
      match Get(info, "ipv4")
      case None => None
      case Some(v) => Some(v == Str("0.0.0.0"))
    }
  }

  // ---------------------------------------------------------------------------------------
  // `DeviceList`

  /** `devices_by_mac`: each mac with its device, in the order the macs arrived. */
  type Table = Dict<Value, Record>

  /** `DeviceList(devices)`: every device with a mac, the first one of each mac kept. */
  function FromDevices(ds: seq<Record>): Table
    decreases |ds|
  {
    if ds == [] then []
    else
      var t := FromDevices(ds[..|ds| - 1]);
      var mac := MacOf(ds[|ds| - 1]);
      if Truthy(mac) && !HasKey(t, mac) then Put(t, mac, ds[|ds| - 1]) else t
  }

  lemma FromDevicesNext(ds: seq<Record>, i: nat)
    requires i < |ds|
    ensures FromDevices(ds[..i + 1]) ==
      var t := FromDevices(ds[..i]);
      if Truthy(MacOf(ds[i])) && !HasKey(t, MacOf(ds[i])) then Put(t, MacOf(ds[i]), ds[i]) else t
  {
    assert ds[..i + 1][..i] == ds[..i];
  }

  /** The non-empty macs of a list of devices. */
  predicate HasMac(ds: seq<Record>, k: Value) {
    Truthy(k) && exists d :: d in ds && MacOf(d) == k
  }

  lemma HasMacLast(ds: seq<Record>, k: Value)
    requires ds != []
    ensures HasMac(ds, k) <==> HasMac(ds[..|ds| - 1], k) || (Truthy(k) && MacOf(ds[|ds| - 1]) == k)
  {
    var n := |ds| - 1;
    if HasMac(ds, k) && MacOf(ds[n]) != k {
      var d :| d in ds && MacOf(d) == k;
      var i :| 0 <= i < |ds| && ds[i] == d;
      assert ds[..n][i] == d;
    }
  }

  /** A mac is in the table exactly when it is a non-empty mac of some device; no mac is there twice. */
  lemma {:induction false} FromDevicesKeys(ds: seq<Record>, k: Value)
    ensures HasKey(FromDevices(ds), k) <==> HasMac(ds, k)
    decreases |ds|
  {
    if ds != [] {
      var n := |ds| - 1;
      var t := FromDevices(ds[..n]);
      var m := MacOf(ds[n]);
      FromDevicesKeys(ds[..n], k);
      if Truthy(m) && !HasKey(t, m) {
        HasKeyPut(t, m, ds[n], k);
      }
      HasMacLast(ds, k);
    }
  }

  lemma {:induction false} FromDevicesDistinct(ds: seq<Record>)
    ensures Distinct(FromDevices(ds))
    decreases |ds|
  {
    if ds != [] {
      var n := |ds| - 1;
      FromDevicesDistinct(ds[..n]);
      var t := FromDevices(ds[..n]);
      if Truthy(MacOf(ds[n])) && !HasKey(t, MacOf(ds[n])) {
        PutDistinct(t, MacOf(ds[n]), ds[n]);
      }
    }
  }

  /** A mac some earlier device had keeps its entry when one more device comes. */
  lemma FromDevicesKeep(ds: seq<Record>, k: Value, v: Option<Record>)
    requires ds != [] && HasMac(ds[..|ds| - 1], k) && Get(FromDevices(ds[..|ds| - 1]), k) == v
    ensures Get(FromDevices(ds), k) == v
  {
    var n := |ds| - 1;
    var t := FromDevices(ds[..n]);
    var m := MacOf(ds[n]);
    FromDevicesKeys(ds[..n], k);
    if Truthy(m) && !HasKey(t, m) {
      GetPut(t, m, ds[n], k);
    }
  }

  /** A mac no earlier device had is entered with the last device, when that device has it. */
  lemma FromDevicesFill(ds: seq<Record>, k: Value)
    requires ds != [] && Truthy(k) && !HasMac(ds[..|ds| - 1], k) && MacOf(ds[|ds| - 1]) == k
    ensures Get(FromDevices(ds), k) == Some(ds[|ds| - 1])
  {
    var n := |ds| - 1;
    var t := FromDevices(ds[..n]);
    FromDevicesKeys(ds[..n], k);
    GetPut(t, k, ds[n], k);
  }

  /** The device kept for a mac is the first device that has it. */
  lemma FromDevicesFirst(ds: seq<Record>, i: nat)
    requires i < |ds| && Truthy(MacOf(ds[i]))
    requires forall j :: 0 <= j < i ==> MacOf(ds[j]) != MacOf(ds[i])
    ensures Get(FromDevices(ds), MacOf(ds[i])) == Some(ds[i])
  {
    NoEarlierMac(ds, i);
    FromDevicesFirstOf(ds, i);
  }

  lemma {:induction false} FromDevicesFirstOf(ds: seq<Record>, i: nat)
    requires i < |ds| && Truthy(MacOf(ds[i])) && !HasMac(ds[..i], MacOf(ds[i]))
    ensures Get(FromDevices(ds), MacOf(ds[i])) == Some(ds[i])
    decreases |ds|
  {
    var n := |ds| - 1;
    if i < n {
      var pre := ds[..n];
      assert pre[..i] == ds[..i] && pre[i] == ds[i];
      FromDevicesFirstOf(pre, i);
      MacAt(pre, i);
      FromDevicesKeep(ds, MacOf(ds[i]), Some(ds[i]));
    } else {
      FromDevicesFill(ds, MacOf(ds[i]));
    }
  }

  lemma MacAt(ds: seq<Record>, i: nat)
    requires i < |ds| && Truthy(MacOf(ds[i]))
    ensures HasMac(ds, MacOf(ds[i]))
  {
    assert ds[i] in ds;
  }

  lemma NoEarlierMac(ds: seq<Record>, i: nat)
    requires i < |ds|
    requires forall j :: 0 <= j < i ==> MacOf(ds[j]) != MacOf(ds[i])
    ensures !HasMac(ds[..i], MacOf(ds[i]))
  {
    forall d | d in ds[..i] ensures MacOf(d) != MacOf(ds[i]) {
      var j :| 0 <= j < i && ds[..i][j] == d;
      assert ds[j] == d;
    }
  }

  /**
    The `override` loop of `update_with` over a known device `found`: each listed field the
    incoming device has with a truthy value, which `found` lacks or holds differently, is
    assigned; the flag says whether any was.
   */
  function Override(found: Record, device: Record, keys: seq<string>, vendorOf: Value -> Value): (Record, bool)
    decreases |keys|
  {
    if keys == [] then (found, false)
    else
      var (f, c) := Override(found, device, keys[..|keys| - 1], vendorOf);
      var key := keys[|keys| - 1];
      var v := Item(device, key, vendorOf);
      if (!HasKey(f.info, key) || Item(f, key, vendorOf) != v) && Truthy(v) then (Assign(f, key, v), true)
      else (f, c)
  }

  lemma OverrideNext(found: Record, device: Record, keys: seq<string>, vendorOf: Value -> Value, i: nat)
    requires i < |keys|
    ensures Override(found, device, keys[..i + 1], vendorOf) ==
      var (f, c) := Override(found, device, keys[..i], vendorOf);
      var v := Item(device, keys[i], vendorOf);
      if (!HasKey(f.info, keys[i]) || Item(f, keys[i], vendorOf) != v) && Truthy(v) then (Assign(f, keys[i], v), true)
      else (f, c)
  {
    assert keys[..i + 1][..i] == keys[..i];
  }

  /**
    Overriding touches only the listed fields, and leaves each of them as it was or holding
    the incoming device's truthy value.
   */
  lemma {:induction false} OverrideFields(found: Record, device: Record, keys: seq<string>, vendorOf: Value -> Value, key: string)
    ensures var f := Override(found, device, keys, vendorOf).0;
      Get(f.info, key) == Get(found.info, key)
      || (key in keys && Get(f.info, key) == Some(Item(device, key, vendorOf)) && Truthy(Item(device, key, vendorOf)))
    decreases |keys|
  {
    if keys != [] {
      var n := |keys| - 1;
      OverrideFields(found, device, keys[..n], vendorOf, key);
      var f := Override(found, device, keys[..n], vendorOf).0;
      GetPut(f.info, keys[n], Item(device, keys[n], vendorOf), key);
      assert key in keys[..n] ==> key in keys;
    }
  }

  /** Without any assignment the device is unchanged. */
  lemma {:induction false} OverrideUnflagged(found: Record, device: Record, keys: seq<string>, vendorOf: Value -> Value)
    ensures !Override(found, device, keys, vendorOf).1 ==> Override(found, device, keys, vendorOf).0 == found
    decreases |keys|
  {
    if keys != [] {
      OverrideUnflagged(found, device, keys[..|keys| - 1], vendorOf);
    }
  }

  /** `changed`, `added` and the table as `update_with` leaves them. */
  datatype Tally = Tally(table: Table, changed: int, added: int)

  /**
    One device of `update_with`: a new mac is inserted, marked new, and counted as added;
    with `override`, a known device takes the overriding fields and is counted as changed
    once if any was assigned; without it, a known device is left alone.
   */
  function UpdateStep(s: Tally, device: Record, override: seq<string>, vendorOf: Value -> Value): Tally {
    var mac := MacOf(device);
    if !Truthy(mac) then s
    else if HasKey(s.table, mac) then
      if override == [] then s
      else
        var (f, c) := Override(Get(s.table, mac).value, device, override, vendorOf);
        if c then Tally(Put(s.table, mac, f), s.changed + 1, s.added) else s
    else Tally(Put(s.table, mac, AsNew(device)), s.changed, s.added + 1)
  }

  /** `update_with(other, override)` over the devices of `other`, in order. */
  function UpdateAll(s: Tally, other: seq<Record>, override: seq<string>, vendorOf: Value -> Value): Tally
    decreases |other|
  {
    if other == [] then s
    else UpdateStep(UpdateAll(s, other[..|other| - 1], override, vendorOf), other[|other| - 1], override, vendorOf)
  }

  lemma UpdateAllNext(s: Tally, other: seq<Record>, override: seq<string>, vendorOf: Value -> Value, i: nat)
    requires i < |other|
    ensures UpdateAll(s, other[..i + 1], override, vendorOf) == UpdateStep(UpdateAll(s, other[..i], override, vendorOf), other[i], override, vendorOf)
  {
    assert other[..i + 1][..i] == other[..i];
  }

  /** One device touches only its own mac's entry; it adds one entry exactly when it is counted as added. */
  lemma UpdateStepTable(s: Tally, device: Record, override: seq<string>, vendorOf: Value -> Value, k: Value)
    ensures var r := UpdateStep(s, device, override, vendorOf);
      var m := MacOf(device);
      && (HasKey(r.table, k) <==> HasKey(s.table, k) || (Truthy(m) && k == m))
      && (k != m ==> Get(r.table, k) == Get(s.table, k))
      && |Keys(r.table)| == |Keys(s.table)| + (r.added - s.added)
      && (r.added == s.added || r.added == s.added + 1)
      && (r.changed == s.changed || r.changed == s.changed + 1)
      && (Distinct(s.table) ==> Distinct(r.table))
  {
    var m := MacOf(device);
    if Truthy(m) {
      if HasKey(s.table, m) {
        if override != [] {
          var f := Override(Get(s.table, m).value, device, override, vendorOf).0;
          PutKeys(s.table, m, f);
          GetPut(s.table, m, f, k);
          if Distinct(s.table) {
            PutDistinct(s.table, m, f);
          }
        }
      } else {
        PutKeys(s.table, m, AsNew(device));
        GetPut(s.table, m, AsNew(device), k);
        if Distinct(s.table) {
          PutDistinct(s.table, m, AsNew(device));
        }
      }
    }
  }

  /**
    After `update_with` a mac is known exactly when it was before or some incoming device has
    it; the table gains one entry per added device; `changed` grows by at most one per device.
   */
  lemma {:induction false} UpdateAllTable(s: Tally, other: seq<Record>, override: seq<string>, vendorOf: Value -> Value, k: Value)
    requires Distinct(s.table)
    ensures var r := UpdateAll(s, other, override, vendorOf);
      && (HasKey(r.table, k) <==> HasKey(s.table, k) || HasMac(other, k))
      && Distinct(r.table)
      && |Keys(r.table)| == |Keys(s.table)| + (r.added - s.added)
      && s.added <= r.added && s.changed <= r.changed <= s.changed + |other|
    decreases |other|
  {
    if other != [] {
      var n := |other| - 1;
      UpdateAllTable(s, other[..n], override, vendorOf, k);
      UpdateStepTable(UpdateAll(s, other[..n], override, vendorOf), other[n], override, vendorOf, k);
      HasMacLast(other, k);
    }
  }

  /** Without `override` known devices are untouched and nothing counts as changed. */
  lemma {:induction false} UpdateWithoutOverride(s: Tally, other: seq<Record>, vendorOf: Value -> Value, k: Value)
    requires HasKey(s.table, k)
    ensures Get(UpdateAll(s, other, [], vendorOf).table, k) == Get(s.table, k)
    ensures UpdateAll(s, other, [], vendorOf).changed == s.changed
    decreases |other|
  {
    if other != [] {
      var n := |other| - 1;
      var mid := UpdateAll(s, other[..n], [], vendorOf);
      UpdateWithoutOverride(s, other[..n], vendorOf, k);
      UpdateStepKnown(mid, other[n], vendorOf, k);
    }
  }

  /** Without `override` nothing counts as changed. */
  lemma {:induction false} UpdateAllUnchanged(s: Tally, other: seq<Record>, vendorOf: Value -> Value)
    ensures UpdateAll(s, other, [], vendorOf).changed == s.changed
    decreases |other|
  {
    if other != [] {
      UpdateAllUnchanged(s, other[..|other| - 1], vendorOf);
    }
  }

  lemma UpdateStepKnown(s: Tally, device: Record, vendorOf: Value -> Value, k: Value)
    requires HasKey(s.table, k)
    ensures Get(UpdateStep(s, device, [], vendorOf).table, k) == Get(s.table, k)
    ensures UpdateStep(s, device, [], vendorOf).changed == s.changed
  {
    UpdateStepTable(s, device, [], vendorOf, k);
  }

  /** A device with an unseen mac is inserted marked new and counted as added. */
  lemma UpdateStepInserts(s: Tally, device: Record, override: seq<string>, vendorOf: Value -> Value)
    requires Truthy(MacOf(device)) && !HasKey(s.table, MacOf(device))
    ensures var r := UpdateStep(s, device, override, vendorOf);
      && Get(r.table, MacOf(device)) == Some(AsNew(device))
      && IsNew(Get(r.table, MacOf(device)).value)
      && r.added == s.added + 1 && r.changed == s.changed
  {
    GetPut(s.table, MacOf(device), AsNew(device), MacOf(device));
  }

  /** The field holds the truthy value some incoming device with mac `k` gives a listed field. */
  predicate Overridden(other: seq<Record>, override: seq<string>, vendorOf: Value -> Value, k: Value, key: string, v: Option<Value>) {
    key in override && exists d :: d in other && MacOf(d) == k && v == Some(Item(d, key, vendorOf)) && Truthy(Item(d, key, vendorOf))
  }

  /** The field of a known device after one incoming device. */
  lemma UpdateStepField(s: Tally, device: Record, override: seq<string>, vendorOf: Value -> Value, k: Value, key: string)
    requires HasKey(s.table, k)
    ensures var now := Get(UpdateStep(s, device, override, vendorOf).table, k);
      && now.Some?
      && (Get(now.value.info, key) == Get(Get(s.table, k).value.info, key)
          || Overridden([device], override, vendorOf, k, key, Get(now.value.info, key)))
  {
    var found := Get(s.table, k).value;
    if MacOf(device) == k && override != [] {
      OverrideFields(found, device, override, vendorOf, key);
      var f := Override(found, device, override, vendorOf).0;
      GetPut(s.table, k, f, k);
      assert device in [device];
    } else {
      UpdateStepTable(s, device, override, vendorOf, k);
    }
  }

  /**
    With `override`, a field of a known device either keeps its value or holds the truthy
    value of a listed field of some incoming device with the same mac.
   */
  lemma {:induction false} UpdateKnownFields(s: Tally, other: seq<Record>, override: seq<string>, vendorOf: Value -> Value, k: Value, key: string)
    requires HasKey(s.table, k)
    ensures var now := Get(UpdateAll(s, other, override, vendorOf).table, k);
      && now.Some?
      && (Get(now.value.info, key) == Get(Get(s.table, k).value.info, key)
          || Overridden(other, override, vendorOf, k, key, Get(now.value.info, key)))
    decreases |other|
  {
    if other != [] {
      var n := |other| - 1;
      var mid := UpdateAll(s, other[..n], override, vendorOf);
      UpdateKnownFields(s, other[..n], override, vendorOf, k, key);
      UpdateStepField(mid, other[n], override, vendorOf, k, key);
      var r := UpdateAll(s, other, override, vendorOf);
      assert r == UpdateStep(mid, other[n], override, vendorOf);
      var bv := Get(Get(s.table, k).value.info, key);
      var mv := Get(Get(mid.table, k).value.info, key);
      var nv := Get(Get(r.table, k).value.info, key);
      assert mv == bv || Overridden(other[..n], override, vendorOf, k, key, mv);
      assert nv == mv || Overridden([other[n]], override, vendorOf, k, key, nv);
      if nv == mv && mv != bv {
        OverriddenWiden(other[..n], other, override, vendorOf, k, key, nv);
      } else if nv != mv {
        OverriddenWiden([other[n]], other, override, vendorOf, k, key, nv);
      }
    }
  }

  /** Overriding by some of the devices is overriding by all of them. */
  lemma OverriddenWiden(a: seq<Record>, b: seq<Record>, override: seq<string>, vendorOf: Value -> Value, k: Value, key: string, v: Option<Value>)
    requires Overridden(a, override, vendorOf, k, key, v)
    requires forall d :: d in a ==> d in b
    ensures Overridden(b, override, vendorOf, k, key, v)
  {
  }

  /** Without `override` every unseen mac ends up holding its first incoming device, marked new. */
  lemma {:induction false} UpdateInsertsFirst(s: Tally, other: seq<Record>, vendorOf: Value -> Value, k: Value)
    requires Distinct(s.table) && !HasKey(s.table, k) && HasMac(other, k)
    ensures HasKey(FromDevices(other), k)
    ensures Get(UpdateAll(s, other, [], vendorOf).table, k) == Some(AsNew(Get(FromDevices(other), k).value))
    decreases |other|
  {
    FromDevicesKeys(other, k);
    var n := |other| - 1;
    var mid := UpdateAll(s, other[..n], [], vendorOf);
    var t := FromDevices(other[..n]);
    HasMacLast(other, k);
    UpdateAllTable(s, other[..n], [], vendorOf, k);
    FromDevicesKeys(other[..n], k);
    if HasMac(other[..n], k) {
      UpdateInsertsFirst(s, other[..n], vendorOf, k);
      UpdateStepKnown(mid, other[n], vendorOf, k);
      assert FromDevices(other) == if Truthy(MacOf(other[n])) && !HasKey(t, MacOf(other[n])) then Put(t, MacOf(other[n]), other[n]) else t;
      if Truthy(MacOf(other[n])) && !HasKey(t, MacOf(other[n])) {
        GetPut(t, MacOf(other[n]), other[n], k);
      }
    } else {
      assert MacOf(other[n]) == k;
      UpdateStepInserts(mid, other[n], [], vendorOf);
      assert FromDevices(other) == Put(t, k, other[n]);
      GetPut(t, k, other[n], k);
    }
  }

  // ---------------------------------------------------------------------------------------
  // `add_missing_fields`

  /** The loop over the other device's fields: each field the device lacks is assigned. */
  function FillFrom(r: Record, src: Dict<string, Value>): Record
    decreases |src|
  {
    if src == [] then r
    else
      var f := FillFrom(r, src[..|src| - 1]);
      var (key, val) := src[|src| - 1];
      if !HasKey(f.info, key) then Assign(f, key, val) else f
  }

  lemma FillFromNext(r: Record, src: Dict<string, Value>, i: nat)
    requires i < |src|
    ensures FillFrom(r, src[..i + 1]) ==
      var f := FillFrom(r, src[..i]);
      if !HasKey(f.info, src[i].0) then Assign(f, src[i].0, src[i].1) else f
  {
    assert src[..i + 1][..i] == src[..i];
  }

  /** Filling assigns only absent fields, so nothing counts as changed. */
  lemma {:induction false} FillFromChanged(r: Record, src: Dict<string, Value>)
    ensures FillFrom(r, src).changed == r.changed
    decreases |src|
  {
    if src != [] {
      FillFromChanged(r, src[..|src| - 1]);
    }
  }

  /**
    Filling never overwrites: a field the device had keeps its value, and a field it lacked
    takes the other device's value.
   */
  lemma {:induction false} FillFromFields(r: Record, src: Dict<string, Value>, key: string)
    ensures Get(FillFrom(r, src).info, key) == if HasKey(r.info, key) then Get(r.info, key) else Get(src, key)
    decreases |src|
  {
    if src != [] {
      var n := |src| - 1;
      var f := FillFrom(r, src[..n]);
      var (k, v) := src[n];
      GetLast(src, key);
      FillFromFields(r, src[..n], key);
      FillFromFields(r, src[..n], k);
      GetPut(f.info, k, v, key);
    }
  }

  /** `add_vendor`: a device without a truthy vendor takes the looked-up one when that is truthy; nothing counts as changed. */
  function AddVendor(r: Record, vendorOf: Value -> Value): Record {
    var pre := Get(r.info, "vendor").GetOr(Null);
    if !Truthy(pre) && Truthy(vendorOf(MacOf(r))) then Record(Put(r.info, "vendor", vendorOf(MacOf(r))), r.changed)
    else r
  }

  /** Only a falsy vendor is replaced, and only by a truthy looked-up one; the changes are kept. */
  lemma AddVendorFields(r: Record, vendorOf: Value -> Value, key: string)
    ensures var a := AddVendor(r, vendorOf);
      && a.changed == r.changed
      && Get(a.info, key) ==
           if key == "vendor" && !Truthy(Get(r.info, "vendor").GetOr(Null)) && Truthy(vendorOf(MacOf(r)))
           then Some(vendorOf(MacOf(r))) else Get(r.info, key)
  {
    GetPut(r.info, "vendor", vendorOf(MacOf(r)), key);
  }

  /** One device of `add_missing_fields`: fill from the other list's device with the same mac, then add the vendor. */
  function Completed(mac: Value, r: Record, other: Table, vendorOf: Value -> Value): Record {
    var filled := if HasKey(other, mac) then FillFrom(r, Get(other, mac).value.info) else r;
    AddVendor(filled, vendorOf)
  }

  /** `add_missing_fields(other)` over the whole table. */
  function AddMissing(t: Table, other: Table, vendorOf: Value -> Value): (a: Table)
    ensures Keys(a) == Keys(t)
  {
    var a := MapValues(t, (mac, r) => Completed(mac, r, other, vendorOf));
    assert Keys(a) == Keys(t);
    a
  }

  /**
    After `add_missing_fields` every device keeps its changes and every value it had other
    than a falsy vendor, and holds every field the other list's device with its mac has.
   */
  lemma AddMissingFields(t: Table, other: Table, vendorOf: Value -> Value, mac: Value, key: string)
    requires HasKey(t, mac)
    ensures var before := Get(t, mac).value;
      var after := Get(AddMissing(t, other, vendorOf), mac);
      && after.Some?
      && after.value.changed == before.changed
      && (HasKey(before.info, key) && (key != "vendor" || Truthy(Get(before.info, key).value)) ==>
            Get(after.value.info, key) == Get(before.info, key))
      && (HasKey(other, mac) && HasKey(Get(other, mac).value.info, key) ==> HasKey(after.value.info, key))
  {
    var before := Get(t, mac).value;
    GetMapValues(t, (m, r) => Completed(m, r, other, vendorOf), mac);
    var filled := before;
    if HasKey(other, mac) {
      FillFromFields(before, Get(other, mac).value.info, key);
      FillFromChanged(before, Get(other, mac).value.info);
      filled := FillFrom(before, Get(other, mac).value.info);
    }
    AddVendorFields(filled, vendorOf, key);
  }

  // ---------------------------------------------------------------------------------------
  // Filters: `unknown_devices`, `extract_incomplete`

  /** Every entry of a new list is one of the devices, under its own non-empty mac. */
  lemma {:induction false} FromDevicesEntries(ds: seq<Record>, e: (Value, Record))
    requires e in FromDevices(ds)
    ensures e.1 in ds && e.0 == MacOf(e.1) && Truthy(e.0)
    decreases |ds|
  {
    var n := |ds| - 1;
    var t := FromDevices(ds[..n]);
    if Truthy(MacOf(ds[n])) && !HasKey(t, MacOf(ds[n])) {
      PutEntries(t, MacOf(ds[n]), ds[n], e);
    }
    if e in t {
      FromDevicesEntries(ds[..n], e);
    }
  }

  /** A device whose name is missing or empty. */
  predicate IsUnknown(r: Record) {
    !HasKey(r.info, "name") || Get(r.info, "name") == Some(Str(""))
  }

  /** `unknown_devices()`: a new list of the devices whose name is missing or empty. */
  function UnknownOf(t: Table): Table {
    FromDevices(Filter(Values(t), IsUnknown))
  }

  /**
    The unknown devices are exactly the devices of the table whose name is missing or
    empty, each under its own mac.
   */
  lemma UnknownDevicesSpec(t: Table, k: Value)
    ensures HasKey(UnknownOf(t), k) <==> Truthy(k) && exists i :: 0 <= i < |t| && IsUnknown(t[i].1) && MacOf(t[i].1) == k
    ensures forall e :: e in UnknownOf(t) ==> IsUnknown(e.1) && e.1 in Values(t) && e.0 == MacOf(e.1)
  {
    var vs := Filter(Values(t), IsUnknown);
    FromDevicesKeys(vs, k);
    forall e | e in UnknownOf(t) ensures IsUnknown(e.1) && e.1 in Values(t) && e.0 == MacOf(e.1) {
      FromDevicesEntries(vs, e);
      FilterIn(Values(t), IsUnknown, e.1);
    }
    if HasMac(vs, k) {
      var d :| d in vs && MacOf(d) == k;
      FilterIn(Values(t), IsUnknown, d);
      var i :| 0 <= i < |t| && Values(t)[i] == d;
    }
    if Truthy(k) && exists i :: 0 <= i < |t| && IsUnknown(t[i].1) && MacOf(t[i].1) == k {
      var i :| 0 <= i < |t| && IsUnknown(t[i].1) && MacOf(t[i].1) == k;
      assert Values(t)[i] == t[i].1;
      FilterIn(Values(t), IsUnknown, t[i].1);
    }
  }

  /** The known record lacks one of `keys` or holds it as the empty string. */
  predicate Lacks(known: Record, keys: seq<string>, vendorOf: Value -> Value) {
    exists key :: key in keys && LacksKey(known, key, vendorOf)
  }

  /** `key not in existing or existing[key] == ''`. */
  predicate LacksKey(known: Record, key: string, vendorOf: Value -> Value) {
    !HasKey(known.info, key) || Item(known, key, vendorOf) == Str("")
  }

  /** A live device whose mac the table knows, with a known record that lacks one of `keys`. */
  predicate IsIncomplete(t: Table, keys: seq<string>, vendorOf: Value -> Value, device: Record) {
    HasKey(t, MacOf(device)) && Lacks(Get(t, MacOf(device)).value, keys, vendorOf)
  }

  /** `extract_incomplete(live, keys)`: a new list of the live devices that are incomplete here. */
  function Incomplete(t: Table, live: Table, keys: seq<string>, vendorOf: Value -> Value): Table {
    FromDevices(Filter(Values(live), IncompleteTest(t, keys, vendorOf)))
  }

  function IncompleteTest(t: Table, keys: seq<string>, vendorOf: Value -> Value): Record -> bool {
    d => IsIncomplete(t, keys, vendorOf, d)
  }

  /** The extracted devices are live devices known here whose known record is incomplete, and every such mac is extracted. */
  lemma IncompleteSpec(t: Table, live: Table, keys: seq<string>, vendorOf: Value -> Value, k: Value)
    ensures HasKey(Incomplete(t, live, keys, vendorOf), k) <==>
      Truthy(k) && exists i :: 0 <= i < |live| && MacOf(live[i].1) == k && IsIncomplete(t, keys, vendorOf, live[i].1)
    ensures forall e :: e in Incomplete(t, live, keys, vendorOf) ==>
      e.1 in Values(live) && e.0 == MacOf(e.1) && HasKey(t, e.0) && Lacks(Get(t, e.0).value, keys, vendorOf)
  {
    var p := IncompleteTest(t, keys, vendorOf);
    var vs := Filter(Values(live), p);
    FromDevicesKeys(vs, k);
    forall e | e in Incomplete(t, live, keys, vendorOf)
      ensures e.1 in Values(live) && e.0 == MacOf(e.1) && HasKey(t, e.0) && Lacks(Get(t, e.0).value, keys, vendorOf)
    {
      FromDevicesEntries(vs, e);
      FilterIn(Values(live), p, e.1);
    }
    if HasMac(vs, k) {
      var d :| d in vs && MacOf(d) == k;
      FilterIn(Values(live), p, d);
      var i :| 0 <= i < |live| && Values(live)[i] == d;
    }
    if Truthy(k) && exists i :: 0 <= i < |live| && MacOf(live[i].1) == k && IsIncomplete(t, keys, vendorOf, live[i].1) {
      var i :| 0 <= i < |live| && MacOf(live[i].1) == k && IsIncomplete(t, keys, vendorOf, live[i].1);
      assert Values(live)[i] == live[i].1;
      FilterIn(Values(live), p, live[i].1);
    }
  }

  // ---------------------------------------------------------------------------------------
  // Counters and `col_width`

  /** `clear_changes()` on every device of the table. */
  function ClearedTable(t: Table): (c: Table)
    ensures Keys(c) == Keys(t)
    ensures forall i :: 0 <= i < |t| ==> c[i].1 == Record(t[i].1.info, [])
  {
    MapValues(t, (mac, r: Record) => Record(r.info, []))
  }

  /** Every field of every device, in table order. */
  function AllFields(t: Table): seq<(string, Value)>
    decreases |t|
  {
    if t == [] then [] else AllFields(t[..|t| - 1]) + t[|t| - 1].1.info
  }

  /** A field is listed exactly when some device has it. */
  lemma {:induction false} AllFieldsIn(t: Table, e: (string, Value))
    ensures e in AllFields(t) <==> exists i :: 0 <= i < |t| && e in t[i].1.info
    decreases |t|
  {
    if t != [] {
      var n := |t| - 1;
      AllFieldsIn(t[..n], e);
      if exists i :: 0 <= i < |t| && e in t[i].1.info {
        var i :| 0 <= i < |t| && e in t[i].1.info;
        if i < n {
          assert t[..n][i] == t[i];
        }
      }
    }
  }

  /** The `defaultdict` of widths after the given fields: each field's longest text so far, fields in first-seen order. */
  function WidthsOf(fields: seq<(string, Value)>, width: Value -> nat): Dict<string, int>
    decreases |fields|
  {
    if fields == [] then []
    else
      var w := WidthsOf(fields[..|fields| - 1], width);
      var e := fields[|fields| - 1];
      Put(w, e.0, Max(Get(w, e.0).GetOr(0), width(e.1)))
  }

  function Max(a: int, b: int): int {
    if a < b then b else a
  }

  lemma WidthsOfNext(fields: seq<(string, Value)>, width: Value -> nat, i: nat)
    requires i < |fields|
    ensures WidthsOf(fields[..i + 1], width) ==
      var w := WidthsOf(fields[..i], width);
      Put(w, fields[i].0, Max(Get(w, fields[i].0).GetOr(0), width(fields[i].1)))
  {
    assert fields[..i + 1][..i] == fields[..i];
  }

  /** `col_width()` of a table. */
  function Widths(t: Table): Dict<string, int> {
    WidthsOf(AllFields(t), TextWidth)
  }

  /** `len(str(val))`. */
  function TextWidth(v: Value): nat {
    |Show(v)|
  }

  /** A field has a width exactly when some field entry has its name. */
  lemma {:induction false} WidthsOfKeys(fields: seq<(string, Value)>, width: Value -> nat, key: string)
    ensures HasKey(WidthsOf(fields, width), key) <==> HasKey(fields, key)
    decreases |fields|
  {
    if fields != [] {
      var n := |fields| - 1;
      var w := WidthsOf(fields[..n], width);
      WidthsOfKeys(fields[..n], width, key);
      WidthsOfGet(fields, width, key);
      assert HasKey(WidthsOf(fields, width), key) <==> HasKey(w, key) || key == fields[n].0;
      HasKeyLast(fields, key);
    }
  }

  /** What the last field does to the width of `key`. */
  lemma WidthsOfGet(fields: seq<(string, Value)>, width: Value -> nat, key: string)
    requires fields != []
    ensures var w := WidthsOf(fields[..|fields| - 1], width);
      var e := fields[|fields| - 1];
      Get(WidthsOf(fields, width), key) == if key == e.0 then Some(Max(Get(w, key).GetOr(0), width(e.1))) else Get(w, key)
  {
    var w := WidthsOf(fields[..|fields| - 1], width);
    var e := fields[|fields| - 1];
    GetPut(w, e.0, Max(Get(w, e.0).GetOr(0), width(e.1)), key);
  }

  /** No text of a field is longer than its width. */
  lemma {:induction false} WidthsOfBound(fields: seq<(string, Value)>, width: Value -> nat, i: nat)
    requires i < |fields|
    ensures Get(WidthsOf(fields, width), fields[i].0).Some?
    ensures width(fields[i].1) <= Get(WidthsOf(fields, width), fields[i].0).value
    decreases |fields|
  {
    var n := |fields| - 1;
    var key := fields[i].0;
    var w := WidthsOf(fields[..n], width);
    WidthsOfGet(fields, width, key);
    if key == fields[n].0 {
      assert Get(WidthsOf(fields, width), key) == Some(Max(Get(w, key).GetOr(0), width(fields[n].1)));
      if i < n {
        assert fields[..n][i] == fields[i];
        WidthsOfBound(fields[..n], width, i);
        assert width(fields[i].1) <= Get(w, key).GetOr(0);
      }
    } else {
      assert Get(WidthsOf(fields, width), key) == Get(w, key);
      assert fields[..n][i] == fields[i];
      WidthsOfBound(fields[..n], width, i);
    }
  }

  /** The width of a field is the length of one of its texts. */
  lemma {:induction false} WidthsOfAttained(fields: seq<(string, Value)>, width: Value -> nat, key: string)
    requires HasKey(WidthsOf(fields, width), key)
    ensures exists i :: 0 <= i < |fields| && fields[i].0 == key && Get(WidthsOf(fields, width), key).value == width(fields[i].1)
    decreases |fields|
  {
    var n := |fields| - 1;
    var w := WidthsOf(fields[..n], width);
    var (k, v) := fields[n];
    GetPut(w, k, Max(Get(w, k).GetOr(0), width(v)), key);
    if k != key || (HasKey(w, key) && width(v) <= Get(w, key).value) {
      WidthsOfAttained(fields[..n], width, key);
      var j :| 0 <= j < n && fields[..n][j].0 == key && Get(w, key).value == width(fields[..n][j].1);
      assert fields[j] == fields[..n][j];
    }
  }

  /** Every field of every device has a width, at least as long as its text. */
  lemma WidthsCover(t: Table, i: nat, j: nat)
    requires i < |t| && j < |t[i].1.info|
    ensures HasKey(Widths(t), t[i].1.info[j].0)
    ensures |Show(t[i].1.info[j].1)| <= Get(Widths(t), t[i].1.info[j].0).value
  {
    var e := t[i].1.info[j];
    AllFieldsIn(t, e);
    var fields := AllFields(t);
    var k :| 0 <= k < |fields| && fields[k] == e;
    WidthsOfBound(fields, TextWidth, k);
  }

  // ---------------------------------------------------------------------------------------
  // Field-name resolution: `find_one_field`, `build_fields`

  /** `field.lower() == x.lower()`. */
  predicate SameName(field: string, x: string) {
    Lower(field) == Lower(x)
  }

  /** `field.lower() in x.lower()`. */
  predicate NameIn(field: string, x: string) {
    Contains(Lower(x), Lower(field))
  }

  /** `find_one_field(field)` over the column names: the first exact match, ignoring case, else the first that contains it. */
  function FindField(names: seq<string>, field: string): Option<string> {
    var exact := First(names, x => SameName(field, x));
    if exact.Some? then exact else First(names, x => NameIn(field, x))
  }

  /**
    An exact match wins over a substring match: the result is the first name equal to
    `field` ignoring case when there is one, otherwise the first name containing it, and
    None only when no name contains it.
   */
  lemma FindFieldSpec(names: seq<string>, field: string)
    ensures var r := FindField(names, field);
      && (r.Some? ==> r.value in names && NameIn(field, r.value))
      && ((exists i :: 0 <= i < |names| && SameName(field, names[i])) ==> r.Some? && SameName(field, r.value))
      && (r.None? <==> forall i :: 0 <= i < |names| ==> !NameIn(field, names[i]))
  {
    var same := x => SameName(field, x);
    var within := x => NameIn(field, x);
    FirstSpec(names, same);
    FirstSpec(names, within);
    forall x | SameName(field, x) ensures NameIn(field, x) {
      ContainsSelf(Lower(x));
    }
  }

  /** The resolved names that are present and not empty, in order. */
  function Resolved(names: seq<string>, fields: seq<string>): (r: seq<string>)
    decreases |fields|
  {
    if fields == [] then []
    else
      var found := FindField(names, fields[|fields| - 1]);
      Resolved(names, fields[..|fields| - 1]) + (if found.Some? && found.value != "" then [found.value] else [])
  }

  /** The resolved minimum names that are present, not empty and not already displayed, in order. */
  function Extra(names: seq<string>, fields: seq<string>, display: seq<string>): seq<string>
    decreases |fields|
  {
    if fields == [] then []
    else
      var found := FindField(names, fields[|fields| - 1]);
      Extra(names, fields[..|fields| - 1], display)
        + (if found.Some? && found.value != "" && found.value !in display then [found.value] else [])
  }

  /** `build_fields(displayfields, minimumfields)`. */
  function BuildFieldsOf(names: seq<string>, displayFields: seq<string>, minimumFields: seq<string>): seq<string> {
    var display := Resolved(names, displayFields);
    var rv := display + Extra(names, minimumFields, display);
    if rv == [] then minimumFields else rv
  }

  /** What is resolved is a column name, found for one of the asked fields. */
  lemma {:induction false} ResolvedIn(names: seq<string>, fields: seq<string>, x: string)
    ensures x in Resolved(names, fields) <==> x != "" && exists f :: f in fields && FindField(names, f) == Some(x)
    decreases |fields|
  {
    if fields != [] {
      var n := |fields| - 1;
      ResolvedIn(names, fields[..n], x);
      assert fields == fields[..n] + [fields[n]];
    }
  }

  /** The extra names are resolved minimum fields that are not displayed. */
  lemma {:induction false} ExtraIn(names: seq<string>, fields: seq<string>, display: seq<string>, x: string)
    ensures x in Extra(names, fields, display) <==>
      x != "" && x !in display && exists f :: f in fields && FindField(names, f) == Some(x)
    decreases |fields|
  {
    if fields != [] {
      var n := |fields| - 1;
      ExtraIn(names, fields[..n], display, x);
      assert fields == fields[..n] + [fields[n]];
    }
  }

  /**
    `build_fields` lists the resolved display fields, then the resolved minimum fields not
    among them; when nothing resolves it falls back to the minimum fields as given.
   */
  lemma BuildFieldsSpec(names: seq<string>, displayFields: seq<string>, minimumFields: seq<string>)
    ensures var display := Resolved(names, displayFields);
      var extra := Extra(names, minimumFields, display);
      && (display + extra != [] ==> BuildFieldsOf(names, displayFields, minimumFields) == display + extra)
      && (display + extra == [] ==> BuildFieldsOf(names, displayFields, minimumFields) == minimumFields)
      && (forall x :: x in display ==> x in names && exists f :: f in displayFields && FindField(names, f) == Some(x))
      && (forall x :: x in extra ==> x in names && x !in display && exists f :: f in minimumFields && FindField(names, f) == Some(x))
  {
    var display := Resolved(names, displayFields);
    var extra := Extra(names, minimumFields, display);
    forall x | x in display ensures x in names && exists f :: f in displayFields && FindField(names, f) == Some(x) {
      ResolvedIn(names, displayFields, x);
      var f :| f in displayFields && FindField(names, f) == Some(x);
      FindFieldSpec(names, f);
    }
    forall x | x in extra ensures x in names && x !in display && exists f :: f in minimumFields && FindField(names, f) == Some(x) {
      ExtraIn(names, minimumFields, display, x);
      var f :| f in minimumFields && FindField(names, f) == Some(x);
      FindFieldSpec(names, f);
    }
  }

  // ---------------------------------------------------------------------------------------
  // The loops of `DeviceList`, one device or one field list at a time

  /** The `override` loop of `update_with` on a known device. */
  method OverrideDevice(found: Record, device: Record, keys: seq<string>, vendorOf: Value -> Value) returns (f: Record, c: bool)
    ensures (f, c) == Override(found, device, keys, vendorOf)
  {
    f, c := found, false;
    var i := 0;
    while i < |keys|
      invariant 0 <= i <= |keys|
      invariant (f, c) == Override(found, device, keys[..i], vendorOf)
    {
      OverrideNext(found, device, keys, vendorOf, i);
      var key := keys[i];
      var v := Item(device, key, vendorOf);
      if !HasKey(f.info, key) || Item(f, key, vendorOf) != v {
        if Truthy(v) {
          f := Assign(f, key, v);
          c := true;
        }
      }
      i := i + 1;
    }
    assert keys[..i] == keys;
  }

  /** One device of `add_missing_fields`: the fields it lacks from `other`, then the vendor. */
  method CompleteDevice(mac: Value, r: Record, other: Table, vendorOf: Value -> Value) returns (c: Record)
    ensures c == Completed(mac, r, other, vendorOf)
  {
    c := r;
    if HasKey(other, mac) {
      var src := Get(other, mac).value.info;
      var i := 0;
      while i < |src|
        invariant 0 <= i <= |src|
        invariant c == FillFrom(r, src[..i])
      {
        FillFromNext(r, src, i);
        if !HasKey(c.info, src[i].0) {
          c := Assign(c, src[i].0, src[i].1);
        }
        i := i + 1;
      }
      assert src[..i] == src;
    }
    var pre := Get(c.info, "vendor").GetOr(Null);
    if !Truthy(pre) {
      var vendor := vendorOf(MacOf(c));
      if Truthy(vendor) {
        c := Record(Put(c.info, "vendor", vendor), c.changed);
      }
    }
  }

  /** The `keys` loop of `extract_incomplete`: whether the known record lacks one of them. */
  method HasMissing(known: Record, keys: seq<string>, vendorOf: Value -> Value) returns (b: bool)
    ensures b == Lacks(known, keys, vendorOf)
  {
    b := false;
    var i := 0;
    while i < |keys|
      invariant 0 <= i <= |keys|
      invariant b <==> exists j :: 0 <= j < i && LacksKey(known, keys[j], vendorOf)
    {
      if !HasKey(known.info, keys[i]) || Item(known, keys[i], vendorOf) == Str("") {
        b := true;
      }
      i := i + 1;
    }
    if Lacks(known, keys, vendorOf) {
      var key :| key in keys && LacksKey(known, key, vendorOf);
      var j :| 0 <= j < |keys| && keys[j] == key;
    }
  }

  /** The two loops of `find_one_field` over the column names. */
  method FindIn(names: seq<string>, field: string) returns (r: Option<string>)
    ensures r == FindField(names, field)
  {
    r := None;
    var i := 0;
    while i < |names|
      invariant 0 <= i <= |names|
      invariant forall j :: 0 <= j < i ==> !SameName(field, names[j])
    {
      if Lower(field) == Lower(names[i]) {
        FirstAt(names, x => SameName(field, x), i);
        return Some(names[i]);
      }
      i := i + 1;
    }
    FirstNone(names, x => SameName(field, x));
    i := 0;
    while i < |names|
      invariant 0 <= i <= |names|
      invariant forall j :: 0 <= j < i ==> !NameIn(field, names[j])
    {
      if Contains(Lower(names[i]), Lower(field)) {
        FirstAt(names, x => NameIn(field, x), i);
        return Some(names[i]);
      }
      i := i + 1;
    }
    FirstNone(names, x => NameIn(field, x));
  }

  /** Clearing the changes keeps every field, so the widths stay as they were. */
  lemma {:induction false} AllFieldsCleared(t: Table)
    ensures AllFields(ClearedTable(t)) == AllFields(t)
    decreases |t|
  {
    if t != [] {
      var n := |t| - 1;
      assert ClearedTable(t)[..n] == ClearedTable(t[..n]);
      AllFieldsCleared(t[..n]);
    }
  }

  lemma AllFieldsNext(t: Table, i: nat)
    requires i < |t|
    ensures AllFields(t[..i + 1]) == AllFields(t[..i]) + t[i].1.info
  {
    assert t[..i + 1][..i] == t[..i];
  }

  /** One field more in the width loop. */
  lemma WidthsStep(done: seq<(string, Value)>, info: Dict<string, Value>, width: Value -> nat, j: nat)
    requires j < |info|
    ensures WidthsOf(done + info[..j + 1], width) ==
      var w := WidthsOf(done + info[..j], width);
      Put(w, info[j].0, Max(Get(w, info[j].0).GetOr(0), width(info[j].1)))
  {
    var all := done + info[..j + 1];
    assert all[..|done| + j] == done + info[..j];
  }

  /** The mac-keyed inventory, whose merges update it in place. */
  class DeviceList {

    /** `mac_vendor`: the vendor the mac-prefix table gives a mac, or None. */
    const vendorOf: Value -> Value

    var devicesByMac: Table
    /** The cached `col_width()`, or None when a merge has invalidated it. */
    var cols: Option<Dict<string, int>>
    var changed: int
    var added: int

    /** No mac twice, and a cached width table is the one the devices give. */
    ghost predicate Valid()
      reads this
    {
      Distinct(devicesByMac) && (cols.Some? ==> cols.value == Widths(devicesByMac))
    }

    function Counts(): Tally
      reads this
    {
      Tally(devicesByMac, changed, added)
    }

    /** `has_changes()`. */
    predicate HasChanges()
      reads this
    {
      changed > 0 || added > 0
    }

    /** `DeviceList(devices)`: keyed by mac, first device of each mac kept, macless devices dropped. */
    constructor (devices: seq<Record>, vendorOf: Value -> Value)
      ensures devicesByMac == FromDevices(devices) && cols == None && changed == 0 && added == 0
      ensures this.vendorOf == vendorOf && Valid()
    {
      this.vendorOf := vendorOf;
      var t: Table := [];
      var i := 0;
      while i < |devices|
        invariant 0 <= i <= |devices|
        invariant t == FromDevices(devices[..i])
      {
        FromDevicesNext(devices, i);
        var mac := MacOf(devices[i]);
        if Truthy(mac) && !HasKey(t, mac) {
          t := Put(t, mac, devices[i]);
        }
        i := i + 1;
      }
      assert devices[..i] == devices;
      FromDevicesDistinct(devices);
      devicesByMac := t;
      cols := None;
      changed := 0;
      added := 0;
    }

    /** One device of `update_with`. */
    method UpdateDevice(device: Record, override: seq<string>)
      modifies this
      ensures Counts() == UpdateStep(old(Counts()), device, override, vendorOf)
      ensures cols == old(cols)
    {
      var mac := MacOf(device);
      if Truthy(mac) {
        if HasKey(devicesByMac, mac) {
          if override != [] {
            var f, c := OverrideDevice(Get(devicesByMac, mac).value, device, override, vendorOf);
            if c {
              devicesByMac := Put(devicesByMac, mac, f);
              changed := changed + 1;
            }
          }
        } else {
          added := added + 1;
          devicesByMac := Put(devicesByMac, mac, AsNew(device));
        }
      }
    }

    /** `update_with(other, override)`, `other` given as its devices in order. */
    method UpdateWith(other: seq<Record>, override: seq<string>)
      requires Valid()
      modifies this
      ensures Counts() == UpdateAll(old(Counts()), other, override, vendorOf)
      ensures cols == None && Valid()
    {
      var i := 0;
      while i < |other|
        invariant 0 <= i <= |other|
        invariant Counts() == UpdateAll(old(Counts()), other[..i], override, vendorOf)
      {
        UpdateAllNext(old(Counts()), other, override, vendorOf, i);
        UpdateDevice(other[i], override);
        i := i + 1;
      }
      assert other[..i] == other;
      UpdateAllTable(old(Counts()), other, override, vendorOf, Null);
      cols := None;
    }

    /** `add_missing_fields(other)`. */
    method AddMissingFields(other: DeviceList)
      modifies this
      ensures devicesByMac == AddMissing(old(devicesByMac), old(other.devicesByMac), vendorOf)
      ensures cols == None && changed == old(changed) && added == old(added)
      ensures old(Distinct(devicesByMac)) ==> Valid()
    {
      var src := other.devicesByMac;
      var t0 := devicesByMac;
      var i := 0;
      while i < |devicesByMac|
        invariant 0 <= i <= |devicesByMac| == |t0|
        invariant forall j :: 0 <= j < i ==> devicesByMac[j] == (t0[j].0, Completed(t0[j].0, t0[j].1, src, vendorOf))
        invariant forall j :: i <= j < |t0| ==> devicesByMac[j] == t0[j]
        invariant changed == old(changed) && added == old(added)
      {
        var c := CompleteDevice(devicesByMac[i].0, devicesByMac[i].1, src, vendorOf);
        devicesByMac := devicesByMac[i := (devicesByMac[i].0, c)];
        i := i + 1;
      }
      assert devicesByMac == AddMissing(t0, src, vendorOf);
      if Distinct(t0) {
        MapValuesDistinct(t0, (mac, r) => Completed(mac, r, src, vendorOf));
      }
      cols := None;
    }

    /** `unknown_devices()`. */
    method UnknownDevices() returns (u: DeviceList)
      ensures fresh(u) && u.devicesByMac == UnknownOf(devicesByMac) && u.vendorOf == vendorOf
    {
      var vs := Values(devicesByMac);
      var rv: seq<Record> := [];
      var i := 0;
      while i < |vs|
        invariant 0 <= i <= |vs|
        invariant rv == Filter(vs[..i], IsUnknown)
      {
        FilterPrefix(vs, IsUnknown, i);
        if !HasKey(vs[i].info, "name") || Get(vs[i].info, "name") == Some(Str("")) {
          rv := rv + [vs[i]];
        }
        i := i + 1;
      }
      assert vs[..i] == vs;
      u := new DeviceList(rv, vendorOf);
    }

    /** `extract_incomplete(live, keys)`. */
    method ExtractIncomplete(live: DeviceList, keys: seq<string>) returns (d: DeviceList)
      ensures fresh(d) && d.devicesByMac == Incomplete(devicesByMac, live.devicesByMac, keys, vendorOf)
    {
      var vs := Values(live.devicesByMac);
      var p := IncompleteTest(devicesByMac, keys, vendorOf);
      var incomplete: seq<Record> := [];
      var i := 0;
      while i < |vs|
        invariant 0 <= i <= |vs|
        invariant incomplete == Filter(vs[..i], p)
      {
        FilterPrefix(vs, p, i);
        var mac := MacOf(vs[i]);
        if HasKey(devicesByMac, mac) {
          var hasMissing := HasMissing(Get(devicesByMac, mac).value, keys, vendorOf);
          if hasMissing {
            incomplete := incomplete + [vs[i]];
          }
        }
        assert p(vs[i]) <==> HasKey(devicesByMac, mac) && Lacks(Get(devicesByMac, mac).value, keys, vendorOf);
        i := i + 1;
      }
      assert vs[..i] == vs;
      d := new DeviceList(incomplete, vendorOf);
    }

    /** `clear_changes()`: both counters reset and every device's changes cleared. */
    method ClearChanges()
      requires Valid()
      modifies this
      ensures devicesByMac == ClearedTable(old(devicesByMac)) && changed == 0 && added == 0
      ensures !HasChanges() && cols == old(cols) && Valid()
    {
      changed := 0;
      added := 0;
      var t0 := devicesByMac;
      var i := 0;
      while i < |devicesByMac|
        invariant 0 <= i <= |devicesByMac| == |t0|
        invariant forall j :: 0 <= j < i ==> devicesByMac[j] == (t0[j].0, Record(t0[j].1.info, []))
        invariant forall j :: i <= j < |t0| ==> devicesByMac[j] == t0[j]
        invariant changed == 0 && added == 0 && cols == old(cols)
      {
        devicesByMac := devicesByMac[i := (devicesByMac[i].0, Record(devicesByMac[i].1.info, []))];
        i := i + 1;
      }
      assert devicesByMac == ClearedTable(t0);
      MapValuesDistinct(t0, (mac, r: Record) => Record(r.info, []));
      AllFieldsCleared(t0);
    }

    /** `col_width()`: the cached table when there is a non-empty one, otherwise computed and cached. */
    method ColWidth() returns (w: Dict<string, int>)
      requires Valid()
      modifies this`cols
      ensures w == Widths(devicesByMac) && cols == Some(w) && Valid()
    {
      if cols.Some? && cols.value != [] {
        return cols.value;
      }
      var t := devicesByMac;
      w := [];
      var i := 0;
      while i < |t|
        invariant 0 <= i <= |t|
        invariant w == WidthsOf(AllFields(t[..i]), TextWidth)
      {
        w := AddWidths(w, AllFields(t[..i]), t[i].1.info);
        AllFieldsNext(t, i);
        i := i + 1;
      }
      assert t[..i] == t;
      cols := Some(w);
    }

    /** `find_one_field(field)` over the column names. */
    method FindOneField(field: string) returns (r: Option<string>)
      requires Valid()
      modifies this`cols
      ensures r == FindField(Keys(Widths(devicesByMac)), field) && Valid()
    {
      var w := ColWidth();
      r := FindIn(Keys(w), field);
    }

    /** `build_fields(displayfields, minimumfields)`. */
    method BuildFields(displayFields: seq<string>, minimumFields: seq<string>) returns (rv: seq<string>)
      requires Valid()
      modifies this`cols
      ensures rv == BuildFieldsOf(Keys(Widths(devicesByMac)), displayFields, minimumFields) && Valid()
    {
      var w := ColWidth();
      rv := BuildFieldsOf(Keys(w), displayFields, minimumFields);
    }
  }

  /** The inner loop of `col_width()`: one device's fields into the widths so far. */
  method AddWidths(w0: Dict<string, int>, done: seq<(string, Value)>, info: Dict<string, Value>) returns (w: Dict<string, int>)
    requires w0 == WidthsOf(done, TextWidth)
    ensures w == WidthsOf(done + info, TextWidth)
  {
    w := w0;
    var j := 0;
    assert done + info[..0] == done;
    while j < |info|
      invariant 0 <= j <= |info|
      invariant w == WidthsOf(done + info[..j], TextWidth)
    {
      WidthsStep(done, info, TextWidth, j);
      w := Put(w, info[j].0, Max(Get(w, info[j].0).GetOr(0), |Show(info[j].1)|));
      j := j + 1;
    }
    assert info[..j] == info;
  }
}
