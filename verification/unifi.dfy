/**
  The pure parts of the UniFi controller client (`bin/unifi.py`, and the older
  `network/unifi.py`, whose transforms are the same): checking the configuration, building
  request urls, and turning the controller's client records into inventory devices.
 */
module Unifi {

  import opened Wrappers
  import opened Strs
  import opened ODict
  import opened PosixPath
  import opened Lists
  import opened LanCheck

  // ---------------------------------------------------------------------------------------
  // Configuration

  /** A value `json.load` can return. */
  datatype Json = JStr(s: string) | JInt(i: int) | JBool(b: bool) | JNull | JList(items: seq<Json>) | JObj(fields: Dict<string, Json>)

  /** `key in v`: a key of an object, a substring of a string, an element of a list; None for the `TypeError` of anything else. */
  function JsonHas(v: Json, key: string): Option<bool> {
    match v
    case JObj(fields) => Some(HasKey(fields, key))
    case JStr(s) => Some(Contains(s, key))
    case JList(items) => Some(JStr(key) in items)
    case _ => None
  }

  /** `v[key]` on an object; None for the `KeyError` or `TypeError` otherwise. */
  function JsonGet(v: Json, key: string): Option<Json> {
    match v
    case JObj(fields) => Get(fields, key)
    case _ => None
  }

  /** What `validate_config` does: accept, fall through to `report_invalid_config`, or raise. */
  datatype Verdict = Accepted | Rejected | Raised

  /** `and` over membership tests, each of which may raise. */
  function AllIn(v: Json, keys: seq<string>): Option<bool>
    decreases |keys|
  {
    if keys == [] then Some(true)
    else match JsonHas(v, keys[0])
      case None => None
      case Some(false) => Some(false)
      case Some(true) => AllIn(v, keys[1..])
  }

  /** `validate_config`: the three top-level keys, then the two credentials under `login`. */
  function ValidateConfig(config: Json): Verdict {
    match AllIn(config, ["login", "site", "baseurl"])
    case None => Raised
    case Some(false) => Rejected
    case Some(true) =>
      match JsonGet(config, "login")
      case None => Raised
      case Some(login) =>
        match AllIn(login, ["username", "password"])
        case None => Raised
        case Some(false) => Rejected
        case Some(true) => Accepted
  }

  /** Every key is in `v`, when `v` is an object. */
  lemma {:induction false} AllInObject(fields: Dict<string, Json>, keys: seq<string>)
    ensures AllIn(JObj(fields), keys) == Some(forall i :: 0 <= i < |keys| ==> HasKey(fields, keys[i]))
    decreases |keys|
  {
    if keys != [] {
      AllInObject(fields, keys[1..]);
      assert forall i :: 1 <= i < |keys| ==> keys[i] == keys[1..][i - 1];
    }
  }

  /**
    For a configuration object whose `login` is an object, the configuration is accepted
    exactly when `login`, `site` and `baseurl` are present and `login` holds `username` and
    `password`; otherwise it is rejected.
   */
  lemma ValidateConfigSpec(fields: Dict<string, Json>)
    requires HasKey(fields, "login") ==> Get(fields, "login").value.JObj?
    ensures var ok := HasKey(fields, "login") && HasKey(fields, "site") && HasKey(fields, "baseurl")
        && HasKey(Get(fields, "login").value.fields, "username") && HasKey(Get(fields, "login").value.fields, "password");
      ValidateConfig(JObj(fields)) == if ok then Accepted else Rejected
  {
    AllInObject(fields, ["login", "site", "baseurl"]);
    if HasKey(fields, "login") {
      AllInObject(Get(fields, "login").value.fields, ["username", "password"]);
    }
  }

  /** The configuration `report_invalid_config` saves as a template. */
  function Template(): Json {
    JObj([("baseurl", JStr("https://localhost:8443")),
          ("login", JObj([("password", JStr("ubnt")), ("username", JStr("ubnt"))])),
          ("site", JStr("default"))])
  }

  /** The saved template passes validation. */
  lemma TemplateAccepted()
    ensures ValidateConfig(Template()) == Accepted
  {
    var f := Template().fields;
    assert Keys(f) == ["baseurl", "login", "site"];
    var login := JObj([("password", JStr("ubnt")), ("username", JStr("ubnt"))]);
    assert Keys(login.fields) == ["password", "username"];
    assert Get(f, "login") == Some(login);
    ValidateConfigSpec(f);
  }

  /** `config_file_path`: `./.unifi.json`, else `~/.unifi.json`, else `./.unifi.json` to be created. */
  function ConfigFilePath(isFile: Path -> bool, home: Path): (p: Path)
    ensures p == ".unifi.json" || (p == ExpandUser(home, "~/.unifi.json") && isFile(p) && !isFile(".unifi.json"))
    ensures isFile(".unifi.json") ==> p == ".unifi.json"
  {
    if isFile(".unifi.json") then ".unifi.json"
    else if isFile(ExpandUser(home, "~/.unifi.json")) then ExpandUser(home, "~/.unifi.json")
    else ".unifi.json"
  }

  // ---------------------------------------------------------------------------------------
  // `construct_url`

  /** The text between a `{` and its `}`, or None without a closing brace. */
  function FieldName(t: string): Option<(string, string)>
    decreases |t|
  {
    if t == "" then None
    else if t[0] == '}' then Some(("", t[1..]))
    else
      match FieldName(t[1..])
      case None => None
      case Some((name, rest)) => Some(([t[0]] + name, rest))
  }

  /**
    `str.format(site=site, baseurl=baseurl)`: `{site}` and `{baseurl}` are substituted,
    doubled braces stand for one, and anything else between braces is an error.
   */
  function Format(t: string, site: string, baseurl: string): Option<string>
    decreases |t|
  {
    if t == "" then Some("")
    else if t[0] == '{' then
      if |t| >= 2 && t[1] == '{' then
        match Format(t[2..], site, baseurl)
        case None => None
        case Some(r) => Some("{" + r)
      else
        match FieldName(t[1..])
        case None => None
        case Some((name, rest)) =>
          FieldNameShorter(t[1..]);
          if name == "site" then
            match Format(rest, site, baseurl)
            case None => None
            case Some(r) => Some(site + r)
          else if name == "baseurl" then
            match Format(rest, site, baseurl)
            case None => None
            case Some(r) => Some(baseurl + r)
          else None
    else if t[0] == '}' then
      if |t| >= 2 && t[1] == '}' then
        match Format(t[2..], site, baseurl)
        case None => None
        case Some(r) => Some("}" + r)
      else None
    else
      match Format(t[1..], site, baseurl)
      case None => None
      case Some(r) => Some([t[0]] + r)
  }

  lemma {:induction false} FieldNameShorter(t: string)
    ensures FieldName(t).Some? ==> |FieldName(t).value.1| < |t| && t == FieldName(t).value.0 + "}" + FieldName(t).value.1
    decreases |t|
  {
    if t != "" && t[0] != '}' {
      FieldNameShorter(t[1..]);
    }
  }

  /** `construct_url(urldef)`: `{baseurl}` followed by the definition, formatted. */
  function ConstructUrl(baseurl: string, site: string, urldef: string): Option<string> {
    Format("{baseurl}" + urldef, site, baseurl)
  }

  predicate NoBraces(s: string) {
    '{' !in s && '}' !in s
  }

  /** Text without braces is copied through the formatting. */
  lemma {:induction false} FormatPlain(a: string, t: string, site: string, baseurl: string)
    requires NoBraces(a)
    ensures Format(a + t, site, baseurl) == match Format(t, site, baseurl) case None => None case Some(r) => Some(a + r)
    decreases |a|
  {
    if a != "" {
      assert (a + t)[0] == a[0] && (a + t)[1..] == a[1..] + t;
      assert a[0] in a;
      FormatPlain(a[1..], t, site, baseurl);
      if Format(t, site, baseurl).Some? {
        assert [a[0]] + (a[1..] + Format(t, site, baseurl).value) == a + Format(t, site, baseurl).value;
      }
    } else {
      assert a + t == t;
      if Format(t, site, baseurl).Some? {
        assert a + Format(t, site, baseurl).value == Format(t, site, baseurl).value;
      }
    }
  }

  /** The name up to the first closing brace. */
  lemma {:induction false} FieldNameOf(name: string, t: string)
    requires '}' !in name
    ensures FieldName(name + "}" + t) == Some((name, t))
    decreases |name|
  {
    var x := name + "}" + t;
    if name == "" {
      assert x == "}" + t;
      assert x[1..] == t;
    } else {
      assert x[0] == name[0];
      assert x[1..] == name[1..] + "}" + t;
      assert name[0] in name;
      FieldNameOf(name[1..], t);
      assert [name[0]] + name[1..] == name;
    }
  }

  /** A named field is replaced by its value. */
  lemma FormatField(name: string, value: string, t: string, site: string, baseurl: string)
    requires (name == "site" && value == site) || (name == "baseurl" && value == baseurl)
    ensures Format("{" + name + "}" + t, site, baseurl) == match Format(t, site, baseurl) case None => None case Some(r) => Some(value + r)
  {
    var x := "{" + name + "}" + t;
    assert x[0] == '{' && x[1] == name[0] && name[0] != '{';
    assert x[1..] == name + "}" + t;
    FieldNameOf(name, t);
  }

  /** A definition without braces is appended to the base url. */
  lemma ConstructUrlPlain(baseurl: string, site: string, urldef: string)
    requires NoBraces(urldef)
    ensures ConstructUrl(baseurl, site, urldef) == Some(baseurl + urldef)
  {
    assert "{baseurl}" + urldef == "{" + "baseurl" + "}" + urldef;
    FormatField("baseurl", baseurl, urldef, site, baseurl);
    FormatPlain(urldef, "", site, baseurl);
    assert urldef + "" == urldef;
  }

  /** `{site}` in a definition is replaced by the configured site. */
  lemma ConstructUrlSite(baseurl: string, site: string, a: string, b: string)
    requires NoBraces(a) && NoBraces(b)
    ensures ConstructUrl(baseurl, site, a + "{site}" + b) == Some(baseurl + a + site + b)
  {
    var u := a + "{site}" + b;
    assert "{baseurl}" + u == "{" + "baseurl" + "}" + u;
    FormatField("baseurl", baseurl, u, site, baseurl);
    assert u == a + ("{" + "site" + "}" + b);
    FormatPlain(a, "{" + "site" + "}" + b, site, baseurl);
    FormatField("site", site, b, site, baseurl);
    FormatPlain(b, "", site, baseurl);
    assert b + "" == b;
    assert baseurl + (a + (site + b)) == baseurl + a + site + b;
  }

  // ---------------------------------------------------------------------------------------
  // `device_from_unifi`

  /** One `vap_table` entry: the radio's channel, its network name and its bssid. */
  datatype Vap = Vap(channel: int, essid: Value, bssid: string)

  /** A client record from the controller: its scalar fields, and its `vap_table` when it has one. */
  datatype Raw = Raw(fields: Dict<string, Value>, vapTable: Option<seq<Vap>>)

  /** What a call does: it returns a value, or it raises an exception that nothing catches. */
  datatype Raising<T> = Returns(value: T) | Raises

  /** The record has a mac that is not text: `.upper()` raises on it. */
  predicate MacNotText(one: Raw) {
    HasKey(one.fields, "mac") && !Get(one.fields, "mac").value.Str?
  }

  /**
    `device_from_unifi` raises on the record: its mac is not text, or it has an address but no
    mac, so that `add_vendor` looks up the vendor of None.
   */
  predicate Crashes(one: Raw) {
    MacNotText(one) || (HasKey(one.fields, "ip") && !HasKey(one.fields, "mac"))
  }

  /** The record makes a device: it has an address and a text mac. */
  predicate Makes(one: Raw) {
    HasKey(one.fields, "ip") && HasKey(one.fields, "mac") && Get(one.fields, "mac").value.Str?
  }

  /** `defs`: each controller key with the device field it becomes, in the dictionary's order. */
  function Defs(): seq<(string, string)> {
    [("ip", "ipv4"), ("name", "name"), ("hostname", "hostname"), ("mac", "mac"), ("model", "model"), ("_id", "_id")]
  }

  /** The renaming loop: each listed key the record has is copied under its new name. */
  function Renamed(fields: Dict<string, Value>, defs: seq<(string, string)>): Dict<string, Value>
    decreases |defs|
  {
    if defs == [] then []
    else
      var info := Renamed(fields, defs[..|defs| - 1]);
      var (key, mapped) := defs[|defs| - 1];
      if HasKey(fields, key) then Put(info, mapped, Get(fields, key).value) else info
  }

  lemma RenamedNext(fields: Dict<string, Value>, defs: seq<(string, string)>, i: nat)
    requires i < |defs|
    ensures Renamed(fields, defs[..i + 1]) ==
      var info := Renamed(fields, defs[..i]);
      if HasKey(fields, defs[i].0) then Put(info, defs[i].1, Get(fields, defs[i].0).value) else info
  {
    assert defs[..i + 1][..i] == defs[..i];
  }

  /** No two keys are renamed to the same field. */
  predicate DistinctTargets(defs: seq<(string, string)>) {
    forall i, j :: 0 <= i < j < |defs| ==> defs[i].1 != defs[j].1
  }

  /**
    With distinct targets, a renamed field holds what the record has under the old name, and
    no field that is not a target is made.
   */
  lemma {:induction false} RenamedGet(fields: Dict<string, Value>, defs: seq<(string, string)>, field: string)
    requires DistinctTargets(defs)
    ensures forall i :: 0 <= i < |defs| && defs[i].1 == field ==> Get(Renamed(fields, defs), field) == Get(fields, defs[i].0)
    ensures (forall i :: 0 <= i < |defs| ==> defs[i].1 != field) ==> !HasKey(Renamed(fields, defs), field)
    decreases |defs|
  {
    if defs != [] {
      var n := |defs| - 1;
      var info := Renamed(fields, defs[..n]);
      assert DistinctTargets(defs[..n]) by {
        forall i, j | 0 <= i < j < n ensures defs[..n][i].1 != defs[..n][j].1 {
          assert defs[..n][i] == defs[i] && defs[..n][j] == defs[j];
        }
      }
      RenamedGet(fields, defs[..n], field);
      if HasKey(fields, defs[n].0) {
        GetPut(info, defs[n].1, Get(fields, defs[n].0).value, field);
      }
      forall i | 0 <= i < n && defs[i].1 == field
        ensures Get(Renamed(fields, defs), field) == Get(fields, defs[i].0)
      {
        assert defs[..n][i] == defs[i];
      }
      if forall i :: 0 <= i < |defs| ==> defs[i].1 != field {
        assert forall i :: 0 <= i < n ==> defs[..n][i].1 != field by {
          forall i | 0 <= i < n ensures defs[..n][i].1 != field {
            assert defs[..n][i] == defs[i];
          }
        }
      }
    }
  }

  /** `.upper()` of a text value. */
  function UpperValue(v: Value): Value {
    match v
    case Str(s) => Str(Upper(s))
    case _ => v
  }

  /** The mac, when there is one, upper-cased. */
  function UpperMac(info: Dict<string, Value>): Dict<string, Value> {
    if HasKey(info, "mac") then Put(info, "mac", UpperValue(Get(info, "mac").value)) else info
  }

  /** A missing `name` takes the `hostname`. */
  function DefaultName(info: Dict<string, Value>): Dict<string, Value> {
    if !HasKey(info, "name") && HasKey(info, "hostname") then Put(info, "name", Get(info, "hostname").value) else info
  }

  /** The gateway's public address. */
  const GatewayWan := "81.187.137.231"

  /** The gateway's public address is replaced by its address on the local network. */
  function GatewayAddress(info: Dict<string, Value>): Dict<string, Value> {
    if HasKey(info, "ipv4") && Get(info, "ipv4").value == Str(GatewayWan) then Put(info, "ipv4", Str("192.168.1.1")) else info
  }

  /** `models`: the fields a known model code stands for. */
  function ModelOf(code: Value): Option<Dict<string, Value>> {
    match code
    case Str(c) =>
      if c == "U7NHD" then Some([("model", Str("UniFi AP-nanoHD")), ("image", Str("unifi_U7NHD.png"))])
      else if c == "U7HD" then Some([("model", Str("UniFi Ap-HD")), ("image", Str("unifi_U7NHD.png"))])
      else if c == "UGW4" then Some([("model", Str("UniFi Security Gateway 4P")), ("image", Str("unifi_UGW4.png"))])
      else if c == "US24P250" then Some([("model", Str("UniFi Switch 24 POE")), ("image", Str("unifi_US24P250.png"))])
      else if c == "US8P60" then Some([("model", Str("UniFi Switch 8 POE")), ("image", Str("unifi_US8P60.png"))])
      else None
    case _ => None
  }

  /** Every entry of `kvs` written into `info`, in order. */
  function PutAll(info: Dict<string, Value>, kvs: Dict<string, Value>): Dict<string, Value>
    decreases |kvs|
  {
    if kvs == [] then info
    else Put(PutAll(info, kvs[..|kvs| - 1]), kvs[|kvs| - 1].0, kvs[|kvs| - 1].1)
  }

  /** A known model code is replaced by the model's full name and its image. */
  function ExpandModel(info: Dict<string, Value>): Dict<string, Value> {
    if HasKey(info, "model") && ModelOf(Get(info, "model").value).Some? then PutAll(info, ModelOf(Get(info, "model").value).value)
    else info
  }

  /** The fields `device_from_unifi` builds, before the vendor. */
  function DeviceInfo(one: Raw): Dict<string, Value> {
    ExpandModel(GatewayAddress(DefaultName(UpperMac(Renamed(one.fields, Defs())))))
  }

  /**
    `device_from_unifi(one)`: it raises when `.upper()` meets a mac that is not text; it returns
    None without an address; it raises when `add_vendor` looks up the vendor of a missing mac;
    otherwise it returns a new device with its vendor added.
   */
  function DeviceFrom(one: Raw, vendorOf: Value -> Value): Raising<Option<Record>> {
    var i0 := Renamed(one.fields, Defs());
    if HasKey(i0, "mac") && !Get(i0, "mac").value.Str? then Raises
    else
      var info := DeviceInfo(one);
      if !HasKey(info, "ipv4") then Returns(None)
      else if !HasKey(info, "mac") then Raises
      else Returns(Some(AddVendor(Record(info, []), vendorOf)))
  }

  /** The device a record makes. */
  function Made(one: Raw, vendorOf: Value -> Value): Record
    requires DeviceFrom(one, vendorOf).Returns? && DeviceFrom(one, vendorOf).value.Some?
  {
    DeviceFrom(one, vendorOf).value.value
  }

  /** The renaming table sends `ip` to `ipv4` and keeps the other five names. */
  lemma DefsRenamed(fields: Dict<string, Value>, field: string)
    ensures Get(Renamed(fields, Defs()), field) ==
      if field == "ipv4" then Get(fields, "ip")
      else if field in {"name", "hostname", "mac", "model", "_id"} then Get(fields, field)
      else None
  {
    var d := Defs();
    assert DistinctTargets(d);
    RenamedGet(fields, d, field);
    if field == "ipv4" { assert d[0].1 == field; }
    else if field == "name" { assert d[1].1 == field; }
    else if field == "hostname" { assert d[2].1 == field; }
    else if field == "mac" { assert d[3].1 == field; }
    else if field == "model" { assert d[4].1 == field; }
    else if field == "_id" { assert d[5].1 == field; }
  }

  lemma UpperMacGet(info: Dict<string, Value>, key: string)
    ensures Get(UpperMac(info), key) == if key == "mac" && HasKey(info, key) then Some(UpperValue(Get(info, key).value)) else Get(info, key)
  {
    if HasKey(info, "mac") {
      GetPut(info, "mac", UpperValue(Get(info, "mac").value), key);
    }
  }

  lemma DefaultNameGet(info: Dict<string, Value>, key: string)
    ensures Get(DefaultName(info), key) == if key == "name" && !HasKey(info, key) then Get(info, "hostname") else Get(info, key)
  {
    if !HasKey(info, "name") && HasKey(info, "hostname") {
      GetPut(info, "name", Get(info, "hostname").value, key);
    }
  }

  lemma GatewayAddressGet(info: Dict<string, Value>, key: string)
    ensures Get(GatewayAddress(info), key) == if key == "ipv4" && Get(info, key) == Some(Str(GatewayWan)) then Some(Str("192.168.1.1")) else Get(info, key)
  {
    if HasKey(info, "ipv4") && Get(info, "ipv4").value == Str(GatewayWan) {
      GetPut(info, "ipv4", Str("192.168.1.1"), key);
    }
  }

  /** Writing a dictionary without repeated keys: its keys take its values, the rest are kept. */
  lemma {:induction false} PutAllGet(info: Dict<string, Value>, kvs: Dict<string, Value>, key: string)
    requires Distinct(kvs)
    ensures Get(PutAll(info, kvs), key) == if HasKey(kvs, key) then Get(kvs, key) else Get(info, key)
    decreases |kvs|
  {
    if kvs != [] {
      var n := |kvs| - 1;
      assert Distinct(kvs[..n]) by {
        forall i, j | 0 <= i < j < n ensures kvs[..n][i].0 != kvs[..n][j].0 {
          assert kvs[..n][i] == kvs[i] && kvs[..n][j] == kvs[j];
        }
      }
      PutAllGet(info, kvs[..n], key);
      GetPut(PutAll(info, kvs[..n]), kvs[n].0, kvs[n].1, key);
      GetLast(kvs, key);
      HasKeyLast(kvs, key);
    }
  }

  lemma ExpandModelGet(info: Dict<string, Value>, key: string)
    ensures Get(ExpandModel(info), key) ==
      if HasKey(info, "model") && ModelOf(Get(info, "model").value).Some? && key in {"model", "image"}
      then Get(ModelOf(Get(info, "model").value).value, key)
      else Get(info, key)
  {
    if HasKey(info, "model") && ModelOf(Get(info, "model").value).Some? {
      var m := ModelOf(Get(info, "model").value).value;
      assert Keys(m) == ["model", "image"];
      PutAllGet(info, m, key);
    }
  }

  /** A field of the built device, given its value after renaming and the three rewrites. */
  lemma DeviceInfoGet(one: Raw, key: string)
    ensures var i0 := Renamed(one.fields, Defs());
      var i1 := UpperMac(i0);
      var i2 := DefaultName(i1);
      var i3 := GatewayAddress(i2);
      && Get(i1, key) == (if key == "mac" && HasKey(i0, key) then Some(UpperValue(Get(i0, key).value)) else Get(i0, key))
      && Get(i2, key) == (if key == "name" && !HasKey(i1, key) then Get(i1, "hostname") else Get(i1, key))
      && Get(i3, key) == (if key == "ipv4" && Get(i2, key) == Some(Str(GatewayWan)) then Some(Str("192.168.1.1")) else Get(i2, key))
      && Get(DeviceInfo(one), key) ==
           if HasKey(i3, "model") && ModelOf(Get(i3, "model").value).Some? && key in {"model", "image"}
           then Get(ModelOf(Get(i3, "model").value).value, key)
           else Get(i3, key)
  {
    var i0 := Renamed(one.fields, Defs());
    var i1 := UpperMac(i0);
    var i2 := DefaultName(i1);
    var i3 := GatewayAddress(i2);
    UpperMacGet(i0, key);
    DefaultNameGet(i1, key);
    GatewayAddressGet(i2, key);
    ExpandModelGet(i3, key);
  }

  /**
    `device_from_unifi` raises exactly on a record that crashes it, returns None exactly for a
    record without an address that does not, and otherwise makes a device with no changes.
   */
  lemma DeviceFromOutcome(one: Raw, vendorOf: Value -> Value)
    ensures DeviceFrom(one, vendorOf).Raises? <==> Crashes(one)
    ensures DeviceFrom(one, vendorOf) == Returns(None) <==> !Crashes(one) && !HasKey(one.fields, "ip")
    ensures DeviceFrom(one, vendorOf).Returns? && DeviceFrom(one, vendorOf).value.Some? <==> Makes(one)
    ensures Makes(one) ==> Made(one, vendorOf).changed == []
  {
    DeviceInfoKeys(one);
    if Makes(one) {
      DeviceFromMade(one, vendorOf);
    }
  }

  /** The renamed fields hold the record's mac; the built fields have an address and a mac exactly when the record has. */
  lemma DeviceInfoKeys(one: Raw)
    ensures Get(Renamed(one.fields, Defs()), "mac") == Get(one.fields, "mac")
    ensures HasKey(DeviceInfo(one), "ipv4") <==> HasKey(one.fields, "ip")
    ensures HasKey(DeviceInfo(one), "mac") <==> HasKey(one.fields, "mac")
  {
    DefsRenamed(one.fields, "ipv4");
    DefsRenamed(one.fields, "mac");
    DeviceInfoGet(one, "ipv4");
    DeviceInfoGet(one, "mac");
  }

  /** A record that makes a device gives its built fields, with the vendor added. */
  lemma DeviceFromMade(one: Raw, vendorOf: Value -> Value)
    requires Makes(one)
    ensures DeviceFrom(one, vendorOf) == Returns(Some(AddVendor(Record(DeviceInfo(one), []), vendorOf)))
  {
    DeviceInfoKeys(one);
  }

  /** The address is the record's `ip`, except that the gateway's public address becomes `192.168.1.1`. */
  lemma DeviceFromAddress(one: Raw, vendorOf: Value -> Value)
    requires Makes(one)
    ensures DeviceFrom(one, vendorOf).Returns? && DeviceFrom(one, vendorOf).value.Some?
    ensures var ip := Get(one.fields, "ip").value;
      Get(Made(one, vendorOf).info, "ipv4") == Some(if ip == Str(GatewayWan) then Str("192.168.1.1") else ip)
  {
    DeviceFromMade(one, vendorOf);
    DefsRenamed(one.fields, "ipv4");
    DeviceInfoGet(one, "ipv4");
    AddVendorFields(Record(DeviceInfo(one), []), vendorOf, "ipv4");
  }

  /** The mac is the record's mac upper-cased. */
  lemma DeviceFromMac(one: Raw, vendorOf: Value -> Value)
    requires Makes(one)
    ensures DeviceFrom(one, vendorOf).Returns? && DeviceFrom(one, vendorOf).value.Some?
    ensures MacOf(Made(one, vendorOf)) == Str(Upper(Get(one.fields, "mac").value.s))
  {
    DeviceFromMade(one, vendorOf);
    DeviceInfoVendor(one);
    AddVendorFields(Record(DeviceInfo(one), []), vendorOf, "mac");
  }

  /** `name` is the record's name, or its hostname when it has no name; `hostname` and `_id` are copied. */
  lemma DeviceFromName(one: Raw, vendorOf: Value -> Value)
    requires Makes(one)
    ensures DeviceFrom(one, vendorOf).Returns? && DeviceFrom(one, vendorOf).value.Some?
    ensures var info := Made(one, vendorOf).info;
      && Get(info, "name") == (if HasKey(one.fields, "name") then Get(one.fields, "name") else Get(one.fields, "hostname"))
      && Get(info, "hostname") == Get(one.fields, "hostname")
      && Get(info, "_id") == Get(one.fields, "_id")
  {
    DeviceFromMade(one, vendorOf);
    var r := Record(DeviceInfo(one), []);
    DefsRenamed(one.fields, "name");
    DefsRenamed(one.fields, "hostname");
    DefsRenamed(one.fields, "_id");
    DeviceInfoGet(one, "name");
    DeviceInfoGet(one, "hostname");
    DeviceInfoGet(one, "_id");
    AddVendorFields(r, vendorOf, "name");
    AddVendorFields(r, vendorOf, "hostname");
    AddVendorFields(r, vendorOf, "_id");
  }

  /** A known model code gives the model's full name and image; any other model is copied and no image is set. */
  lemma DeviceFromModel(one: Raw, vendorOf: Value -> Value)
    requires Makes(one)
    ensures DeviceFrom(one, vendorOf).Returns? && DeviceFrom(one, vendorOf).value.Some?
    ensures var info := Made(one, vendorOf).info;
      var code := Get(one.fields, "model");
      if code.Some? && ModelOf(code.value).Some? then
        Get(info, "model") == Get(ModelOf(code.value).value, "model") && Get(info, "image") == Get(ModelOf(code.value).value, "image")
      else
        Get(info, "model") == code && !HasKey(info, "image")
  {
    DeviceFromMade(one, vendorOf);
    var r := Record(DeviceInfo(one), []);
    DefsRenamed(one.fields, "model");
    DefsRenamed(one.fields, "image");
    DeviceInfoGet(one, "model");
    DeviceInfoGet(one, "image");
    AddVendorFields(r, vendorOf, "model");
    AddVendorFields(r, vendorOf, "image");
  }

  /** The device holds only the renamed fields, `image` and `vendor`. */
  lemma DeviceFromOnly(one: Raw, vendorOf: Value -> Value, key: string)
    requires Makes(one)
    requires key !in {"ipv4", "name", "hostname", "mac", "model", "_id", "image", "vendor"}
    ensures DeviceFrom(one, vendorOf).Returns? && DeviceFrom(one, vendorOf).value.Some?
    ensures !HasKey(Made(one, vendorOf).info, key)
  {
    DeviceFromMade(one, vendorOf);
    DefsRenamed(one.fields, key);
    DeviceInfoGet(one, key);
    AddVendorFields(Record(DeviceInfo(one), []), vendorOf, key);
  }

  /** The vendor is the one the mac-prefix table gives the record's upper-cased mac, when that is truthy. */
  lemma DeviceFromVendor(one: Raw, vendorOf: Value -> Value)
    requires Makes(one)
    ensures DeviceFrom(one, vendorOf).Returns? && DeviceFrom(one, vendorOf).value.Some?
    ensures var m := vendorOf(Str(Upper(Get(one.fields, "mac").value.s)));
      Get(Made(one, vendorOf).info, "vendor") == if Truthy(m) then Some(m) else None
  {
    DeviceFromMade(one, vendorOf);
    var r := Record(DeviceInfo(one), []);
    DeviceInfoVendor(one);
    AddVendorFields(r, vendorOf, "vendor");
  }

  /** The built fields hold no vendor, and the record's text mac upper-cased. */
  lemma DeviceInfoVendor(one: Raw)
    requires HasKey(one.fields, "mac") && Get(one.fields, "mac").value.Str?
    ensures !HasKey(DeviceInfo(one), "vendor")
    ensures Get(DeviceInfo(one), "mac") == Some(Str(Upper(Get(one.fields, "mac").value.s)))
  {
    DefsRenamed(one.fields, "vendor");
    DefsRenamed(one.fields, "mac");
    DeviceInfoGet(one, "vendor");
    DeviceInfoGet(one, "mac");
  }

  /** The renaming loop of `device_from_unifi`. */
  method RenameFields(fields: Dict<string, Value>, defs: seq<(string, string)>) returns (info: Dict<string, Value>)
    ensures info == Renamed(fields, defs)
  {
    info := [];
    var i := 0;
    while i < |defs|
      invariant 0 <= i <= |defs|
      invariant info == Renamed(fields, defs[..i])
    {
      RenamedNext(fields, defs, i);
      if HasKey(fields, defs[i].0) {
        info := Put(info, defs[i].1, Get(fields, defs[i].0).value);
      }
      i := i + 1;
    }
    assert defs[..i] == defs;
  }

  /** The model loop of `device_from_unifi`: each field of a known model written in turn. */
  method ExpandModelFields(info0: Dict<string, Value>) returns (info: Dict<string, Value>)
    ensures info == ExpandModel(info0)
  {
    info := info0;
    if HasKey(info, "model") && ModelOf(Get(info, "model").value).Some? {
      var kvs := ModelOf(Get(info, "model").value).value;
      var j := 0;
      while j < |kvs|
        invariant 0 <= j <= |kvs|
        invariant info == PutAll(info0, kvs[..j])
      {
        assert kvs[..j + 1][..j] == kvs[..j];
        info := Put(info, kvs[j].0, kvs[j].1);
        j := j + 1;
      }
      assert kvs[..j] == kvs;
    }
  }

  /** `device_from_unifi(one)`, building `info` step by step. */
  method DeviceFromUnifi(one: Raw, vendorOf: Value -> Value) returns (dev: Raising<Option<Record>>)
    ensures dev == DeviceFrom(one, vendorOf)
  {
    var info := RenameFields(one.fields, Defs());
    if HasKey(info, "mac") {
      if !Get(info, "mac").value.Str? {
        return Raises;
      }
      info := Put(info, "mac", UpperValue(Get(info, "mac").value));
    }
    assert info == UpperMac(Renamed(one.fields, Defs()));
    if !HasKey(info, "name") && HasKey(info, "hostname") {
      info := Put(info, "name", Get(info, "hostname").value);
    }
    assert info == DefaultName(UpperMac(Renamed(one.fields, Defs())));
    if HasKey(info, "ipv4") && Get(info, "ipv4").value == Str(GatewayWan) {
      info := Put(info, "ipv4", Str("192.168.1.1"));
    }
    info := ExpandModelFields(info);
    assert info == DeviceInfo(one);
    if !HasKey(info, "ipv4") {
      return Returns(None);
    }
    if !HasKey(info, "mac") {
      return Raises;
    }
    dev := Returns(Some(AddVendor(Record(info, []), vendorOf)));
  }

  // ---------------------------------------------------------------------------------------
  // `wifi_devices_from_unifi`

  /** The `frequency` a channel is on. */
  function Band(channel: int): string {
    if channel > 20 then "5 Ghz" else "2.4 Ghz"
  }

  /** The fields of one access point's device: the main device's, with the entry's radio, band and network. */
  function WifiInfo(main: Dict<string, Value>, vap: Vap): Dict<string, Value> {
    var n := Put(Put(Put(main, "channel", Int(vap.channel)), "ssid", vap.essid), "mac", Str(vap.bssid));
    UpperMac(Put(Put(n, "frequency", Str(Band(vap.channel))), "network", Str("Chiddingstone")))
  }

  /**
    An access point's device has the entry's channel and network name, its bssid upper-cased
    as mac, the band of its channel, the fixed network name, and otherwise the main device's fields.
   */
  lemma WifiInfoGet(main: Dict<string, Value>, vap: Vap, key: string)
    ensures Get(WifiInfo(main, vap), key) ==
      if key == "channel" then Some(Int(vap.channel))
      else if key == "ssid" then Some(vap.essid)
      else if key == "mac" then Some(Str(Upper(vap.bssid)))
      else if key == "frequency" then Some(Str(if vap.channel > 20 then "5 Ghz" else "2.4 Ghz"))
      else if key == "network" then Some(Str("Chiddingstone"))
      else Get(main, key)
  {
    var n0 := Put(main, "channel", Int(vap.channel));
    var n1 := Put(n0, "ssid", vap.essid);
    var n2 := Put(n1, "mac", Str(vap.bssid));
    var n3 := Put(n2, "frequency", Str(Band(vap.channel)));
    var n4 := Put(n3, "network", Str("Chiddingstone"));
    GetPut(main, "channel", Int(vap.channel), key);
    GetPut(n0, "ssid", vap.essid, key);
    GetPut(n1, "mac", Str(vap.bssid), key);
    GetPut(n2, "frequency", Str(Band(vap.channel)), key);
    GetPut(n3, "network", Str("Chiddingstone"), key);
    GetPut(n3, "network", Str("Chiddingstone"), "mac");
    GetPut(n2, "frequency", Str(Band(vap.channel)), "mac");
    GetPut(n1, "mac", Str(vap.bssid), "mac");
    UpperMacGet(n4, key);
  }

  /** One device per `vap_table` entry, built from the main device. */
  function WifiOf(main: Record): Vap -> Record {
    vap => Record(WifiInfo(main.info, vap), [])
  }

  /** The record's `vap_table` entries; none when it has no table. */
  function Vaps(one: Raw): seq<Vap> {
    if one.vapTable.Some? then one.vapTable.value else []
  }

  /**
    `wifi_devices_from_unifi(one)`: what `device_from_unifi` raises, None when it makes no main
    device or there is no entry, otherwise a list of the access-point devices.
   */
  function WifiDevices(one: Raw, vendorOf: Value -> Value): Raising<Option<Table>> {
    match DeviceFrom(one, vendorOf)
    case Raises => Raises
    case Returns(None) => Returns(None)
    case Returns(Some(main)) =>
      var rv := Map(Vaps(one), WifiOf(main));
      Returns(if rv == [] then None else Some(FromDevices(rv)))
  }

  /**
    `wifi_devices_from_unifi` raises exactly on a record that crashes `device_from_unifi`, and
    otherwise gives a list exactly when the record makes a device and has a `vap_table` entry.
   */
  lemma WifiDevicesOutcome(one: Raw, vendorOf: Value -> Value)
    ensures WifiDevices(one, vendorOf).Raises? <==> Crashes(one)
    ensures WifiDevices(one, vendorOf).Returns? && WifiDevices(one, vendorOf).value.Some? <==> Makes(one) && Vaps(one) != []
  {
    DeviceFromOutcome(one, vendorOf);
    if Makes(one) {
      MapAt(Vaps(one), WifiOf(Made(one, vendorOf)));
    }
  }

  /** An entry's device has the entry's upper-cased bssid as mac. */
  lemma WifiMac(main: Record, vap: Vap)
    ensures MacOf(WifiOf(main)(vap)) == Str(Upper(vap.bssid))
  {
    WifiInfoGet(main.info, vap, "mac");
  }

  /** The macs of the entries' devices are the entries' upper-cased bssids. */
  lemma WifiMacs(main: Record, vaps: seq<Vap>, k: Value)
    ensures HasMac(Map(vaps, WifiOf(main)), k) <==> Truthy(k) && exists i :: 0 <= i < |vaps| && k == Str(Upper(vaps[i].bssid))
  {
    var rv := Map(vaps, WifiOf(main));
    MapAt(vaps, WifiOf(main));
    forall i | 0 <= i < |vaps| ensures MacOf(rv[i]) == Str(Upper(vaps[i].bssid)) {
      WifiMac(main, vaps[i]);
    }
    MacsAt(rv, vaps, k);
  }

  lemma MacsAt(rv: seq<Record>, vaps: seq<Vap>, k: Value)
    requires |rv| == |vaps| && forall i :: 0 <= i < |vaps| ==> MacOf(rv[i]) == Str(Upper(vaps[i].bssid))
    ensures HasMac(rv, k) <==> Truthy(k) && exists i :: 0 <= i < |vaps| && k == Str(Upper(vaps[i].bssid))
  {
    if HasMac(rv, k) {
      var d :| d in rv && MacOf(d) == k;
      var i :| 0 <= i < |rv| && rv[i] == d;
      assert k == Str(Upper(vaps[i].bssid));
    }
    if Truthy(k) && exists i :: 0 <= i < |vaps| && k == Str(Upper(vaps[i].bssid)) {
      var i :| 0 <= i < |vaps| && k == Str(Upper(vaps[i].bssid));
      assert rv[i] in rv;
    }
  }

  /** The list holds the non-empty upper-cased bssids of the entries, and nothing else. */
  lemma WifiDevicesKeys(one: Raw, vendorOf: Value -> Value, k: Value)
    requires WifiDevices(one, vendorOf).Returns? && WifiDevices(one, vendorOf).value.Some?
    ensures HasKey(WifiDevices(one, vendorOf).value.value, k) <==>
      Truthy(k) && exists i :: 0 <= i < |Vaps(one)| && k == Str(Upper(Vaps(one)[i].bssid))
  {
    var main := DeviceFrom(one, vendorOf).value.value;
    FromDevicesKeys(Map(Vaps(one), WifiOf(main)), k);
    WifiMacs(main, Vaps(one), k);
  }

  /** The device kept for a bssid is the one built from the first entry with that bssid. */
  lemma WifiDevicesFirst(one: Raw, vendorOf: Value -> Value, i: nat)
    requires Makes(one) && i < |Vaps(one)|
    requires Upper(Vaps(one)[i].bssid) != ""
    requires forall j :: 0 <= j < i ==> Upper(Vaps(one)[j].bssid) != Upper(Vaps(one)[i].bssid)
    ensures DeviceFrom(one, vendorOf).Returns? && DeviceFrom(one, vendorOf).value.Some?
    ensures WifiDevices(one, vendorOf).Returns? && WifiDevices(one, vendorOf).value.Some?
    ensures Get(WifiDevices(one, vendorOf).value.value, Str(Upper(Vaps(one)[i].bssid))) ==
      Some(Record(WifiInfo(Made(one, vendorOf).info, Vaps(one)[i]), []))
  {
    DeviceFromOutcome(one, vendorOf);
    WifiDevicesOutcome(one, vendorOf);
    var main := Made(one, vendorOf);
    var vaps := Vaps(one);
    var rv := Map(vaps, WifiOf(main));
    MapAt(vaps, WifiOf(main));
    forall j | 0 <= j <= i ensures MacOf(rv[j]) == Str(Upper(vaps[j].bssid)) {
      WifiMac(main, vaps[j]);
    }
    FromDevicesFirst(rv, i);
  }

  /** The body of the `vap_table` loop: one entry's fields, assigned in turn. */
  method WifiEntry(main: Dict<string, Value>, wifi: Vap) returns (newinfo: Dict<string, Value>)
    ensures newinfo == WifiInfo(main, wifi)
  {
    newinfo := main;
    newinfo := Put(newinfo, "channel", Int(wifi.channel));
    newinfo := Put(newinfo, "ssid", wifi.essid);
    newinfo := Put(newinfo, "mac", Str(wifi.bssid));
    if wifi.channel > 20 {
      newinfo := Put(newinfo, "frequency", Str("5 Ghz"));
    } else {
      newinfo := Put(newinfo, "frequency", Str("2.4 Ghz"));
    }
    newinfo := Put(newinfo, "network", Str("Chiddingstone"));
    if HasKey(newinfo, "mac") {
      newinfo := Put(newinfo, "mac", UpperValue(Get(newinfo, "mac").value));
    }
  }

  /** The `vap_table` loop: one device per entry, in order. */
  method WifiRecords(main: Record, vaps: seq<Vap>) returns (rv: seq<Record>)
    ensures rv == Map(vaps, WifiOf(main))
  {
    rv := [];
    var i := 0;
    while i < |vaps|
      invariant 0 <= i <= |vaps|
      invariant rv == Map(vaps[..i], WifiOf(main))
    {
      MapPrefix(vaps, WifiOf(main), i);
      var newinfo := WifiEntry(main.info, vaps[i]);
      rv := rv + [Record(newinfo, [])];
      i := i + 1;
    }
    assert vaps[..i] == vaps;
  }

  /** `wifi_devices_from_unifi(one)`: the entries' devices collected in a list, then keyed by mac. */
  method WifiDevicesFromUnifi(one: Raw, vendorOf: Value -> Value) returns (w: Raising<Option<DeviceList>>)
    ensures w.Raises? <==> WifiDevices(one, vendorOf).Raises?
    ensures w.Returns? ==> (w.value.Some? <==> WifiDevices(one, vendorOf).value.Some?)
    ensures w.Returns? && w.value.Some? ==>
      (fresh(w.value.value) && w.value.value.devicesByMac == WifiDevices(one, vendorOf).value.value
       && w.value.value.vendorOf == vendorOf && w.value.value.Valid())
  {
    var main := DeviceFromUnifi(one, vendorOf);
    if main.Raises? {
      return Raises;
    }
    if main.value.None? {
      return Returns(None);
    }
    var rv := WifiRecords(main.value.value, Vaps(one));
    if rv == [] {
      return Returns(None);
    }
    var d := new DeviceList(rv, vendorOf);
    w := Returns(Some(d));
  }

  // ---------------------------------------------------------------------------------------
  // `device_list_from_unifi`

  /**
    One record of `device_list_from_unifi`: its device merged in, then its access points,
    neither overriding; what `device_from_unifi` raises ends the call.
   */
  function MergeRecord(s: Tally, one: Raw, vendorOf: Value -> Value): Raising<Tally> {
    match DeviceFrom(one, vendorOf)
    case Raises => Raises
    case Returns(dev) =>
      var s1 := if dev.Some? then UpdateAll(s, Values(FromDevices([dev.value])), [], vendorOf) else s;
      match WifiDevices(one, vendorOf)
      case Raises => Raises
      case Returns(wifi) => Returns(if wifi.Some? && |wifi.value| > 0 then UpdateAll(s1, Values(wifi.value), [], vendorOf) else s1)
  }

  /** The records merged in order, up to the first that raises. */
  function MergeRecords(s: Tally, all: seq<Raw>, vendorOf: Value -> Value): Raising<Tally>
    decreases |all|
  {
    if all == [] then Returns(s)
    else
      match MergeRecords(s, all[..|all| - 1], vendorOf)
      case Raises => Raises
      case Returns(mid) => MergeRecord(mid, all[|all| - 1], vendorOf)
  }

  lemma MergeRecordsNext(s: Tally, all: seq<Raw>, vendorOf: Value -> Value, i: nat)
    requires i < |all|
    ensures MergeRecords(s, all[..i + 1], vendorOf) ==
      match MergeRecords(s, all[..i], vendorOf)
      case Raises => Raises
      case Returns(mid) => MergeRecord(mid, all[i], vendorOf)
  {
    assert all[..i + 1][..i] == all[..i];
  }

  /** Once a record has raised, the records after it change nothing: the call raises. */
  lemma {:induction false} MergeRecordsStays(s: Tally, all: seq<Raw>, vendorOf: Value -> Value, i: nat)
    requires i <= |all| && MergeRecords(s, all[..i], vendorOf).Raises?
    ensures MergeRecords(s, all, vendorOf).Raises?
    decreases |all|
  {
    if i < |all| {
      var n := |all| - 1;
      assert all[..n][..i] == all[..i];
      MergeRecordsStays(s, all[..n], vendorOf, i);
    } else {
      assert all[..i] == all;
    }
  }

  /** The macs a record brings: its device's, and its access points'. */
  predicate Offers(one: Raw, vendorOf: Value -> Value, k: Value) {
    var dev := DeviceFrom(one, vendorOf);
    var wifi := WifiDevices(one, vendorOf);
    (dev.Returns? && dev.value.Some? && Truthy(k) && MacOf(dev.value.value) == k)
    || (wifi.Returns? && wifi.value.Some? && HasKey(wifi.value.value, k))
  }

  /** The devices of a list built from devices have exactly the list's macs. */
  lemma ValuesMacs(ds: seq<Record>, k: Value)
    ensures HasMac(Values(FromDevices(ds)), k) <==> HasKey(FromDevices(ds), k)
  {
    var t := FromDevices(ds);
    if HasMac(Values(t), k) {
      var d :| d in Values(t) && MacOf(d) == k;
      var i :| 0 <= i < |t| && Values(t)[i] == d;
      FromDevicesEntries(ds, t[i]);
      assert Keys(t)[i] == k;
    }
    if HasKey(t, k) {
      var r := Get(t, k).value;
      FromDevicesEntries(ds, (k, r));
      var i :| 0 <= i < |t| && t[i] == (k, r);
      assert Values(t)[i] == r;
    }
  }

  /** A list built from one device holds that device's mac, when it is non-empty. */
  lemma SingleMacs(d: Record, k: Value)
    ensures HasMac(Values(FromDevices([d])), k) <==> Truthy(k) && MacOf(d) == k
  {
    ValuesMacs([d], k);
    FromDevicesKeys([d], k);
    assert HasMac([d], k) ==> MacOf(d) == k;
  }

  /** Two merges without `override`: no repeated mac, known devices kept, nothing counted as changed. */
  lemma {:induction false} MergeTwice(s: Tally, a: seq<Record>, b: seq<Record>, vendorOf: Value -> Value, k: Value)
    requires Distinct(s.table)
    ensures var r := UpdateAll(UpdateAll(s, a, [], vendorOf), b, [], vendorOf);
      && Distinct(r.table)
      && r.changed == s.changed
      && (HasKey(s.table, k) ==> Get(r.table, k) == Get(s.table, k))
      && (HasKey(r.table, k) <==> HasKey(s.table, k) || HasMac(a, k) || HasMac(b, k))
  {
    var s1 := UpdateAll(s, a, [], vendorOf);
    UpdateAllTable(s, a, [], vendorOf, k);
    UpdateAllTable(s1, b, [], vendorOf, k);
    UpdateAllUnchanged(s, a, vendorOf);
    UpdateAllUnchanged(s1, b, vendorOf);
    if HasKey(s.table, k) {
      UpdateWithoutOverride(s, a, vendorOf, k);
      UpdateWithoutOverride(s1, b, vendorOf, k);
    }
  }

  /**
    Merging one record raises exactly when the record crashes `device_from_unifi`. Otherwise it
    keeps the table free of repeated macs, leaves every known device as it was and counts nothing
    as changed; a mac is known afterwards exactly when it was before or the record brings it.
   */
  lemma MergeRecordSpec(s: Tally, one: Raw, vendorOf: Value -> Value, k: Value)
    requires Distinct(s.table)
    ensures MergeRecord(s, one, vendorOf).Raises? <==> Crashes(one)
    ensures MergeRecord(s, one, vendorOf).Returns? ==>
      var r := MergeRecord(s, one, vendorOf).value;
      && Distinct(r.table)
      && r.changed == s.changed
      && (HasKey(s.table, k) ==> Get(r.table, k) == Get(s.table, k))
      && (HasKey(r.table, k) <==> HasKey(s.table, k) || Offers(one, vendorOf, k))
  {
    DeviceFromOutcome(one, vendorOf);
    WifiDevicesOutcome(one, vendorOf);
    if !Crashes(one) {
      var dev := DeviceFrom(one, vendorOf).value;
      var wifi := WifiDevices(one, vendorOf).value;
      var a: seq<Record> := if dev.Some? then Values(FromDevices([dev.value])) else [];
      var b: seq<Record> := if wifi.Some? && |wifi.value| > 0 then Values(wifi.value) else [];
      assert MergeRecord(s, one, vendorOf) == Returns(UpdateAll(UpdateAll(s, a, [], vendorOf), b, [], vendorOf));
      MergeTwice(s, a, b, vendorOf, k);
      if dev.Some? {
        SingleMacs(dev.value, k);
      }
      if wifi.Some? {
        ValuesMacs(Map(Vaps(one), WifiOf(dev.value)), k);
      }
    }
  }

  /**
    `device_list_from_unifi` raises exactly when some record crashes `device_from_unifi`.
    Otherwise a mac is known afterwards exactly when some record brings it; every mac keeps the
    first device merged under it, none appears twice, and nothing counts as changed.
   */
  lemma {:induction false} MergeRecordsSpec(s: Tally, all: seq<Raw>, vendorOf: Value -> Value, k: Value)
    requires Distinct(s.table)
    ensures MergeRecords(s, all, vendorOf).Raises? <==> Any(all, Crashes)
    ensures MergeRecords(s, all, vendorOf).Returns? ==>
      var r := MergeRecords(s, all, vendorOf).value;
      && Distinct(r.table)
      && r.changed == s.changed
      && (HasKey(s.table, k) ==> Get(r.table, k) == Get(s.table, k))
      && (HasKey(r.table, k) <==> HasKey(s.table, k) || Offered(all, vendorOf, k))
    decreases |all|
  {
    if all != [] {
      var n := |all| - 1;
      MergeRecordsSpec(s, all[..n], vendorOf, k);
      AnyLast(all, Crashes);
      AnyLast(all, OffersTest(vendorOf, k));
      if MergeRecords(s, all[..n], vendorOf).Returns? {
        var mid := MergeRecords(s, all[..n], vendorOf).value;
        MergeRecordSpec(mid, all[n], vendorOf, k);
      }
    }
  }

  /** Some record brings the mac. */
  predicate Offered(all: seq<Raw>, vendorOf: Value -> Value, k: Value) {
    Any(all, OffersTest(vendorOf, k))
  }

  function OffersTest(vendorOf: Value -> Value, k: Value): Raw -> bool {
    one => Offers(one, vendorOf, k)
  }

  /** A record's own device, when its mac is new, is inserted marked new, ahead of its access points. */
  lemma MergeInsertsDevice(s: Tally, one: Raw, vendorOf: Value -> Value)
    requires Distinct(s.table) && Makes(one) && Get(one.fields, "mac").value.s != ""
    requires !HasKey(s.table, Str(Upper(Get(one.fields, "mac").value.s)))
    ensures DeviceFrom(one, vendorOf).Returns? && DeviceFrom(one, vendorOf).value.Some?
    ensures MergeRecord(s, one, vendorOf).Returns?
    ensures Get(MergeRecord(s, one, vendorOf).value.table, Str(Upper(Get(one.fields, "mac").value.s))) ==
      Some(AsNew(Made(one, vendorOf)))
  {
    DeviceFromMac(one, vendorOf);
    WifiDevicesOutcome(one, vendorOf);
    MergeNewDevice(s, Made(one, vendorOf), WifiDevices(one, vendorOf).value, vendorOf);
  }

  /** A device with a new mac, merged alone and then followed by a merge of access points, is kept marked new. */
  lemma MergeNewDevice(s: Tally, d: Record, wifi: Option<Table>, vendorOf: Value -> Value)
    requires Distinct(s.table) && Truthy(MacOf(d)) && !HasKey(s.table, MacOf(d))
    ensures var s1 := UpdateAll(s, Values(FromDevices([d])), [], vendorOf);
      var r := if wifi.Some? && |wifi.value| > 0 then UpdateAll(s1, Values(wifi.value), [], vendorOf) else s1;
      Get(r.table, MacOf(d)) == Some(AsNew(d))
  {
    var m := MacOf(d);
    assert [d][..0] == [];
    assert FromDevices([d]) == Put([], m, d);
    assert Values(FromDevices([d])) == [d];
    assert UpdateAll(s, [d], [], vendorOf) == UpdateStep(s, d, [], vendorOf);
    UpdateStepInserts(s, d, [], vendorOf);
    var s1 := UpdateAll(s, [d], [], vendorOf);
    if wifi.Some? && |wifi.value| > 0 {
      UpdateWithoutOverride(s1, Values(wifi.value), vendorOf, m);
    }
  }

  /**
    `device_list_from_unifi()`, over the records the controller returned: the merge of the
    records, or the exception the first crashing record raises.
   */
  method DeviceListFromUnifi(all: seq<Raw>, vendorOf: Value -> Value) returns (r: Raising<DeviceList>)
    ensures r.Raises? <==> MergeRecords(Tally([], 0, 0), all, vendorOf).Raises?
    ensures r.Returns? ==>
      fresh(r.value) && r.value.vendorOf == vendorOf && r.value.Valid()
      && MergeRecords(Tally([], 0, 0), all, vendorOf) == Returns(r.value.Counts())
  {
    var rv := new DeviceList([], vendorOf);
    var i := 0;
    var raised := false;
    while i < |all| && !raised
      invariant 0 <= i <= |all|
      invariant fresh(rv) && rv.vendorOf == vendorOf && rv.Valid()
      invariant !raised ==> MergeRecords(Tally([], 0, 0), all[..i], vendorOf) == Returns(rv.Counts())
      invariant raised ==> MergeRecords(Tally([], 0, 0), all[..i], vendorOf).Raises?
    {
      MergeRecordsNext(Tally([], 0, 0), all, vendorOf, i);
      raised := MergeRecordInto(rv, all[i]);
      i := i + 1;
    }
    if raised {
      MergeRecordsStays(Tally([], 0, 0), all, vendorOf, i);
      return Raises;
    }
    assert all[..i] == all;
    r := Returns(rv);
  }

  /** The loop body of `device_list_from_unifi`: one record's device, then its access points, merged into the list. */
  method MergeRecordInto(rv: DeviceList, one: Raw) returns (raised: bool)
    requires rv.Valid()
    modifies rv
    ensures rv.Valid()
    ensures raised <==> MergeRecord(old(rv.Counts()), one, rv.vendorOf).Raises?
    ensures !raised ==> MergeRecord(old(rv.Counts()), one, rv.vendorOf) == Returns(rv.Counts())
  {
    var dev := DeviceFromUnifi(one, rv.vendorOf);
    if dev.Raises? {
      return true;
    }
    if dev.value.Some? {
      var single := new DeviceList([dev.value.value], rv.vendorOf);
      rv.UpdateWith(Values(single.devicesByMac), []);
    }
    var wifi := WifiDevicesFromUnifi(one, rv.vendorOf);
    if wifi.Raises? {
      return true;
    }
    if wifi.value.Some? && |wifi.value.value.devicesByMac| > 0 {
      rv.UpdateWith(Values(wifi.value.value.devicesByMac), []);
    }
    raised := false;
  }

  // ---------------------------------------------------------------------------------------
  // `change_user_info`

  /** What `put` sends: the formatted url, and the payload, None when it is empty. */
  datatype Request = Request(url: string, payload: Option<Dict<string, Json>>)

  /** The copying loop: every entry of `changes` written, in order, into a new dictionary. */
  function Copied(changes: Dict<string, Json>): Dict<string, Json>
    decreases |changes|
  {
    if changes == [] then []
    else Put(Copied(changes[..|changes| - 1]), changes[|changes| - 1].0, changes[|changes| - 1].1)
  }

  /** A dictionary copied key for key is the same dictionary. */
  lemma {:induction false} CopiedSame(changes: Dict<string, Json>)
    requires Distinct(changes)
    ensures Copied(changes) == changes
    decreases |changes|
  {
    if changes != [] {
      var n := |changes| - 1;
      assert Distinct(changes[..n]) by {
        forall i, j | 0 <= i < j < n ensures changes[..n][i].0 != changes[..n][j].0 {
          assert changes[..n][i] == changes[i] && changes[..n][j] == changes[j];
        }
      }
      CopiedSame(changes[..n]);
      assert !HasKey(changes[..n], changes[n].0) by {
        forall i | 0 <= i < n ensures Keys(changes[..n])[i] != changes[n].0 {
          assert changes[..n][i] == changes[i];
        }
      }
      PutAbsent(changes[..n], changes[n].0, changes[n].1);
      assert changes[..n] + [changes[n]] == changes;
    }
  }

  /**
    `change_user_info(orig, new)`: a `put` of the copied changes to the user's url; None where
    it raises: no `_id`, an `_id` that is not text, or a url that does not format.
   */
  function UserUpdate(orig: Dict<string, Json>, changes: Dict<string, Json>, baseurl: string, site: string): Option<Request> {
    if !HasKey(orig, "_id") || !Get(orig, "_id").value.JStr? then None
    else
      var updated := Copied(changes);
      match ConstructUrl(baseurl, site, "/api/s/{site}/rest/user/" + Get(orig, "_id").value.s)
      case None => None
      case Some(url) => Some(Request(url, if updated == [] then None else Some(updated)))
  }

  /**
    Without `_id` the call raises; with a text `_id` the request goes to the user's url and
    carries exactly the changes, key for key, or no payload when there are none.
   */
  lemma UserUpdateSpec(orig: Dict<string, Json>, changes: Dict<string, Json>, baseurl: string, site: string)
    requires Distinct(changes)
    ensures !HasKey(orig, "_id") ==> UserUpdate(orig, changes, baseurl, site).None?
    ensures HasKey(orig, "_id") && Get(orig, "_id").value.JStr? && NoBraces(Get(orig, "_id").value.s) ==>
      UserUpdate(orig, changes, baseurl, site) ==
        Some(Request(baseurl + "/api/s/" + site + "/rest/user/" + Get(orig, "_id").value.s, if changes == [] then None else Some(changes)))
  {
    CopiedSame(changes);
    if HasKey(orig, "_id") && Get(orig, "_id").value.JStr? && NoBraces(Get(orig, "_id").value.s) {
      var id := Get(orig, "_id").value.s;
      var b := "/rest/user/" + id;
      assert NoBraces(b) by {
        assert forall i :: 11 <= i < |b| ==> b[i] == id[i - 11];
      }
      assert "/api/s/{site}/rest/user/" + id == "/api/s/" + "{site}" + b;
      ConstructUrlSite(baseurl, site, "/api/s/", b);
      assert baseurl + "/api/s/" + site + b == baseurl + "/api/s/" + site + "/rest/user/" + id;
    }
  }

  /** `change_user_info(orig, new)`: the guard, the copying loop, and the request `put` would send. */
  method ChangeUserInfo(orig: Dict<string, Json>, changes: Dict<string, Json>, baseurl: string, site: string) returns (r: Option<Request>)
    ensures r == UserUpdate(orig, changes, baseurl, site)
  {
    if !HasKey(orig, "_id") {
      return None;
    }
    var id := Get(orig, "_id").value;
    var updated: Dict<string, Json> := [];
    var i := 0;
    while i < |changes|
      invariant 0 <= i <= |changes|
      invariant updated == Copied(changes[..i])
    {
      assert changes[..i + 1][..i] == changes[..i];
      updated := Put(updated, changes[i].0, changes[i].1);
      i := i + 1;
    }
    assert changes[..i] == changes;
    if !id.JStr? {
      return None;
    }
    var url := ConstructUrl(baseurl, site, "/api/s/{site}/rest/user/" + id.s);
    if url.None? {
      return None;
    }
    r := Some(Request(url.value, if updated == [] then None else Some(updated)));
  }
}
