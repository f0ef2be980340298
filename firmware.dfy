/**
 * The firmware's global state and the handlers that change it: the record
 * `MyWiFiConfig`, the emulated EEPROM it is saved to, the chip-derived host
 * name and the `SoftAccOK` flag, with `saveCredentials`, `loadCredentials`,
 * `handleReset`, `handleWifiSave`, the `/wifi` page, `CreateWifiSoftAP` and
 * the boot decision of `setup`.
 *
 * A handler that ends in `ESP.restart()` returns `restart == true`; what
 * follows the restart is the next call of `Setup` on a new `Device` built
 * over the same EEPROM contents.
 */
module Firmware {
  import opened Wrappers
  import opened CStrings
  import opened Address
  import opened Config
  import opened Gate
  import opened Scan
  import opened Connect
  import opened Forms

  /** The soft access point as `CreateWifiSoftAP` configures it. */
  datatype SoftAp = SoftAp(
    ssid: Str,
    password: Option<Str>,  // the passphrase given to `WiFi.softAP`; None when none is given
    address: IPAddress,
    gateway: IPAddress,
    netmask: IPAddress,
    dnsRedirect: bool)      // the DNS server answering every name with the AP's address

  /**
   * An access point without a passphrase, or with an empty one: the ESP32
   * core starts both as open networks.
   */
  predicate OpenAp(ap: SoftAp) {
    ap.password.None? || ap.password == Some([])
  }

  /** The access point `CreateWifiSoftAP` brings up for record `c` once `WiFi.softAP` succeeds. */
  function ApFor(c: WiFiConfig): SoftAp {
    SoftAp(c.ssid, if c.pwdRequired then Some(c.password) else None, CPapIP, CPapIP, CPnetMsk, true)
  }

  /** How `setup` ends: serving the web pages, or resetting to the defaults and restarting. */
  datatype Boot =
    | Serving(viaSoftAp: bool, probeRoutes: bool)
    | ResetAndRestart

  /**
   * The boot decision for the EEPROM contents `image`: a valid record in
   * access-point mode serves if the access point starts; a valid record in
   * station mode serves if the connection ends with status 3; anything
   * else is reset. The probe routes follow the record's `capPortal`.
   */
  ghost function BootDecision(image: seq<byte>, feed: StatusFeed, mdnsOk: bool, apStarted: bool): (r: Boot)
    requires |image| >= RecordSize
    ensures r.Serving? ==> Load(image).0 && r.probeRoutes == Load(image).1.capPortal
    ensures r.Serving? ==> (r.viaSoftAp <==> Load(image).1.apMode)
    ensures r.Serving? && r.viaSoftAp ==> apStarted
    ensures r.Serving? && !r.viaSoftAp ==> Attempt(feed, mdnsOk).status == Connected
  {
    var (valid, c) := Load(image);
    if !valid then ResetAndRestart
    else if c.apMode then (if apStarted then Serving(true, c.capPortal) else ResetAndRestart)
    else if Attempt(feed, mdnsOk).status == Connected then Serving(false, c.capPortal)
    else ResetAndRestart
  }

  /** Erased or foreign storage always boots into a reset. */
  lemma UnsavedStorageResets(image: seq<byte>, feed: StatusFeed, mdnsOk: bool, apStarted: bool)
    requires |image| >= RecordSize
    requires image[85] != 'T' as int || image[86] != 'K' as int || image[87] != 0
    ensures BootDecision(image, feed, mdnsOk, apStarted) == ResetAndRestart
  {
    ValidTagBytes(image);
  }

  /**
   * After a reset the next boot brings up the access point with the
   * captive-portal routes, unless the access point fails to start, which
   * resets again.
   */
  lemma ResetBootsPortal(c: WiFiConfig, mac: nat, rest: seq<byte>,
                         feed: StatusFeed, mdnsOk: bool, apStarted: bool)
    ensures BootDecision(Encode(FactoryReset(c, EspHostname(mac))) + rest, feed, mdnsOk, apStarted) ==
      (if apStarted then Serving(true, true) else ResetAndRestart)
  {
    FactoryResetSaves(c, mac);
    LoadAfterSave(FactoryReset(c, EspHostname(mac)), rest);
  }

  /**
   * The access point that boot brings up is "ESP_Config" with the
   * passphrase "12345678": the terminator writes of `setup` leave the
   * defaults as they are.
   */
  lemma ResetAccessPoint(c: WiFiConfig, mac: nat, rest: seq<byte>)
    ensures var loaded := Load(Encode(FactoryReset(c, EspHostname(mac))) + rest).1;
      && ApFor(SetupTerminated(loaded)) == SoftAp("ESP_Config", Some("12345678"), CPapIP, CPapIP, CPnetMsk, true)
      && !OpenAp(ApFor(SetupTerminated(loaded)))
  {
    var r := FactoryReset(c, EspHostname(mac));
    FactoryResetSaves(c, mac);
    LoadAfterSave(r, rest);
    assert SetupTerminated(r) == r;
  }

  /**
   * A stored access-point record whose name has 19 characters boots an open
   * access point although it requires a password: the terminator write
   * after the name empties the passphrase.
   */
  lemma NineteenCharNameBootsOpenAp(c: WiFiConfig)
    requires |c.ssid| == APSTANameLen - 1 && c.pwdRequired
    ensures ApFor(SetupTerminated(c)).password == Some([])
    ensures OpenAp(ApFor(SetupTerminated(c)))
  {
  }

  /** A saved station record boots into serving exactly when the connection ends with status 3. */
  lemma StationBoot(c: WiFiConfig, rest: seq<byte>, feed: StatusFeed, mdnsOk: bool, apStarted: bool)
    requires Fits(c) && IsValid(c) && !c.apMode
    ensures BootDecision(Encode(c) + rest, feed, mdnsOk, apStarted) ==
      (if Attempt(feed, mdnsOk).status == Connected then Serving(false, c.capPortal) else ResetAndRestart)
  {
    LoadAfterSave(c, rest);
  }

  class Device {
    /** `MyWiFiConfig` */
    var config: WiFiConfig
    /** The emulated EEPROM `EEPROM.begin(512)` reserves. */
    const eeprom: array<byte>
    /** `ESPHostname` */
    const espHostname: Str
    /** `SoftAccOK`: the soft access point is up; `loop` serves DNS only then. */
    var softAccOk: bool

    ghost predicate Valid()
      reads this, eeprom
    {
      eeprom.Length == EepromSize && Fits(config) && NoNul(espHostname)
    }

    /** Power-on: the member defaults, the host name derived from the chip's MAC, and the stored bytes. */
    constructor(mac: nat, stored: seq<byte>)
      requires |stored| == EepromSize
      ensures Valid() && fresh(eeprom)
      ensures config == InitialConfig && eeprom[..] == stored
      ensures espHostname == EspHostname(mac) && !softAccOk
    {
      config := InitialConfig;
      espHostname := EspHostname(mac);
      softAccOk := false;
      eeprom := new byte[EepromSize](i requires 0 <= i < EepromSize => stored[i]);
    }

    /**
     * `saveCredentials`: check the record; when it passes, zero the record's
     * bytes, set the tag, write the record and return 1. When it fails,
     * nothing is written. `wiped` is the storage after the zero-fill.
     */
    method SaveCredentials() returns (ret: int, ghost wiped: seq<byte>)
      requires Valid()
      modifies this, eeprom
      ensures Valid() && softAccOk == old(softAccOk)
      ensures ret == SaveVerdict(old(config))
      ensures ret == 1 ==> config == old(config).(configValid := ValidTag)
      ensures ret == 1 ==> wiped == Zeros(RecordSize) + old(eeprom[RecordSize..])
      ensures ret == 1 ==> eeprom[..] == Encode(config) + old(eeprom[RecordSize..])
      ensures ret != 1 ==> config == old(config) && eeprom[..] == old(eeprom[..])
    {
      ret := 4;
      wiped := eeprom[..];
      if config.apMode {
        if config.pwdRequired && |config.password| < MinPasswordLen {
          ret := 2;
        }
        if |config.ssid| < 1 {
          ret := 3;
        }
      }
      if ret == 4 {
        for i := 0 to RecordSize
          modifies eeprom
          invariant eeprom[..i] == Zeros(i)
          invariant eeprom[i..] == old(eeprom[i..])
        {
          eeprom[i] := 0;
        }
        wiped := eeprom[..];
        assert wiped == Zeros(RecordSize) + old(eeprom[RecordSize..]);
        config := config.(configValid := CopyField(ValidTag, ConfigValidLen));
        assert config.configValid == ValidTag;
        Put(Encode(config));
        ret := 1;
      }
    }

    /** `EEPROM.put(0, ...)`: write an image over the start of the storage. */
    method Put(image: seq<byte>)
      requires eeprom.Length == EepromSize && |image| <= EepromSize
      modifies eeprom
      ensures eeprom[..] == image + old(eeprom[|image|..])
    {
      for i := 0 to |image|
        invariant eeprom[..i] == image[..i]
        invariant eeprom[i..] == old(eeprom[i..])
      {
        eeprom[i] := image[i];
      }
      assert eeprom[..] == eeprom[..|image|] + eeprom[|image|..];
    }

    /** `loadCredentials`: read the record from storage; it is valid when its tag reads "TK". */
    method LoadCredentials() returns (valid: bool)
      requires Valid()
      modifies this
      ensures Valid() && softAccOk == old(softAccOk)
      ensures (valid, config) == Load(eeprom[..])
    {
      var image := eeprom[..RecordSize];
      config := Decode(image);
      valid := config.configValid == ValidTag;
    }

    /**
     * `handleReset`: the factory defaults, saved; the reply, then a restart.
     * The copy into each array is the terminated, truncating one.
     */
    method HandleReset() returns (page: Str, restart: bool)
      requires Valid()
      modifies this, eeprom
      ensures Valid() && softAccOk == old(softAccOk)
      ensures config == FactoryReset(old(config), espHostname)
      ensures eeprom[..] == Encode(config) + old(eeprom[RecordSize..])
      ensures page == "Success! Reboot in 2s." && restart
    {
      page := "Success! Reboot in 2s.";
      config := config.(apMode := true, pwdRequired := true, capPortal := true);
      config := config.(ssid := CopyField("ESP_Config", APSTANameLen));
      config := config.(password := CopyField("12345678", WiFiPwdLen));
      config := config.(hostName := CopyField(espHostname, HostNameLen));
      config := config.(configValid := CopyField(ValidTag, ConfigValidLen));
      config := config.(ipAddr := EmptyIP, gateway := EmptyIP, subnet := EmptyIP, dns := EmptyIP);
      assert config == FactoryReset(old(config), espHostname);
      FactoryResetFits(old(config), espHostname);
      var ret;
      ghost var wiped;
      ret, wiped := SaveCredentials();
      restart := true;
    }

    /**
     * `handleWifiSave`: apply the form to the record, save it unless the
     * address settings are invalid, reply with the message for the code, and
     * restart after a successful save. The arguments are copied straight
     * into the arrays, truncated and terminated.
     */
    method HandleWifiSave(raw: SaveForm, parse: Str -> IPAddress) returns (page: Str, restart: bool)
      requires Valid()
      modifies this, eeprom
      ensures Valid() && softAccOk == old(softAccOk)
      ensures var applied := ApplyForm(old(config), FormArgs(raw), parse);
        var code := SaveCode(applied);
        && page == SaveMessage(code)
        && (restart <==> code == 1)
        && config == (if code == 1 then applied.(configValid := ValidTag) else applied)
        && (code == 1 ==> eeprom[..] == Encode(config) + old(eeprom[RecordSize..]))
        && (code != 1 ==> eeprom[..] == old(eeprom[..]))
    {
      var f := FormArgs(raw);
      ghost var applied := ApplyForm(config, f, parse);
      FormKeepsFit(config, raw, parse);
      var retVal := 0;
      ApplyArgs(f, parse);
      assert config == applied;
      if config.staticIp < 4 {
        ghost var wiped;
        retVal, wiped := SaveCredentials();
      }
      page := SaveMessage(retVal);
      restart := retVal == 1;
    }

    /** The field updates of `handleWifiSave`, in the handler's order. */
    method ApplyArgs(f: SaveForm, parse: Str -> IPAddress)
      modifies this
      ensures config == ApplyForm(old(config), f, parse)
      ensures softAccOk == old(softAccOk)
    {
      ApplyFieldArgs(f);
      if config.staticIp > 0 {
        ApplyAddressArgs(f, parse);
      } else {
        config := config.(ipAddr := EmptyIP, gateway := EmptyIP, subnet := EmptyIP, dns := EmptyIP);
      }
    }

    /** The mode, name, password and host name updates of `handleWifiSave`. */
    method ApplyFieldArgs(f: SaveForm)
      modifies this
      ensures config == FormFields(old(config), f)
      ensures softAccOk == old(softAccOk)
    {
      config := config.(apMode := false);
      if f.ap == "on" {
        config := config.(apMode := true);
        if f.pass == "" {
          config := config.(pwdRequired := false);
        }
      }
      if f.ssid != "" {
        config := config.(ssid := CopyField(f.ssid, APSTANameLen));
      }
      if f.pass != "" || !config.pwdRequired {
        config := config.(password := CopyField(f.pass, WiFiPwdLen));
      }
      if f.host != "" {
        config := config.(hostName := CopyField(f.host, HostNameLen));
      }
    }

    /** The static-IP branch of `handleWifiSave`: 4 first, then 2 and 3 as the arguments allow. */
    method ApplyAddressArgs(f: SaveForm, parse: Str -> IPAddress)
      modifies this
      ensures config == StaticForm(old(config), f, parse)
      ensures softAccOk == old(softAccOk)
    {
      config := config.(staticIp := 4);
      var ipOk := IsIp(f.ip);
      var gwOk := IsIp(f.gw);
      var snOk := IsIp(f.sn);
      if f.ip != "" && ipOk && f.gw != "" && gwOk && f.sn != "" && snOk {
        config := config.(ipAddr := parse(f.ip), gateway := parse(f.gw), subnet := parse(f.sn));
        config := config.(staticIp := 2);
      }
      var dnsOk := IsIp(f.dns);
      if f.dns != "" && dnsOk && config.staticIp == 2 {
        config := config.(dns := parse(f.dns), staticIp := 3);
      }
    }

    /**
     * The state change of the `/wifi` page and its scan: the `sip` argument
     * toggles static addressing, and with `scan` the networks found are
     * listed strongest first, one entry per SSID.
     */
    method HandleWifi(rawSip: Str, scan: bool, rssi: seq<int>, ssid: seq<Str>, encrypted: seq<bool>)
      returns (items: seq<ScanItem>)
      requires Valid() && |rssi| == |ssid| == |encrypted|
      modifies this
      ensures Valid() && softAccOk == old(softAccOk)
      ensures config == SipToggle(old(config), CStr(rawSip))
      ensures !scan ==> items == []
      ensures scan ==> exists sorted, order :: Listing(rssi, ssid, encrypted, sorted, order, items)
      ensures scan ==> |items| <= |rssi| && NamesEveryNetwork(items, ssid)
    {
      var sip := CStr(rawSip);
      if sip == "true" {
        config := config.(staticIp := 1);
      } else if sip == "false" {
        config := config.(staticIp := 0);
      }
      items := [];
      if scan {
        var sorted, order;
        sorted, order, items := ScanList(rssi, ssid, encrypted);
        ListedCount(rssi, ssid, encrypted, sorted, order, items);
      }
    }

    /**
     * `CreateWifiSoftAP`: start the access point under the record's name,
     * with its password only when one is required, at 172.20.0.1/24, and
     * start the redirecting DNS server when the access point is up.
     * `apStarted` is what `WiFi.softAP` answers.
     */
    method CreateWifiSoftAP(apStarted: bool) returns (ok: bool, ap: SoftAp)
      requires Valid()
      modifies this
      ensures Valid() && config == old(config)
      ensures ok == apStarted && softAccOk == apStarted
      ensures ap.ssid == config.ssid
      ensures ap.password == (if config.pwdRequired then Some(config.password) else None)
      ensures ap.address == CPapIP && ap.gateway == CPapIP && ap.netmask == CPnetMsk
      ensures ap.dnsRedirect == apStarted
      ensures apStarted ==> ap == ApFor(config)
    {
      var password := None;
      if config.pwdRequired {
        password := Some(config.password);
      }
      softAccOk := apStarted;
      ap := SoftAp(config.ssid, password, CPapIP, CPapIP, CPnetMsk, false);
      if softAccOk {
        ap := ap.(dnsRedirect := true);
      }
      ok := softAccOk;
    }

    /**
     * The boot decision of `setup`: load the record and make the
     * terminator writes on its name and password; start the access point
     * or join the network as it says; serve on success, otherwise (and for
     * an invalid record) reset to the defaults and restart.
     * `dhcpName` is the name `WiFi.setHostname` receives, which `setup`
     * reads before the record is loaded; `softAp` is the access point
     * `CreateWifiSoftAP` configured, if it was called.
     */
    method Setup(feed: StatusFeed, mdnsOk: bool, apStarted: bool)
      returns (boot: Boot, dhcpName: Str, softAp: Option<SoftAp>)
      requires Valid() && !softAccOk
      modifies this, eeprom
      ensures Valid()
      ensures dhcpName == old(config).hostName
      ensures boot == BootDecision(old(eeprom[..]), feed, mdnsOk, apStarted)
      ensures boot.Serving? ==> config == SetupTerminated(Load(old(eeprom[..])).1) && eeprom[..] == old(eeprom[..])
      ensures boot.Serving? ==> softAccOk == boot.viaSoftAp
      ensures boot.Serving? ==> (softAp.Some? <==> boot.viaSoftAp)
      ensures boot.Serving? && boot.viaSoftAp ==> softAp == Some(ApFor(config))
      ensures boot == ResetAndRestart ==>
        !softAccOk &&
        config == FactoryReset(Load(old(eeprom[..])).1, espHostname) &&
        eeprom[..] == Encode(config) + old(eeprom[RecordSize..])
    {
      dhcpName := config.hostName;
      softAp := None;
      var softApUp := false;
      var connected := false;
      var valid := LoadCredentials();
      if valid {
        config := SetupTerminated(config);
        if config.apMode {
          var ap;
          softApUp, ap := CreateWifiSoftAP(apStarted);
          softAp := Some(ap);
        } else {
          var connRes, ipSetup, autoReconnect, mdnsService, disconnected, polls, begins :=
            ConnectWifiAP(config, feed, mdnsOk);
          connected := connRes == Connected;
        }
      } else {
        var page, restart := HandleReset();
        return ResetAndRestart, dhcpName, softAp;
      }
      if connected || softApUp {
        boot := Serving(softApUp, config.capPortal);
      } else {
        var page, restart := HandleReset();
        boot := ResetAndRestart;
      }
    }
  }

  /** The factory defaults fit the arrays whatever the host name. */
  lemma FactoryResetFits(c: WiFiConfig, espHostname: Str)
    requires NoNul(espHostname)
    ensures Fits(FactoryReset(c, espHostname)) && SaveVerdict(FactoryReset(c, espHostname)) == 1
    ensures FactoryReset(c, espHostname).configValid == ValidTag
  {
    var r := FactoryReset(c, espHostname);
    assert r.ssid == "ESP_Config";
    assert r.password == "12345678";
    assert r.configValid == "TK";
    assert NoNul("ESP_Config") && NoNul("12345678") && NoNul("TK");
    PrefixNoNul(espHostname, |r.hostName|);
  }

  /** Every SSID of the scan appears among the listed items. */
  ghost predicate NamesEveryNetwork(items: seq<ScanItem>, ssid: seq<Str>) {
    forall i :: 0 <= i < |ssid| ==> Names(items, ssid[i])
  }

  /** Some listed item carries `name`. */
  ghost predicate Names(items: seq<ScanItem>, name: Str) {
    exists k :: 0 <= k < |items| && items[k].name == name
  }

  /** A listing names every SSID of the scan and has no more entries than the scan. */
  lemma ListedCount(rssi: seq<int>, ssid: seq<Str>, encrypted: seq<bool>,
                    sorted: seq<int>, order: seq<int>, items: seq<ScanItem>)
    requires |rssi| == |ssid| == |encrypted|
    requires Listing(rssi, ssid, encrypted, sorted, order, items)
    ensures |items| <= |rssi|
    ensures NamesEveryNetwork(items, ssid)
  {
    ListingIsWell(rssi, ssid, encrypted, sorted, order, items);
    MultisetLength(sorted, |rssi|);
    forall i | 0 <= i < |ssid|
      ensures Names(items, ssid[i])
    {
      assert ssid[i] in ListedNames(order, ssid);
      var k :| 0 <= k < |order| && ListedNames(order, ssid)[k] == ssid[i];
      assert 0 <= k < |items| && items[k].name == ssid[i];
    }
  }
}
