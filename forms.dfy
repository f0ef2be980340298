/**
 * What the configuration form does to the record: the arguments of
 * `/wifisave`, the static-IP states they drive, the code the handler
 * ends with and its message, and the `sip` toggle of `/wifi`.
 *
 * `parse` stands for `IPAddress::fromString`; it is only applied to
 * arguments that `isIp` accepts.
 */
module Forms {
  import opened CStrings
  import opened Address
  import opened Config
  import opened Gate

  /** The arguments of `/wifisave`: `ap`, `s`, `p`, `h`, `ip`, `gw`, `sn`, `dns`. */
  datatype SaveForm = SaveForm(ap: Str, ssid: Str, pass: Str, host: Str,
                               ip: Str, gw: Str, sn: Str, dns: Str)

  /** The Strings the handler works with: each argument read back through `c_str()`. */
  function FormArgs(raw: SaveForm): (f: SaveForm)
    ensures NoNul(f.ap) && NoNul(f.ssid) && NoNul(f.pass) && NoNul(f.host)
    ensures NoNul(f.ip) && NoNul(f.gw) && NoNul(f.sn) && NoNul(f.dns)
  {
    SaveForm(CStr(raw.ap), CStr(raw.ssid), CStr(raw.pass), CStr(raw.host),
             CStr(raw.ip), CStr(raw.gw), CStr(raw.sn), CStr(raw.dns))
  }

  /** An address argument the handler accepts: non-empty and made of digits and dots. */
  predicate AddressArg(s: Str) {
    s != [] && LooksLikeIp(s)
  }

  /** Address, gateway and netmask are all acceptable. */
  predicate AddressTriple(f: SaveForm) {
    AddressArg(f.ip) && AddressArg(f.gw) && AddressArg(f.sn)
  }

  /**
   * The static-IP branch for a record whose state is not 0: the state
   * becomes 4 unless address, gateway and netmask are acceptable, then 2,
   * and 3 when the DNS server is acceptable too.
   */
  function StaticForm(c: WiFiConfig, f: SaveForm, parse: Str -> IPAddress): (r: WiFiConfig)
    ensures r.staticIp in {2, 3, 4} && (r.staticIp == 4 <==> !AddressTriple(f))
    ensures r.(ipAddr := c.ipAddr, gateway := c.gateway, subnet := c.subnet, dns := c.dns,
               staticIp := c.staticIp) == c
  {
    var c2 := if AddressTriple(f)
      then c.(ipAddr := parse(f.ip), gateway := parse(f.gw), subnet := parse(f.sn), staticIp := 2)
      else c.(staticIp := 4);
    if AddressArg(f.dns) && c2.staticIp == 2 then c2.(dns := parse(f.dns), staticIp := 3) else c2
  }

  /** The mode, password requirement, name, password and host name after the form. */
  function FormFields(c: WiFiConfig, f: SaveForm): (r: WiFiConfig)
    ensures r.apMode == (f.ap == "on") && (r.pwdRequired ==> c.pwdRequired)
    ensures r.(apMode := c.apMode, pwdRequired := c.pwdRequired, ssid := c.ssid,
               password := c.password, hostName := c.hostName) == c
  {
    var apMode := f.ap == "on";
    var pwdRequired := if apMode && f.pass == "" then false else c.pwdRequired;
    c.(
      apMode := apMode,
      pwdRequired := pwdRequired,
      ssid := if f.ssid != "" then CopyField(f.ssid, APSTANameLen) else c.ssid,
      password := if f.pass != "" || !pwdRequired then CopyField(f.pass, WiFiPwdLen) else c.password,
      hostName := if f.host != "" then CopyField(f.host, HostNameLen) else c.hostName)
  }

  /** The record after `handleWifiSave` has applied the form, before it is saved. */
  function ApplyForm(c: WiFiConfig, f: SaveForm, parse: Str -> IPAddress): (r: WiFiConfig)
    ensures r.apMode == (f.ap == "on") && r.capPortal == c.capPortal && r.configValid == c.configValid
    ensures r.staticIp == 0 <==> c.staticIp == 0
  {
    var c1 := FormFields(c, f);
    if c.staticIp > 0 then StaticForm(c1, f, parse)
    else c1.(ipAddr := EmptyIP, gateway := EmptyIP, subnet := EmptyIP, dns := EmptyIP)
  }

  /** `ret_val` at the end of `handleWifiSave`: 0 when the address settings are invalid, else the save's code. */
  function SaveCode(applied: WiFiConfig): (code: int)
    ensures code in {0, 1, 2, 3} && (code == 0 <==> applied.staticIp >= 4)
  {
    if applied.staticIp < 4 then SaveVerdict(applied) else 0
  }

  /** The reply for each code; any other code leaves the page empty. */
  function SaveMessage(code: int): (page: Str)
    ensures page == "EEPROM error" <==> code == 4
  {
    match code
    case 0 => "IP config invalid!"
    case 1 => "Success! Rebooting in 2s"
    case 2 => "The Password needs at least 8 Characters"
    case 3 => "AP name is invalid"
    case 4 => "EEPROM error"
    case _ => ""
  }

  // ---------------------------------------------------------------------
  // What applying the form does
  // ---------------------------------------------------------------------

  /**
   * The form selects access-point mode exactly when `ap` is "on"; it never
   * sets the password requirement, and clears it only for an access point
   * submitted without a password.
   */
  lemma FormModeAndRequirement(c: WiFiConfig, f: SaveForm, parse: Str -> IPAddress)
    ensures var r := ApplyForm(c, f, parse);
      && (r.apMode <==> f.ap == "on")
      && (r.pwdRequired ==> c.pwdRequired)
      && (c.pwdRequired && !r.pwdRequired <==> c.pwdRequired && f.ap == "on" && f.pass == "")
      && r.capPortal == c.capPortal
      && r.configValid == c.configValid
  {
  }

  /**
   * The name and host name change only when their arguments are not empty,
   * and then to the longest prefix of the argument their array can hold
   * with its terminator.
   */
  lemma FormNames(c: WiFiConfig, f: SaveForm, parse: Str -> IPAddress)
    ensures var r := ApplyForm(c, f, parse);
      && (f.ssid == [] ==> r.ssid == c.ssid)
      && (f.ssid != [] ==> r.ssid == f.ssid[..Min(|f.ssid|, APSTANameLen - 1)])
      && (f.host == [] ==> r.hostName == c.hostName)
      && (f.host != [] ==> r.hostName == f.host[..Min(|f.host|, HostNameLen - 1)])
  {
  }

  /**
   * The password changes when one is given, and also when none is given
   * and none is required: then it is erased. Otherwise the stored one stays.
   */
  lemma FormPassword(c: WiFiConfig, f: SaveForm, parse: Str -> IPAddress)
    ensures var r := ApplyForm(c, f, parse);
      && (f.pass != [] ==> r.password == f.pass[..Min(|f.pass|, WiFiPwdLen - 1)])
      && (f.pass == [] && !r.pwdRequired ==> r.password == [])
      && (f.pass == [] && r.pwdRequired ==> r.password == c.password)
  {
  }

  /**
   * The static-IP transitions: from 0 every address is cleared and the state
   * stays 0; from any other state it becomes 2, 3 or 4 as the arguments
   * allow, the addresses are parsed only when accepted, and in state 4 the
   * stored addresses stay.
   */
  lemma FormStaticIp(c: WiFiConfig, f: SaveForm, parse: Str -> IPAddress)
    ensures var r := ApplyForm(c, f, parse);
      && (c.staticIp == 0 ==>
            r.staticIp == 0 && r.ipAddr == r.gateway == r.subnet == r.dns == EmptyIP)
      && (c.staticIp > 0 ==>
            && (r.staticIp == 4 <==> !AddressTriple(f))
            && (r.staticIp == 3 <==> AddressTriple(f) && AddressArg(f.dns))
            && (r.staticIp == 2 <==> AddressTriple(f) && !AddressArg(f.dns))
            && (r.staticIp == 4 ==>
                  r.ipAddr == c.ipAddr && r.gateway == c.gateway && r.subnet == c.subnet && r.dns == c.dns)
            && (r.staticIp != 4 ==>
                  r.ipAddr == parse(f.ip) && r.gateway == parse(f.gw) && r.subnet == parse(f.sn))
            && (r.staticIp == 3 ==> r.dns == parse(f.dns))
            && (r.staticIp == 2 ==> r.dns == c.dns))
  {
  }

  /**
   * The form keeps the record within its arrays: every argument passes
   * through `c_str()`, so it holds no NUL, and the copies are truncated.
   */
  lemma FormKeepsFit(c: WiFiConfig, raw: SaveForm, parse: Str -> IPAddress)
    requires Fits(c)
    ensures Fits(ApplyForm(c, FormArgs(raw), parse))
  {
    var f := FormArgs(raw);
    var r := ApplyForm(c, f, parse);
    FormNames(c, f, parse);
    FormPassword(c, f, parse);
    FormModeAndRequirement(c, f, parse);
    PrefixNoNul(f.ssid, Min(|f.ssid|, APSTANameLen - 1));
    PrefixNoNul(f.pass, Min(|f.pass|, WiFiPwdLen - 1));
    PrefixNoNul(f.host, Min(|f.host|, HostNameLen - 1));
    assert NoNul(r.ssid) && |r.ssid| <= APSTANameLen;
    assert NoNul(r.password) && |r.password| <= WiFiPwdLen;
    assert NoNul(r.hostName) && |r.hostName| <= HostNameLen;
  }

  lemma PrefixNoNul(s: Str, k: nat)
    requires NoNul(s) && k <= |s|
    ensures NoNul(s[..k])
  {
  }

  /**
   * The handler ends with 0 exactly when the address settings are invalid,
   * never with 4, so "EEPROM error" is never shown.
   */
  lemma SaveCodeOutcomes(c: WiFiConfig, f: SaveForm, parse: Str -> IPAddress)
    ensures var code := SaveCode(ApplyForm(c, f, parse));
      && code in {0, 1, 2, 3}
      && (code == 0 <==> c.staticIp > 0 && !AddressTriple(f))
      && SaveMessage(code) != "EEPROM error"
  {
    FormStaticIp(c, f, parse);
  }

  /** Submitting a station configuration never fails the name and password checks. */
  lemma StationFormSaves(c: WiFiConfig, f: SaveForm, parse: Str -> IPAddress)
    requires f.ap != "on" && (c.staticIp == 0 || AddressTriple(f))
    ensures SaveCode(ApplyForm(c, f, parse)) == 1
  {
    FormStaticIp(c, f, parse);
  }

  // ---------------------------------------------------------------------
  // The handler as written
  // ---------------------------------------------------------------------

  /**
   * The field updates as `handleWifiSave` writes them, for arguments shorter
   * than their arrays (so that `strncpy` leaves them terminated). Each copy
   * is followed by the write at `[len + 1]`, which for a name or host name
   * of 19 characters, or a password of 24, lands on the next field.
   */
  function FormFieldsAsWritten(c: WiFiConfig, f: SaveForm): (r: WiFiConfig)
    requires |f.ssid| < APSTANameLen && |f.pass| < WiFiPwdLen && |f.host| < HostNameLen
    ensures r.apMode == (f.ap == "on") && r.capPortal == c.capPortal && r.configValid == c.configValid
    ensures r.ipAddr == c.ipAddr && r.gateway == c.gateway && r.subnet == c.subnet && r.dns == c.dns
  {
    var apMode := f.ap == "on";
    var pwdRequired := if apMode && f.pass == "" then false else c.pwdRequired;
    var c0 := c.(apMode := apMode, pwdRequired := pwdRequired);
    var c1 := if f.ssid != "" then NameTerminated(c0.(ssid := f.ssid)) else c0;
    var c2 := if f.pass != "" || !pwdRequired then PasswordTerminated(c1.(password := f.pass)) else c1;
    if f.host != "" then HostNameTerminated(c2.(hostName := f.host)) else c2
  }

  /** The record after the handler as written: the static branch tests `StaticIP` after the copies. */
  function ApplyFormAsWritten(c: WiFiConfig, f: SaveForm, parse: Str -> IPAddress): (r: WiFiConfig)
    requires |f.ssid| < APSTANameLen && |f.pass| < WiFiPwdLen && |f.host| < HostNameLen
    ensures r.apMode == (f.ap == "on") && r.capPortal == c.capPortal && r.configValid == c.configValid
  {
    var c1 := FormFieldsAsWritten(c, f);
    if c1.staticIp > 0 then StaticForm(c1, f, parse)
    else c1.(ipAddr := EmptyIP, gateway := EmptyIP, subnet := EmptyIP, dns := EmptyIP)
  }

  /** `ret_val` as written: the save goes through the `sizeof` checks. */
  function SaveCodeAsWritten(applied: WiFiConfig, stringObjectSize: nat): (code: int)
    ensures code in {0, 1, 2, 3} && (code == 0 <==> applied.staticIp >= 4)
  {
    if applied.staticIp < 4 then SaveVerdictAsWritten(applied, stringObjectSize) else 0
  }

  /**
   * For arguments that leave a byte to spare in their arrays, the handler
   * as written and the corrected copies give the same record.
   */
  lemma FormAsWrittenAgrees(c: WiFiConfig, f: SaveForm, parse: Str -> IPAddress)
    requires |f.ssid| < APSTANameLen - 1 && |f.pass| < WiFiPwdLen - 1 && |f.host| < HostNameLen - 1
    ensures FormFieldsAsWritten(c, f) == FormFields(c, f)
    ensures ApplyFormAsWritten(c, f, parse) == ApplyForm(c, f, parse)
  {
    assert CopyField(f.ssid, APSTANameLen) == f.ssid;
    assert CopyField(f.pass, WiFiPwdLen) == f.pass;
    assert CopyField(f.host, HostNameLen) == f.host;
  }

  /**
   * A station form with a 19-character name and no password, while a
   * password is required: the corrected handler keeps the stored password,
   * the handler as written erases it.
   */
  lemma NineteenCharNameErasesPassword(c: WiFiConfig, f: SaveForm, parse: Str -> IPAddress)
    requires f.ap != "on" && |f.ssid| == APSTANameLen - 1 && f.pass == [] && |f.host| < HostNameLen
    requires c.pwdRequired
    ensures ApplyForm(c, f, parse).password == c.password
    ensures ApplyFormAsWritten(c, f, parse).password == []
  {
  }

  /**
   * A 19-character host name with static addressing on: the corrected
   * handler takes the static branch; the handler as written has cleared
   * `StaticIP` with the terminator and drops the addresses.
   */
  lemma NineteenCharHostDropsStaticIp(c: WiFiConfig, f: SaveForm, parse: Str -> IPAddress)
    requires |f.ssid| < APSTANameLen && |f.pass| < WiFiPwdLen && |f.host| == HostNameLen - 1
    requires c.staticIp > 0
    ensures ApplyForm(c, f, parse).staticIp in {2, 3, 4}
    ensures var r := ApplyFormAsWritten(c, f, parse);
      r.staticIp == 0 && r.ipAddr == r.gateway == r.subnet == r.dns == EmptyIP
  {
  }

  /**
   * A password-protected access point named "Net" with the password "abc":
   * the corrected handler refuses it with code 2, the handler as written
   * saves it with code 1.
   */
  lemma ShortApPasswordSavedAsWritten(c: WiFiConfig, parse: Str -> IPAddress, stringObjectSize: nat)
    requires c.pwdRequired && c.staticIp == 0 && stringObjectSize >= MinPasswordLen
    ensures var f := SaveForm("on", "Net", "abc", [], [], [], [], []);
      && SaveCode(ApplyForm(c, f, parse)) == 2
      && SaveCodeAsWritten(ApplyFormAsWritten(c, f, parse), stringObjectSize) == 1
  {
    var f := SaveForm("on", "Net", "abc", [], [], [], [], []);
    FormAsWrittenAgrees(c, f, parse);
    assert |ApplyForm(c, f, parse).password| == 3;
  }

  // ---------------------------------------------------------------------
  // The `sip` toggle of /wifi
  // ---------------------------------------------------------------------

  /** `sip` "true" turns static addressing on (state 1), "false" off (state 0); anything else leaves the state. */
  function SipToggle(c: WiFiConfig, sip: Str): (r: WiFiConfig)
    ensures r.staticIp == (if sip == "true" then 1 else if sip == "false" then 0 else c.staticIp)
    ensures r.(staticIp := c.staticIp) == c
  {
    if sip == "true" then c.(staticIp := 1)
    else if sip == "false" then c.(staticIp := 0)
    else c
  }

  /**
   * After "true" the next form goes through the static branch and ends in
   * state 2, 3 or 4; after "false" it clears the addresses and saves with state 0.
   */
  lemma SipSteersForm(c: WiFiConfig, f: SaveForm, parse: Str -> IPAddress)
    ensures ApplyForm(SipToggle(c, "true"), f, parse).staticIp in {2, 3, 4}
    ensures var r := ApplyForm(SipToggle(c, "false"), f, parse);
      r.staticIp == 0 && r.ipAddr == r.gateway == r.subnet == r.dns == EmptyIP
  {
    FormStaticIp(SipToggle(c, "true"), f, parse);
  }
}
