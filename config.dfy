/**
 * The persisted configuration record `WiFiEEPromData`, its validity rule,
 * the checks `saveCredentials` makes before writing it, and its image in
 * EEPROM.
 *
 * The image lays the fields out in declaration order: three flag bytes, the
 * three character arrays, the static-IP state byte, four addresses of four
 * bytes each and the 3-byte tag. The record is valid exactly when its tag
 * reads "TK".
 */
module Config {
  import opened CStrings
  import opened Address

  const APSTANameLen: nat := 20
  const WiFiPwdLen: nat := 25
  const HostNameLen: nat := 20
  const ConfigValidLen: nat := 3

  /** The tag `saveCredentials` writes into `ConfigValid`. */
  const ValidTag: Str := "TK"

  /** The minimum password length for an access point that requires one. */
  const MinPasswordLen: nat := 8

  /** The size `EEPROM.begin` reserves. */
  const EepromSize: nat := 512

  /**
   * One configuration. The text fields hold what the character arrays
   * `APSTAName`, `WiFiPwd`, `HostName` and `ConfigValid` read as C strings.
   * `staticIp`: 0 off, 1 on, 2 address without DNS valid, 3 address and DNS
   * valid, 4 address settings invalid.
   */
  datatype WiFiConfig = WiFiConfig(
    apMode: bool,            // APSTA: true for access point, false for station
    pwdRequired: bool,       // PwDReq
    capPortal: bool,         // CapPortal
    ssid: Str,               // APSTAName
    password: Str,           // WiFiPwd
    hostName: Str,           // HostName
    staticIp: byte,          // StaticIP
    ipAddr: IPAddress,       // IPAdd
    gateway: IPAddress,      // Gate
    subnet: IPAddress,       // SubNet
    dns: IPAddress,          // DNS
    configValid: Str)        // ConfigValid

  /** Each text field is NUL-free and fits its array. */
  predicate Fits(c: WiFiConfig) {
    && NoNul(c.ssid) && |c.ssid| <= APSTANameLen
    && NoNul(c.password) && |c.password| <= WiFiPwdLen
    && NoNul(c.hostName) && |c.hostName| <= HostNameLen
    && NoNul(c.configValid) && |c.configValid| <= ConfigValidLen
  }

  /** The global `MyWiFiConfig` before anything is loaded: member defaults, zeroed arrays. */
  const InitialConfig := WiFiConfig(true, false, true, [], [], [], 0,
                                    EmptyIP, EmptyIP, EmptyIP, EmptyIP, [])

  predicate IsValid(c: WiFiConfig) {
    c.configValid == ValidTag
  }

  // ---------------------------------------------------------------------
  // The checks of saveCredentials
  // ---------------------------------------------------------------------

  /**
   * The code `saveCredentials` returns for `c`: 2 when an access point that
   * requires a password has one shorter than 8 characters, 3 (checked
   * second, so it wins) when an access point has an empty name, 1 otherwise,
   * after writing. The lengths are those of the C strings.
   */
  function SaveVerdict(c: WiFiConfig): (r: int)
    ensures r in {1, 2, 3}
    ensures r == 3 <==> c.apMode && |c.ssid| < 1
    ensures r == 2 <==> c.apMode && |c.ssid| >= 1 && c.pwdRequired && |c.password| < MinPasswordLen
    ensures r == 1 <==> !c.apMode || (|c.ssid| >= 1 && !(c.pwdRequired && |c.password| < MinPasswordLen))
  {
    var pwdShort := if c.apMode && c.pwdRequired && |c.password| < MinPasswordLen then 2 else 4;
    var nameShort := if c.apMode && |c.ssid| < 1 then 3 else pwdShort;
    if nameShort == 4 then 1 else nameShort
  }

  /**
   * The checks as written: they compare `sizeof(String(...))`, the size of
   * a String object, with 8 and 1. `stringObjectSize` stands for that size,
   * which does not depend on the text.
   */
  function SaveVerdictAsWritten(c: WiFiConfig, stringObjectSize: nat): (r: int)
    ensures r in {1, 2, 3}
    ensures r != 1 ==> c.apMode
  {
    var pwdShort := if c.apMode && c.pwdRequired && stringObjectSize < MinPasswordLen then 2 else 4;
    var nameShort := if c.apMode && stringObjectSize < 1 then 3 else pwdShort;
    if nameShort == 4 then 1 else nameShort
  }

  /** Any String object of at least 8 bytes makes the as-written checks accept every record. */
  lemma SizeofChecksNeverReject(c: WiFiConfig, stringObjectSize: nat)
    requires stringObjectSize >= MinPasswordLen
    ensures SaveVerdictAsWritten(c, stringObjectSize) == 1
  {
  }

  /** A password-protected access point with the password "abc": written as is, it is saved. */
  lemma ShortPasswordAccepted(stringObjectSize: nat)
    requires stringObjectSize >= MinPasswordLen
    ensures var c := InitialConfig.(ssid := "ESP_Config", pwdRequired := true, password := "abc");
      SaveVerdictAsWritten(c, stringObjectSize) == 1 && SaveVerdict(c) == 2
  {
  }

  // ---------------------------------------------------------------------
  // Factory defaults (handleReset)
  // ---------------------------------------------------------------------

  function HexDigit(d: nat): (c: Octet)
    requires d < 16
  {
    if d < 10 then DigitChar(d) else ('a' as int + (d - 10)) as char
  }

  /** `String(n, HEX)`: lower-case hexadecimal, no leading zeros. */
  function Hex(n: nat): (r: Str)
    ensures 1 <= |r| && NoNul(r)
  {
    if n < 16 then [HexDigit(n)] else Hex(n / 16) + [HexDigit(n % 16)]
  }

  lemma {:induction false} HexLength(n: nat, k: nat)
    requires 1 <= k
    requires n < Pow16(k)
    ensures |Hex(n)| <= k
  {
    if n >= 16 {
      assert k >= 2;
      assert n / 16 < Pow16(k - 1);
      HexLength(n / 16, k - 1);
    }
  }

  function Pow16(k: nat): nat {
    if k == 0 then 1 else 16 * Pow16(k - 1)
  }

  /** `ESPHostname`: "ESP_" and the low 32 bits of the chip's MAC in hexadecimal. */
  function EspHostname(mac: nat): (r: Str)
    ensures NoNul(r) && |r| <= 12
  {
    var low := mac % 0x1_0000_0000;
    assert Pow16(8) == 0x1_0000_0000;
    HexLength(low, 8);
    "ESP_" + Hex(low)
  }

  /**
   * The record `handleReset` builds before saving: access point with
   * password "12345678" and name "ESP_Config", captive portal on, the
   * chip-derived host name, the tag, all addresses 0.0.0.0, and the
   * static-IP state left as it was.
   */
  function FactoryReset(c: WiFiConfig, espHostname: Str): (r: WiFiConfig)
    requires NoNul(espHostname)
    ensures IsValid(r) && r.staticIp == c.staticIp
    ensures r.hostName == espHostname[..Min(|espHostname|, HostNameLen - 1)]
  {
    assert CopyField(ValidTag, ConfigValidLen) == ValidTag;
    c.(apMode := true, pwdRequired := true, capPortal := true,
       ssid := CopyField("ESP_Config", APSTANameLen),
       password := CopyField("12345678", WiFiPwdLen),
       hostName := CopyField(espHostname, HostNameLen),
       configValid := CopyField(ValidTag, ConfigValidLen),
       ipAddr := EmptyIP, gateway := EmptyIP, subnet := EmptyIP, dns := EmptyIP)
  }

  /** The defaults pass the save checks, are valid and fit the arrays; only the static-IP state survives. */
  lemma FactoryResetSaves(c: WiFiConfig, mac: nat)
    ensures var r := FactoryReset(c, EspHostname(mac));
      && SaveVerdict(r) == 1 && IsValid(r) && Fits(r)
      && r.apMode && r.pwdRequired && r.capPortal
      && r.ssid == "ESP_Config" && r.password == "12345678" && r.hostName == EspHostname(mac)
      && r.ipAddr == r.gateway == r.subnet == r.dns == EmptyIP
      && r.staticIp == c.staticIp
  {
    var r := FactoryReset(c, EspHostname(mac));
    assert r.ssid == "ESP_Config";
    assert r.password == "12345678";
    assert r.configValid == "TK";
    assert NoNul("ESP_Config") && NoNul("12345678") && NoNul("TK");
  }

  // ---------------------------------------------------------------------
  // The EEPROM image
  // ---------------------------------------------------------------------

  const RecordSize: nat := 3 + APSTANameLen + WiFiPwdLen + HostNameLen + 1 + 16 + ConfigValidLen

  function BoolByte(b: bool): byte {
    if b then 1 else 0
  }

  /** The image `EEPROM.put(0, MyWiFiConfig)` writes. */
  function Encode(c: WiFiConfig): (image: seq<byte>)
    requires Fits(c)
    ensures |image| == RecordSize
  {
    [BoolByte(c.apMode), BoolByte(c.pwdRequired), BoolByte(c.capPortal)]
    + FieldBytes(c.ssid, APSTANameLen)
    + FieldBytes(c.password, WiFiPwdLen)
    + FieldBytes(c.hostName, HostNameLen)
    + [c.staticIp]
    + c.ipAddr.Octets() + c.gateway.Octets() + c.subnet.Octets() + c.dns.Octets()
    + FieldBytes(c.configValid, ConfigValidLen)
  }

  function AddressAt(image: seq<byte>, at: nat): IPAddress
    requires at + 4 <= |image|
  {
    IPAddress(image[at], image[at + 1], image[at + 2], image[at + 3])
  }

  /** The record `EEPROM.get(0, MyWiFiConfig)` reads from the first `RecordSize` bytes. */
  function Decode(image: seq<byte>): (c: WiFiConfig)
    requires |image| == RecordSize
    ensures Fits(c)
  {
    WiFiConfig(
      image[0] != 0, image[1] != 0, image[2] != 0,
      FieldText(image[3..23]),
      FieldText(image[23..48]),
      FieldText(image[48..68]),
      image[68],
      AddressAt(image, 69), AddressAt(image, 73), AddressAt(image, 77), AddressAt(image, 81),
      FieldText(image[85..88]))
  }

  /** Reading back the image of a record that fits yields the record. */
  lemma DecodeEncode(c: WiFiConfig)
    requires Fits(c)
    ensures Decode(Encode(c)) == c
  {
    var e := Encode(c);
    EncodeLayout(c);
    FieldRoundTrip(c.ssid, APSTANameLen);
    FieldRoundTrip(c.password, WiFiPwdLen);
    FieldRoundTrip(c.hostName, HostNameLen);
    FieldRoundTrip(c.configValid, ConfigValidLen);
    assert AddressAt(e, 69) == c.ipAddr;
    assert AddressAt(e, 73) == c.gateway;
    assert AddressAt(e, 77) == c.subnet;
    assert AddressAt(e, 81) == c.dns;
  }

  /** Where each field lies in the image. */
  lemma EncodeLayout(c: WiFiConfig)
    requires Fits(c)
    ensures var e := Encode(c);
      && e[0] == BoolByte(c.apMode) && e[1] == BoolByte(c.pwdRequired) && e[2] == BoolByte(c.capPortal)
      && e[3..23] == FieldBytes(c.ssid, APSTANameLen)
      && e[23..48] == FieldBytes(c.password, WiFiPwdLen)
      && e[48..68] == FieldBytes(c.hostName, HostNameLen)
      && e[68] == c.staticIp
      && e[69..85] == c.ipAddr.Octets() + c.gateway.Octets() + c.subnet.Octets() + c.dns.Octets()
      && e[85..88] == FieldBytes(c.configValid, ConfigValidLen)
  {
    var e := Encode(c);
    var flags := [BoolByte(c.apMode), BoolByte(c.pwdRequired), BoolByte(c.capPortal)];
    var s1 := FieldBytes(c.ssid, APSTANameLen);
    var s2 := FieldBytes(c.password, WiFiPwdLen);
    var s3 := FieldBytes(c.hostName, HostNameLen);
    var ips := c.ipAddr.Octets() + c.gateway.Octets() + c.subnet.Octets() + c.dns.Octets();
    var s4 := FieldBytes(c.configValid, ConfigValidLen);
    var head := flags + s1 + s2 + s3 + [c.staticIp] + ips;
    assert e == head + s4;
    assert e[..85] == head && e[85..] == s4;
    assert e[3..23] == s1;
    assert e[23..48] == s2;
    assert e[48..68] == s3;
    assert e[69..85] == ips;
    assert e[85..88] == s4;
  }

  /** `loadCredentials`: the record read back, and whether its tag reads "TK". */
  function Load(image: seq<byte>): (r: (bool, WiFiConfig))
    requires |image| >= RecordSize
    ensures r.0 <==> IsValid(r.1)
    ensures Fits(r.1)
  {
    var c := Decode(image[..RecordSize]);
    (c.configValid == ValidTag, c)
  }

  /** A record saved with the tag loads back valid and unchanged. */
  lemma LoadAfterSave(c: WiFiConfig, rest: seq<byte>)
    requires Fits(c) && IsValid(c)
    ensures Load(Encode(c) + rest) == (true, c)
  {
    var image := Encode(c) + rest;
    assert image[..RecordSize] == Encode(c);
    DecodeEncode(c);
  }

  /** Erased storage holds no configuration: all-zero bytes load as invalid. */
  lemma ZeroImageInvalid(n: nat)
    requires n >= RecordSize
    ensures !Load(Zeros(n)).0
  {
    var z := Zeros(n)[..RecordSize];
    assert z[85..88][0] == 0;
    assert FieldText(z[85..88]) == [];
  }

  /** Only the tag bytes 'T', 'K', NUL make an image valid. */
  lemma ValidTagBytes(image: seq<byte>)
    requires |image| >= RecordSize
    ensures Load(image).0 <==> image[85] == 'T' as int && image[86] == 'K' as int && image[87] == 0
  {
    var t := FieldText(image[..RecordSize][85..88]);
    if Load(image).0 {
      assert t == "TK";
      assert t[0] as int == image[85] && t[1] as int == image[86];
      assert image[87] == 0;
    }
    if image[85] == 'T' as int && image[86] == 'K' as int && image[87] == 0 {
      assert |t| == 2;
      assert t[0] as int == 'T' as int && t[1] as int == 'K' as int;
      assert t == "TK";
    }
  }

  // ---------------------------------------------------------------------
  // The terminator writes `field[strlen(field) + 1] = '\0'`
  // ---------------------------------------------------------------------

  /** Offsets of the first three character arrays and of `StaticIP` in the image. */
  const NameAt: nat := 3
  const PasswordAt: nat := NameAt + APSTANameLen
  const HostNameAt: nat := PasswordAt + WiFiPwdLen
  const StaticIpAt: nat := HostNameAt + HostNameLen

  /**
   * The record after the write that follows a terminated name of length
   * `len` in `APSTAName`: index `len + 1` of the array. For a name of 19
   * characters that is `WiFiPwd[0]`, and the password reads back empty.
   */
  function NameTerminated(c: WiFiConfig): (r: WiFiConfig)
    requires |c.ssid| < APSTANameLen
  {
    if |c.ssid| == APSTANameLen - 1 then c.(password := []) else c
  }

  /** The same after a terminated password: at 24 characters the write lands on `HostName[0]`. */
  function PasswordTerminated(c: WiFiConfig): (r: WiFiConfig)
    requires |c.password| < WiFiPwdLen
  {
    if |c.password| == WiFiPwdLen - 1 then c.(hostName := []) else c
  }

  /** The same after a terminated host name: at 19 characters the write lands on `StaticIP`. */
  function HostNameTerminated(c: WiFiConfig): (r: WiFiConfig)
    requires |c.hostName| < HostNameLen
  {
    if |c.hostName| == HostNameLen - 1 then c.(staticIp := 0) else c
  }

  /** Past the text of a character array, the array holds NUL bytes. */
  lemma PaddingIsZero(s: Str, cap: nat, j: nat)
    requires |s| < j < cap
    ensures FieldBytes(s, cap)[j] == 0
  {
    assert FieldBytes(s, cap)[j] == Zeros(cap - |s|)[j - |s|];
  }

  /** `NameTerminated` is what the write at `APSTAName[len + 1]` does to the stored record. */
  lemma NameTerminatorImage(c: WiFiConfig)
    requires Fits(c) && |c.ssid| < APSTANameLen
    ensures Decode(Encode(c)[NameAt + |c.ssid| + 1 := 0]) == NameTerminated(c)
  {
    var e := Encode(c);
    var k := NameAt + |c.ssid| + 1;
    var w := e[k := 0];
    EncodeLayout(c);
    DecodeEncode(c);
    if |c.ssid| < APSTANameLen - 1 {
      PaddingIsZero(c.ssid, APSTANameLen, k - NameAt);
      assert e[NameAt..PasswordAt][k - NameAt] == e[k];
      assert w == e;
    } else {
      assert w[3..23] == e[3..23] && w[48..68] == e[48..68] && w[85..88] == e[85..88];
      assert w[69..85] == e[69..85];
      assert w[23..48][0] == 0;
    }
  }

  /** `PasswordTerminated` is what the write at `WiFiPwd[len + 1]` does to the stored record. */
  lemma PasswordTerminatorImage(c: WiFiConfig)
    requires Fits(c) && |c.password| < WiFiPwdLen
    ensures Decode(Encode(c)[PasswordAt + |c.password| + 1 := 0]) == PasswordTerminated(c)
  {
    var e := Encode(c);
    var k := PasswordAt + |c.password| + 1;
    var w := e[k := 0];
    EncodeLayout(c);
    DecodeEncode(c);
    if |c.password| < WiFiPwdLen - 1 {
      PaddingIsZero(c.password, WiFiPwdLen, k - PasswordAt);
      assert e[PasswordAt..HostNameAt][k - PasswordAt] == e[k];
      assert w == e;
    } else {
      assert w[3..23] == e[3..23] && w[23..48] == e[23..48] && w[85..88] == e[85..88];
      assert w[69..85] == e[69..85];
      assert w[48..68][0] == 0;
    }
  }

  /** `HostNameTerminated` is what the write at `HostName[len + 1]` does to the stored record. */
  lemma HostNameTerminatorImage(c: WiFiConfig)
    requires Fits(c) && |c.hostName| < HostNameLen
    ensures Decode(Encode(c)[HostNameAt + |c.hostName| + 1 := 0]) == HostNameTerminated(c)
  {
    var e := Encode(c);
    var k := HostNameAt + |c.hostName| + 1;
    var w := e[k := 0];
    EncodeLayout(c);
    DecodeEncode(c);
    if |c.hostName| < HostNameLen - 1 {
      PaddingIsZero(c.hostName, HostNameLen, k - HostNameAt);
      assert e[HostNameAt..StaticIpAt][k - HostNameAt] == e[k];
      assert w == e;
    } else {
      assert w[3..23] == e[3..23] && w[23..48] == e[23..48] && w[48..68] == e[48..68];
      assert w[69..85] == e[69..85] && w[85..88] == e[85..88];
    }
  }

  /**
   * The writes `setup` makes after loading, name first and password second.
   * A 19-character name erases the password (an open access point, or a
   * station that joins with an empty password); a 24-character password
   * erases the host name. An array without a terminator (a stored name of
   * 20 or a password of 25 bytes) is left as it is.
   */
  function SetupTerminated(c: WiFiConfig): (r: WiFiConfig)
    ensures r.(password := c.password, hostName := c.hostName) == c
    ensures Fits(c) ==> Fits(r)
    ensures |c.ssid| == APSTANameLen - 1 ==> r.password == [] && r.hostName == c.hostName
    ensures |c.ssid| < APSTANameLen - 1 && |c.password| == WiFiPwdLen - 1 ==> r.hostName == [] && r.password == c.password
    ensures |c.ssid| < APSTANameLen - 1 && |c.password| < WiFiPwdLen - 1 ==> r == c
  {
    var named := if |c.ssid| < APSTANameLen then NameTerminated(c) else c;
    if |named.password| < WiFiPwdLen then PasswordTerminated(named) else named
  }
}
