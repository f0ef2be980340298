/**
 * The captive-portal gate and the web server's routing table.
 *
 * A request whose `Host` header is neither an address literal nor the
 * device's own Multicast DNS name (`<HostName>.local`, the `.local` domain of
 * section 3 of RFC 6762), or whose `Host` is the access point's own address,
 * is answered with the portal's landing page instead of the page it asked for.
 */
module Gate {
  import opened CStrings
  import opened Address

  predicate IpChar(c: char) {
    c == '.' || IsDigit(c)
  }

  /** What `isIp` accepts: text made only of digits and dots, the empty text included. */
  predicate LooksLikeIp(s: Str) {
    forall i :: 0 <= i < |s| ==> IpChar(s[i])
  }

  /** `isIp`: scan the characters and give up at the first that is neither a dot nor a digit. */
  method IsIp(s: Str) returns (ok: bool)
    ensures ok <==> LooksLikeIp(s)
  {
    for i := 0 to |s|
      invariant forall k :: 0 <= k < i ==> IpChar(s[k])
    {
      var c := s[i] as int;
      if c != '.' as int && (c < '0' as int || c > '9' as int) {
        return false;
      }
    }
    return true;
  }

  /** The device's Multicast DNS name. */
  function LocalName(hostName: Str): Str {
    hostName + ".local"
  }

  /** The condition `captivePortal` tests before answering with the landing page. */
  predicate ShouldRedirect(host: Str, hostName: Str) {
    (!LooksLikeIp(host) && host != LocalName(hostName)) || host == DottedQuad(CPapIP)
  }

  /** `captivePortal`'s decision, computed with `isIp` and `toStringIp` as the handler does. */
  method CaptivePortal(host: Str, hostName: Str) returns (redirect: bool)
    ensures redirect <==> (!LooksLikeIp(host) && host != hostName + ".local") || host == "172.20.0.1"
    ensures redirect == ShouldRedirect(host, hostName)
  {
    var literal := IsIp(host);
    var apText := ToStringIp(CPapIP);
    ApAddressText();
    redirect := (!literal && host != hostName + ".local") || host == apText;
  }

  /** Every address prints as text that `isIp` accepts. */
  lemma DottedQuadLooksLikeIp(ip: IPAddress)
    ensures LooksLikeIp(DottedQuad(ip))
  {
    var s := DottedQuad(ip);
    var a, b, c, d := Dec(ip.a), Dec(ip.b), Dec(ip.c), Dec(ip.d);
    assert s == a + "." + b + "." + c + "." + d;
    forall i | 0 <= i < |s|
      ensures IpChar(s[i])
    {
      if i < |a| {
        assert s[i] == a[i];
      } else if i == |a| || i == |a| + 1 + |b| || i == |a| + 1 + |b| + 1 + |c| {
        assert s[i] == '.';
      } else if i < |a| + 1 + |b| {
        assert s[i] == b[i - |a| - 1];
      } else if i < |a| + 1 + |b| + 1 + |c| {
        assert s[i] == c[i - |a| - 1 - |b| - 1];
      } else {
        assert s[i] == d[i - |a| - 1 - |b| - 1 - |c| - 1];
      }
    }
  }

  /** The access point's own address is redirected, whatever the host name, although it is a literal. */
  lemma ApLiteralRedirected(hostName: Str)
    ensures LooksLikeIp("172.20.0.1")
    ensures ShouldRedirect("172.20.0.1", hostName)
  {
    ApAddressText();
    DottedQuadLooksLikeIp(CPapIP);
  }

  /** Any other address literal, the empty Host included, reaches its handler. */
  lemma OtherLiteralsPass(host: Str, hostName: Str)
    requires LooksLikeIp(host) && host != "172.20.0.1"
    ensures !ShouldRedirect(host, hostName)
  {
    ApAddressText();
  }

  /** The device's own `.local` name reaches its handler. */
  lemma LocalNamePasses(hostName: Str)
    ensures !ShouldRedirect(LocalName(hostName), hostName)
  {
    ApAddressText();
    var s := LocalName(hostName);
    assert s[|s| - 1] == 'l';
    assert "172.20.0.1"[9] == '1';
  }

  /**
   * Any name with a character other than a digit or a dot is redirected,
   * unless it is the device's own `.local` name.
   */
  lemma ForeignNameRedirected(host: Str, hostName: Str, i: nat)
    requires i < |host| && !IpChar(host[i]) && host != LocalName(hostName)
    ensures ShouldRedirect(host, hostName)
  {
  }

  /** "example.com" is such a name, whatever the host name. */
  lemma ExampleComIsForeign(hostName: Str)
    ensures !IpChar("example.com"[0]) && "example.com" != LocalName(hostName)
  {
    var s := LocalName(hostName);
    assert s[|s| - 1] == 'l';
    assert "example.com"[10] == 'm';
  }

  // ---------------------------------------------------------------------
  // Routing, as `InitalizeHTTPServer` registers it
  // ---------------------------------------------------------------------

  datatype HttpMethod = Get | Post

  datatype Handler =
    | RootHandler        // handleRoot
    | WifiHandler        // handleWifi1: the form with a network scan
    | WifiNoScanHandler  // handleWifi0: the form without a scan
    | WifiSaveHandler    // handleWifiSave
    | ResetHandler       // handleReset
    | UpdateHandler      // handleUpdate
    | UpgradeHandler     // the firmware upload
    | PortalHandler      // handleCP: the landing page
    | NotFoundHandler    // handleNotFound

  /** The paths answered by the landing page when the captive portal is on. */
  predicate IsProbePath(path: Str) {
    path == "/generate_204" || path == "/favicon.ico" || path == "/fwlink"
  }

  /** The handler the server picks for a request; the probe paths exist only when `capPortal` is set. */
  function Route(path: Str, m: HttpMethod, capPortal: bool): (h: Handler)
    ensures IsProbePath(path) ==> h == (if capPortal then PortalHandler else NotFoundHandler)
  {
    if path == "/" then RootHandler
    else if path == "/wifi" then WifiHandler
    else if path == "/0wifi" then WifiNoScanHandler
    else if path == "/wifisave" then WifiSaveHandler
    else if path == "/reset" then ResetHandler
    else if path == "/update" then UpdateHandler
    else if path == "/upgrade" && m == Post then UpgradeHandler
    else if capPortal && IsProbePath(path) then PortalHandler
    else NotFoundHandler
  }

  datatype Reply =
    | LandingPage        // the portal's options page
    | RootText           // handleRoot's own answer
    | NotFoundPage       // the 404 listing
    | Delegated(h: Handler)

  /** What a handler answers; the root and not-found handlers consult the gate first. */
  function Respond(h: Handler, host: Str, hostName: Str): (r: Reply)
    ensures r == LandingPage <==>
      h == PortalHandler || ((h == RootHandler || h == NotFoundHandler) && ShouldRedirect(host, hostName))
  {
    match h
    case RootHandler => if ShouldRedirect(host, hostName) then LandingPage else RootText
    case NotFoundHandler => if ShouldRedirect(host, hostName) then LandingPage else NotFoundPage
    case PortalHandler => LandingPage
    case _ => Delegated(h)
  }

  /** A request for any path with a foreign Host reaches the landing page, not a 404, unless a form handler owns the path. */
  lemma ForeignHostLandsOnPortal(path: Str, m: HttpMethod, capPortal: bool, host: Str, hostName: Str, i: nat)
    requires Route(path, m, capPortal) in {RootHandler, NotFoundHandler, PortalHandler}
    requires i < |host| && !IpChar(host[i]) && host != LocalName(hostName)
    ensures Respond(Route(path, m, capPortal), host, hostName) == LandingPage
  {
    ForeignNameRedirected(host, hostName, i);
  }

  /** With the captive portal off, the probe paths fall through to the gated not-found handler. */
  lemma ProbePathsWithoutPortal(path: Str, m: HttpMethod, host: Str, hostName: Str)
    requires IsProbePath(path)
    ensures Respond(Route(path, m, true), host, hostName) == LandingPage
    ensures Respond(Route(path, m, false), host, hostName) ==
      (if ShouldRedirect(host, hostName) then LandingPage else NotFoundPage)
  {
  }
}
