/**
 * Joining a network as a station (`ConnectWifiAP`).
 *
 * The radio is not modelled. Each call of `WiFi.waitForConnectResult` is
 * answered by an oracle `feed`: the k-th call (counting from 0) returns
 * `feed(k)`. Whether `MDNS.begin` succeeds is the parameter `mdnsOk`. The
 * status codes are those of the Arduino `wl_status_t`: 0 idle, 1 no SSID
 * available, 3 connected, 4 connection failed (in practice, a wrong password).
 */
module Connect {
  import opened CStrings
  import opened Address
  import opened Config

  const IdleStatus: byte := 0
  const NoSsidAvail: byte := 1
  const Connected: byte := 3
  const ConnectFailed: byte := 4

  /** The bound on the `retry` counter the three waiting loops share. */
  const RetryLimit: nat := 10

  /** The answers of successive `WiFi.waitForConnectResult` calls. */
  type StatusFeed = nat -> byte

  /** The address configuration applied before `WiFi.begin`. */
  datatype IpSetup =
    | Dhcp
    | Static(ip: IPAddress, gateway: IPAddress, subnet: IPAddress)
    | StaticWithDns(ip: IPAddress, gateway: IPAddress, subnet: IPAddress, dns: IPAddress)

  /**
   * The state the waiting loops carry: the last status, the shared retry
   * counter, how many statuses were polled and how many times `WiFi.begin`
   * was called.
   */
  datatype Progress = Progress(status: byte, retry: nat, polls: nat, begins: nat)

  /**
   * One waiting loop: while the status is `code` and the counter has not
   * reached 10, poll again (calling `WiFi.begin` first when `reissue`).
   */
  ghost function Spin(p: Progress, code: byte, feed: StatusFeed, reissue: bool): (r: Progress)
    requires p.retry <= RetryLimit
    ensures p.retry <= r.retry <= RetryLimit
    decreases RetryLimit - p.retry
  {
    if p.status != code || p.retry == RetryLimit then p
    else Spin(Step(p, feed, reissue), code, feed, reissue)
  }

  /** One pass of a waiting loop: poll, count, and call `WiFi.begin` first when `reissue`. */
  ghost function Step(p: Progress, feed: StatusFeed, reissue: bool): (r: Progress)
    ensures r.polls >= 1 && r.status == feed(r.polls - 1) && r.polls - r.retry == p.polls - p.retry
    ensures r.begins == p.begins + 1 <==> reissue
    ensures r.begins == p.begins <==> !reissue
  {
    Progress(feed(p.polls), p.retry + 1, p.polls + 1, if reissue then p.begins + 1 else p.begins)
  }

  /**
   * A waiting loop stops on another status or on the exhausted counter;
   * every pass adds one poll and, for the wrong-password loop, one
   * `WiFi.begin`; the status it leaves is the last one polled.
   */
  lemma {:induction false} SpinFacts(p: Progress, code: byte, feed: StatusFeed, reissue: bool)
    requires p.retry <= RetryLimit
    ensures var r := Spin(p, code, feed, reissue);
      && r.polls == p.polls + (r.retry - p.retry)
      && r.begins == p.begins + (if reissue then r.retry - p.retry else 0)
      && (r.status != code || r.retry == RetryLimit)
      && (r.retry > p.retry ==> r.status == feed(r.polls - 1))
      && (r.retry == p.retry ==> r == p)
    decreases RetryLimit - p.retry
  {
    if p.status == code && p.retry < RetryLimit {
      SpinFacts(Step(p, feed, reissue), code, feed, reissue);
    }
  }

  /** What a connection attempt ends with. */
  datatype Outcome = Outcome(
    status: byte,          // the value returned
    autoReconnect: bool,   // WiFi.setAutoReconnect(true) was called
    mdnsService: bool,     // the HTTP service was announced over Multicast DNS
    disconnected: bool,    // WiFi.disconnect() after a final wrong password
    polls: nat,            // calls of WiFi.waitForConnectResult
    begins: nat)           // calls of WiFi.begin

  /** The three loops after the first `WiFi.begin` and poll, as a function of the oracle. */
  ghost function Attempt(feed: StatusFeed, mdnsOk: bool): (o: Outcome)
    ensures o.mdnsService ==> o.autoReconnect && mdnsOk
    ensures o.disconnected <==> o.status == ConnectFailed
  {
    var linked := Linked(feed).status == Connected;
    var final := Final(feed);
    Outcome(final.status, linked, linked && mdnsOk, final.status == ConnectFailed,
            final.polls, final.begins)
  }

  /** The state after the idle and the unreachable-network loops. */
  ghost function Linked(feed: StatusFeed): (r: Progress)
    ensures r.retry <= RetryLimit
    ensures r.status != NoSsidAvail || r.retry == RetryLimit
  {
    var p0 := Progress(feed(0), 0, 1, 1);
    var idle := Spin(p0, IdleStatus, feed, false);
    SpinFacts(idle, NoSsidAvail, feed, false);
    Spin(idle, NoSsidAvail, feed, false)
  }

  /** The state after the wrong-password loop. */
  ghost function Final(feed: StatusFeed): (r: Progress)
    ensures Linked(feed).retry <= r.retry <= RetryLimit
    ensures r.status != ConnectFailed || r.retry == RetryLimit
  {
    SpinFacts(Linked(feed), ConnectFailed, feed, true);
    Spin(Linked(feed), ConnectFailed, feed, true)
  }

  /**
   * `ConnectWifiAP`: configure static addressing when the record asks for
   * it, join the network named in the record, and wait for the result.
   */
  method ConnectWifiAP(config: WiFiConfig, feed: StatusFeed, mdnsOk: bool)
    returns (connRes: byte, ipSetup: IpSetup, autoReconnect: bool, mdnsService: bool,
             disconnected: bool, ghost polls: nat, ghost begins: nat)
    ensures Attempt(feed, mdnsOk) ==
      Outcome(connRes, autoReconnect, mdnsService, disconnected, polls, begins)
    ensures ipSetup.Static? <==> config.staticIp == 2
    ensures ipSetup.StaticWithDns? <==> config.staticIp == 3
    ensures ipSetup.Dhcp? <==> config.staticIp != 2 && config.staticIp != 3
    ensures !ipSetup.Dhcp? ==>
      ipSetup.ip == config.ipAddr && ipSetup.gateway == config.gateway && ipSetup.subnet == config.subnet
    ensures ipSetup.StaticWithDns? ==> ipSetup.dns == config.dns
  {
    var retry: nat := 0;
    var next: nat := 0;
    if config.staticIp == 2 {
      ipSetup := Static(config.ipAddr, config.gateway, config.subnet);
    } else if config.staticIp == 3 {
      ipSetup := StaticWithDns(config.ipAddr, config.gateway, config.subnet, config.dns);
    } else {
      ipSetup := Dhcp;
    }
    begins := 1;
    connRes := feed(next);
    next := next + 1;
    connRes, retry, next, begins := WaitWhile(IdleStatus, false, feed, connRes, retry, next, begins);
    connRes, retry, next, begins := WaitWhile(NoSsidAvail, false, feed, connRes, retry, next, begins);
    ghost var noSsid := Progress(connRes, retry, next, begins);
    autoReconnect := false;
    mdnsService := false;
    if connRes == Connected {
      autoReconnect := true;
      mdnsService := mdnsOk;
    }
    connRes, retry, next, begins := WaitWhile(ConnectFailed, true, feed, connRes, retry, next, begins);
    disconnected := connRes == ConnectFailed;
    polls := next;
    assert Attempt(feed, mdnsOk) == Outcome(connRes, noSsid.status == Connected,
      noSsid.status == Connected && mdnsOk, connRes == ConnectFailed, next, begins);
  }

  /**
   * One waiting loop of `ConnectWifiAP`: while the status is `code` and the
   * shared counter is not 10, poll again, calling `WiFi.begin` first when
   * `reissue`. `next` is the number of polls made so far.
   */
  method WaitWhile(code: byte, reissue: bool, feed: StatusFeed,
                   status0: byte, retry0: nat, next0: nat, ghost begins0: nat)
    returns (status: byte, retry: nat, next: nat, ghost begins: nat)
    requires retry0 <= RetryLimit
    ensures Progress(status, retry, next, begins) ==
      Spin(Progress(status0, retry0, next0, begins0), code, feed, reissue)
    ensures retry <= RetryLimit
  {
    status, retry, next, begins := status0, retry0, next0, begins0;
    while status == code && retry != RetryLimit
      invariant retry <= RetryLimit
      invariant Spin(Progress(status, retry, next, begins), code, feed, reissue) ==
        Spin(Progress(status0, retry0, next0, begins0), code, feed, reissue)
      decreases RetryLimit - retry
    {
      if reissue {
        begins := begins + 1;
      }
      status := feed(next);
      next := next + 1;
      retry := retry + 1;
    }
  }

  // ---------------------------------------------------------------------
  // What the loops guarantee
  // ---------------------------------------------------------------------

  /**
   * The shared counter bounds the work: at most 10 polls after the first,
   * one `WiFi.begin` per wrong-password poll, and the value returned is the
   * last status polled.
   */
  lemma AttemptBounds(feed: StatusFeed, mdnsOk: bool)
    ensures var o := Attempt(feed, mdnsOk);
      && 1 <= o.polls <= 1 + RetryLimit
      && 1 <= o.begins <= o.polls
      && o.status == feed(o.polls - 1)
  {
    FinalAccounted(feed);
  }

  /** The account holds after all three waiting loops. */
  lemma FinalAccounted(feed: StatusFeed)
    ensures Accounted(Final(feed), feed)
  {
    var p0 := Progress(feed(0), 0, 1, 1);
    SpinAccounted(p0, IdleStatus, feed, false);
    SpinAccounted(Spin(p0, IdleStatus, feed, false), NoSsidAvail, feed, false);
    SpinAccounted(Linked(feed), ConnectFailed, feed, true);
  }

  /** Every pass so far polled once, at most one `WiFi.begin` each, and the status is the last poll. */
  predicate Accounted(p: Progress, feed: StatusFeed) {
    && p.retry <= RetryLimit
    && p.polls == 1 + p.retry
    && 1 <= p.begins <= p.polls
    && p.status == feed(p.polls - 1)
  }

  /** A waiting loop keeps the account of polls and `WiFi.begin` calls. */
  lemma SpinAccounted(p: Progress, code: byte, feed: StatusFeed, reissue: bool)
    requires Accounted(p, feed)
    ensures Accounted(Spin(p, code, feed, reissue), feed)
  {
    SpinFacts(p, code, feed, reissue);
  }

  /** Idle and unreachable statuses only poll again: without a wrong password, `WiFi.begin` is called once. */
  lemma OnlyWrongPasswordReissues(feed: StatusFeed, mdnsOk: bool)
    requires forall k :: 0 <= k <= RetryLimit ==> feed(k) != ConnectFailed
    ensures Attempt(feed, mdnsOk).begins == 1
    ensures !Attempt(feed, mdnsOk).disconnected
  {
    var p0 := Progress(feed(0), 0, 1, 1);
    var idle := Spin(p0, IdleStatus, feed, false);
    var noSsid := Spin(idle, NoSsidAvail, feed, false);
    SpinFacts(p0, IdleStatus, feed, false);
    SpinFacts(idle, NoSsidAvail, feed, false);
    SpinFacts(noSsid, ConnectFailed, feed, true);
    assert noSsid.status != ConnectFailed;
  }

  /** mDNS is announced only for a connection made before the wrong-password loop, and the result is then 3. */
  lemma MdnsOnlyWhenConnected(feed: StatusFeed, mdnsOk: bool)
    ensures Attempt(feed, mdnsOk).mdnsService ==> Attempt(feed, mdnsOk).autoReconnect && mdnsOk
    ensures Attempt(feed, mdnsOk).autoReconnect ==>
      Attempt(feed, mdnsOk).status == Connected && Attempt(feed, mdnsOk).begins == 1
    ensures Attempt(feed, mdnsOk).disconnected <==> Attempt(feed, mdnsOk).status == ConnectFailed
  {
    var p0 := Progress(feed(0), 0, 1, 1);
    var idle := Spin(p0, IdleStatus, feed, false);
    var noSsid := Spin(idle, NoSsidAvail, feed, false);
    SpinFacts(p0, IdleStatus, feed, false);
    SpinFacts(idle, NoSsidAvail, feed, false);
    SpinFacts(noSsid, ConnectFailed, feed, true);
    if noSsid.status == Connected {
      assert Spin(noSsid, ConnectFailed, feed, true) == noSsid;
    }
  }

  /** A `Spin` over a feed that keeps answering `code` runs the counter out. */
  lemma {:induction false} SpinExhausts(p: Progress, code: byte, feed: StatusFeed, reissue: bool)
    requires p.retry <= RetryLimit && p.status == code
    requires forall k :: feed(k) == code
    ensures Spin(p, code, feed, reissue).retry == RetryLimit
    ensures Spin(p, code, feed, reissue).status == code
    decreases RetryLimit - p.retry
  {
    if p.retry < RetryLimit {
      SpinExhausts(Step(p, feed, reissue), code, feed, reissue);
    }
  }

  /** A password the network always refuses: 11 polls, 11 `WiFi.begin` calls, then a disconnect. */
  lemma PersistentWrongPassword(feed: StatusFeed, mdnsOk: bool)
    requires forall k :: feed(k) == ConnectFailed
    ensures Attempt(feed, mdnsOk) == Outcome(ConnectFailed, false, false, true, 1 + RetryLimit, 1 + RetryLimit)
  {
    var p0 := Progress(feed(0), 0, 1, 1);
    SpinFacts(p0, IdleStatus, feed, false);
    SpinFacts(p0, NoSsidAvail, feed, false);
    SpinExhausts(p0, ConnectFailed, feed, true);
    SpinFacts(p0, ConnectFailed, feed, true);
  }

  /** A radio that stays idle: 11 polls, one `WiFi.begin`, and 0 is returned. */
  lemma IdleExhaustsBudget(feed: StatusFeed, mdnsOk: bool)
    requires forall k :: feed(k) == IdleStatus
    ensures Attempt(feed, mdnsOk) == Outcome(IdleStatus, false, false, false, 1 + RetryLimit, 1)
  {
    var p0 := Progress(feed(0), 0, 1, 1);
    SpinExhausts(p0, IdleStatus, feed, false);
    SpinFacts(p0, IdleStatus, feed, false);
    var idle := Spin(p0, IdleStatus, feed, false);
    SpinFacts(idle, NoSsidAvail, feed, false);
    SpinFacts(idle, ConnectFailed, feed, true);
  }

  /**
   * A wrong password on the first poll and a connection on the second: the
   * device joins the network, yet neither auto-reconnect nor mDNS is set up,
   * because those are decided before the wrong-password loop runs.
   */
  lemma WrongPasswordRecoverySkipsMdns(feed: StatusFeed)
    requires feed(0) == ConnectFailed && feed(1) == Connected
    ensures Attempt(feed, true) == Outcome(Connected, false, false, false, 2, 2)
  {
    var p0 := Progress(feed(0), 0, 1, 1);
    assert Spin(p0, IdleStatus, feed, false) == p0;
    assert Spin(p0, NoSsidAvail, feed, false) == p0;
    var p1 := Step(p0, feed, true);
    assert Spin(p1, ConnectFailed, feed, true) == p1;
  }
}
