/** The Chromecast reachability check (lib/reachability.ts): three
    strategies run side by side (TCP connects to the cast ports, one ICMP
    ping, an mDNS query) and the device counts as reachable when any
    reports success. Sockets, the mDNS responder, `ping` and timers are
    outside the model: what they deliver is given as sequences of events
    and as the settled outcome of each timed strategy. */
module Reachability {
  import opened JsRuntime

  // ---------------------------------------------------------------------
  // promiseAny
  // ---------------------------------------------------------------------

  /** How a promise settled, as `Promise.allSettled` reports it. */
  datatype Settled<T> = Fulfilled(value: T) | Rejected(reason: string)

  /** The message of the error promiseAny throws. */
  const AllRejected: string := "All promises were rejected"

  /** The first fulfilled value in list order, if any. */
  function FirstFulfilled<T>(results: seq<Settled<T>>): (r: Option<T>)
  {
    if results == [] then None
    else if results[0].Fulfilled? then Some(results[0].value)
    else FirstFulfilled(results[1..])
  }

  /** FirstFulfilled picks the earliest fulfilled position: the list-order
      winner, not the first to settle, and it is None only when every
      promise rejected. */
  lemma {:induction false} FirstFulfilledIsEarliest<T>(results: seq<Settled<T>>)
    ensures FirstFulfilled(results).None? <==> forall i :: 0 <= i < |results| ==> results[i].Rejected?
    ensures FirstFulfilled(results).Some? ==>
      exists i :: 0 <= i < |results| && results[i] == Fulfilled(FirstFulfilled(results).value)
        && forall j :: 0 <= j < i ==> results[j].Rejected?
  {
    if results != [] {
      FirstFulfilledIsEarliest(results[1..]);
      if results[0].Rejected? && FirstFulfilled(results).Some? {
        var i :| 0 <= i < |results[1..]| && results[1..][i] == Fulfilled(FirstFulfilled(results).value)
          && forall j :: 0 <= j < i ==> results[1..][j].Rejected?;
        assert results[i + 1] == results[1..][i];
        assert forall j :: 0 < j <= i ==> results[j] == results[1..][j - 1];
      }
    }
  }

  /** promiseAny over the settled results: the loop returns the first
      fulfilled value, or rejects when there is none. */
  method PromiseAny<T>(results: seq<Settled<T>>) returns (r: Settled<T>)
    ensures r.Fulfilled? <==> FirstFulfilled(results).Some?
    ensures r.Fulfilled? ==> r.value == FirstFulfilled(results).value
    ensures r.Rejected? ==> r.reason == AllRejected
  {
    var i := 0;
    while i < |results|
      invariant 0 <= i <= |results|
      invariant FirstFulfilled(results) == FirstFulfilled(results[i..])
    {
      if results[i].Fulfilled? {
        return results[i];
      }
      assert results[i..][1..] == results[i + 1..];
      i := i + 1;
    }
    return Rejected(AllRejected);
  }

  // ---------------------------------------------------------------------
  // tcpProbe
  // ---------------------------------------------------------------------

  /** What a socket reports: 'connect', 'timeout' or 'error'. */
  datatype SocketEvent = Connect | Timeout | SocketError

  /** The result the probe settles on after these events, each event
      handled in turn: the first settles it, later ones change nothing.
      None means the promise is still pending. */
  function TcpSettled(events: seq<SocketEvent>): Option<bool>
  {
    if events == [] then None
    else
      var before := TcpSettled(events[..|events| - 1]);
      if before.Some? then before else Some(events[|events| - 1] == Connect)
  }

  /** The first event decides: a connection gives true, a timeout or an
      error false, and nothing after it matters. */
  lemma {:induction false} TcpFirstEventDecides(events: seq<SocketEvent>)
    ensures TcpSettled(events) == (if events == [] then None else Some(events[0] == Connect))
  {
    if |events| > 1 {
      TcpFirstEventDecides(events[..|events| - 1]);
    }
  }

  /** The socket of one probe and its once-flag. */
  class TcpProbe {
    const ip: string
    const port: nat
    const timeoutMs: nat
    var settled: bool
    var destroyed: bool
    var result: Option<bool>

    predicate Valid()
      reads this
    {
      settled <==> result.Some?
    }

    constructor(ip: string, port: nat, timeoutMs: nat)
      ensures Valid() && !settled && !destroyed && result == None
      ensures this.ip == ip && this.port == port && this.timeoutMs == timeoutMs
    {
      this.ip, this.port, this.timeoutMs := ip, port, timeoutMs;
      settled, destroyed, result := false, false, None;
    }

    /** `settle(ok)`: only the first call has any effect. */
    method Settle(ok: bool)
      requires Valid()
      modifies this
      ensures Valid()
      ensures old(settled) ==> settled == old(settled) && result == old(result) && destroyed == old(destroyed)
      ensures !old(settled) ==> settled && destroyed && result == Some(ok)
    {
      if settled {
        return;
      }
      settled := true;
      destroyed := true;
      result := Some(ok);
    }

    /** The three `once` listeners. */
    method Handle(e: SocketEvent)
      requires Valid()
      modifies this
      ensures Valid()
      ensures result == (if old(result).Some? then old(result) else Some(e == Connect))
      ensures destroyed == (old(destroyed) || !old(settled))
    {
      Settle(e == Connect);
    }
  }

  /** `tcpProbe(ip, port, timeoutMs)` fed the events its socket reports. */
  method Probe(ip: string, port: nat, timeoutMs: nat, events: seq<SocketEvent>) returns (r: Option<bool>)
    ensures r == TcpSettled(events)
  {
    var probe := new TcpProbe(ip, port, timeoutMs);
    var i := 0;
    while i < |events|
      invariant 0 <= i <= |events|
      invariant probe.Valid()
      invariant probe.result == TcpSettled(events[..i])
    {
      probe.Handle(events[i]);
      assert events[..i + 1][..i] == events[..i];
      i := i + 1;
    }
    assert events[..i] == events;
    return probe.result;
  }

  // ---------------------------------------------------------------------
  // mdnsCheck
  // ---------------------------------------------------------------------

  /** The `data` of an mDNS record: absent or falsy, a string, or an object
      whose own `data` is a string (Some) or anything else (None). */
  datatype AnswerData = NoData | Text(s: string) | Record(inner: Option<string>)

  /** `packet.answers` and `packet.additionals`, either of which may be
      missing. */
  datatype Packet = Packet(answers: Option<seq<AnswerData>>, additionals: Option<seq<AnswerData>>)

  /** The answers the check looks at: answers then additionals. */
  function Records(p: Packet): (r: seq<AnswerData>)
    ensures forall a :: a in r <==>
      (p.answers.Some? && a in p.answers.value) || (p.additionals.Some? && a in p.additionals.value)
  {
    (if p.answers.Some? then p.answers.value else [])
    + (if p.additionals.Some? then p.additionals.value else [])
  }

  /** The per-record test: a string is compared as it is; otherwise a
      truthy inner `data` is compared; anything else does not match. */
  predicate AnswerMatches(a: AnswerData, targetIp: string) {
    match a
    case NoData => false
    case Text(s) => s == targetIp
    case Record(inner) => inner.Some? && inner.value != [] && inner.value == targetIp
  }

  predicate PacketMatches(p: Packet, targetIp: string) {
    exists a :: a in Records(p) && AnswerMatches(a, targetIp)
  }

  /** What reaches the check: a response packet, or the timer. */
  datatype MdnsEvent = Response(packet: Packet) | TimerFires

  /** The result after these events: a matching response settles true, the
      timer false, whichever comes first; a non-matching response and
      anything after settling change nothing. */
  function MdnsSettled(targetIp: string, events: seq<MdnsEvent>): Option<bool>
  {
    if events == [] then None
    else
      var before := MdnsSettled(targetIp, events[..|events| - 1]);
      var e := events[|events| - 1];
      if before.Some? then before
      else if e.TimerFires? then Some(false)
      else if PacketMatches(e.packet, targetIp) then Some(true)
      else None
  }

  /** The check settles true exactly when some response matches before the
      timer has fired and before any earlier match. */
  predicate MatchBeforeTimer(targetIp: string, events: seq<MdnsEvent>) {
    exists i :: 0 <= i < |events| && events[i].Response? && PacketMatches(events[i].packet, targetIp)
      && forall j :: 0 <= j < i ==> events[j].Response?
  }

  lemma {:induction false} MdnsTrueIff(targetIp: string, events: seq<MdnsEvent>)
    ensures MdnsSettled(targetIp, events) == Some(true) <==> MatchBeforeTimer(targetIp, events)
    ensures MdnsSettled(targetIp, events) == None <==>
      forall j :: 0 <= j < |events| ==> events[j].Response? && !PacketMatches(events[j].packet, targetIp)
  {
    if events != [] {
      var front := events[..|events| - 1];
      var n := |events| - 1;
      MdnsTrueIff(targetIp, front);
      assert forall j :: 0 <= j < n ==> front[j] == events[j];
    }
  }

  /** The responder connection with its once-flag and timer. */
  class MdnsCheck {
    const targetIp: string
    var resolved: bool
    var timerCleared: bool
    var destroyed: bool
    var result: Option<bool>

    predicate Valid()
      reads this
    {
      resolved <==> result.Some?
    }

    constructor(targetIp: string)
      ensures Valid() && !resolved && !timerCleared && !destroyed && result == None
      ensures this.targetIp == targetIp
    {
      this.targetIp := targetIp;
      resolved, timerCleared, destroyed, result := false, false, false, None;
    }

    /** The timer callback: resolve false unless already resolved. */
    method OnTimer()
      requires Valid()
      modifies this
      ensures Valid()
      ensures result == (if old(resolved) then old(result) else Some(false))
      ensures !old(resolved) ==> destroyed
      ensures old(resolved) ==> destroyed == old(destroyed)
      ensures timerCleared == old(timerCleared)
    {
      if !resolved {
        resolved := true;
        destroyed := true;
        result := Some(false);
      }
    }

    /** The 'response' listener. */
    method OnResponse(p: Packet)
      requires Valid()
      modifies this
      ensures Valid()
      ensures result == (if old(resolved) || !PacketMatches(p, targetIp) then old(result) else Some(true))
      ensures !old(resolved) && PacketMatches(p, targetIp) ==> timerCleared && destroyed
      ensures old(resolved) || !PacketMatches(p, targetIp) ==>
        timerCleared == old(timerCleared) && destroyed == old(destroyed)
    {
      if resolved {
        return;
      }
      var records := Records(p);
      var found := false;
      var k := 0;
      while k < |records|
        invariant 0 <= k <= |records|
        invariant found <==> exists a :: a in records[..k] && AnswerMatches(a, targetIp)
      {
        assert records[..k + 1] == records[..k] + [records[k]];
        found := found || AnswerMatches(records[k], targetIp);
        k := k + 1;
      }
      assert records[..k] == records;
      if found {
        resolved := true;
        timerCleared := true;
        destroyed := true;
        result := Some(true);
      }
    }
  }

  /** `mdnsCheck(targetIp)` fed what arrives before it settles. Once the
      timer is cleared it does not fire, which the flag makes harmless. */
  method Mdns(targetIp: string, events: seq<MdnsEvent>) returns (r: Option<bool>)
    ensures r == MdnsSettled(targetIp, events)
  {
    var check := new MdnsCheck(targetIp);
    var i := 0;
    while i < |events|
      invariant 0 <= i <= |events|
      invariant check.Valid() && check.targetIp == targetIp
      invariant check.result == MdnsSettled(targetIp, events[..i])
    {
      assert events[..i + 1][..i] == events[..i];
      if events[i].TimerFires? {
        check.OnTimer();
      } else {
        check.OnResponse(events[i].packet);
      }
      i := i + 1;
    }
    assert events[..i] == events;
    return check.result;
  }

  // ---------------------------------------------------------------------
  // icmpPing and isChromecastReachable
  // ---------------------------------------------------------------------

  /** The ping commands for each platform. */
  function PingCommand(ip: string, windows: bool): string {
    if windows then "ping -n 1 -w 1500 " + ip else "ping -c 1 -W 1 " + ip
  }

  /** icmpPing: true exactly when the command exited without an error. */
  function IcmpPing(exitError: bool): (ok: bool)
    ensures ok <==> !exitError
  {
    !exitError
  }

  /** The cast ports, in the order they are probed. */
  const CastPorts: seq<nat> := [8008, 8009, 8443]

  /** A strategy under `withTimeout(...).catch(() => false)`: its value if
      it fulfilled in time, false on timeout or rejection. */
  datatype Timed = InTime(value: bool) | TimedOut | Failed

  function Outcome(t: Timed): bool {
    t.InTime? && t.value
  }

  /** The TCP strategy as written: promiseAny over the probes, each of
      which fulfils (with true or false), so the first port's probe wins. */
  function TcpAnyAsWritten(probes: seq<bool>): (r: bool)
  {
    var settled := seq(|probes|, i requires 0 <= i < |probes| => Fulfilled(probes[i]));
    var first := FirstFulfilled(settled);
    if first.Some? then first.value else false
  }

  /** Since no probe rejects, the strategy reports the first port only. */
  lemma FirstPortOnly(probes: seq<bool>)
    requires probes != []
    ensures TcpAnyAsWritten(probes) == probes[0]
  {
    var settled := seq(|probes|, i requires 0 <= i < |probes| => Fulfilled(probes[i]));
    assert settled[0] == Fulfilled(probes[0]);
  }

  /** A device listening on 8009 and 8443 but not 8008 is not seen by the
      TCP strategy as written. */
  lemma OpenCastPortMissed()
    ensures TcpAnyAsWritten([false, true, true]) == false
  {
    FirstPortOnly([false, true, true]);
  }

  /** The TCP strategy as evidently intended: any cast port accepting a
      connection. */
  function TcpAny(probes: seq<bool>): (r: bool)
    ensures r <==> exists i :: 0 <= i < |probes| && probes[i]
  {
    if probes == [] then false
    else
      assert forall i :: 1 <= i < |probes| ==> probes[i] == probes[1..][i - 1];
      probes[0] || TcpAny(probes[1..])
  }

  /** The intended strategy agrees with the written one whenever the first
      port is open or all are closed, and never reports less. */
  lemma TcpAnyExtendsWritten(probes: seq<bool>)
    requires probes != []
    ensures TcpAnyAsWritten(probes) ==> TcpAny(probes)
    ensures TcpAny(probes) && !TcpAnyAsWritten(probes) ==> !probes[0]
  {
    FirstPortOnly(probes);
  }

  /** The combination step of isChromecastReachable, from the settled
      strategies. */
  function ReachableAsWritten(tcp: Timed, icmp: Timed, mdns: Timed): bool {
    Outcome(tcp) || Outcome(icmp) || Outcome(mdns)
  }

  /** The ping strategy: `Some(exitError)` when the ping command ended
      within its timeout, None when the timeout fired first. */
  function PingStrategy(ping: Option<bool>): Timed {
    if ping.Some? then InTime(IcmpPing(ping.value)) else TimedOut
  }

  /** isChromecastReachable as written: the probes' results (None when the
      TCP strategy did not settle in time), the ping and the mDNS check.
      Only the first port's probe counts, and an empty port list counts as
      a rejection, which the catch turns into false. */
  function ReachableWritten(probes: Option<seq<bool>>, ping: Option<bool>, mdns: Timed): (r: bool)
    ensures r <==>
      (probes.Some? && probes.value != [] && probes.value[0])
      || ping == Some(false) || (mdns.InTime? && mdns.value)
  {
    assert probes.Some? && probes.value != [] ==> TcpAnyAsWritten(probes.value) == probes.value[0] by {
      if probes.Some? && probes.value != [] {
        FirstPortOnly(probes.value);
      }
    }
    var tcp := if probes.Some? then InTime(TcpAnyAsWritten(probes.value)) else TimedOut;
    ReachableAsWritten(tcp, PingStrategy(ping), mdns)
  }

  /** isChromecastReachable with the intended TCP strategy: any cast port
      that accepts in time makes the device reachable. */
  function Reachable(probes: Option<seq<bool>>, ping: Option<bool>, mdns: Timed): (r: bool)
    ensures r <==>
      (probes.Some? && exists i :: 0 <= i < |probes.value| && probes.value[i])
      || ping == Some(false) || (mdns.InTime? && mdns.value)
  {
    var tcp := if probes.Some? then InTime(TcpAny(probes.value)) else TimedOut;
    ReachableAsWritten(tcp, PingStrategy(ping), mdns)
  }

  /** The written check misses a device whose only sign of life is a cast
      port other than 8008; the intended one finds it. */
  lemma OpenCastPortUnreachable()
    ensures !ReachableWritten(Some([false, true, true]), None, TimedOut)
    ensures Reachable(Some([false, true, true]), None, TimedOut)
  {
    assert [false, true, true][1];
  }

  /** A strategy under `withTimeout`: the value it settled on in time, or
      a timeout while it is still pending. */
  function InTimeOr(settled: Option<bool>): Timed {
    if settled.Some? then InTime(settled.value) else TimedOut
  }

  /** isChromecastReachable as written, from what each strategy sees before
      its timeout: the socket events of each port's probe (as `Probe`
      handles them), whether the ping command ended with an error (None
      when it had not ended) and the mDNS events (as `Mdns` handles them).
      `allSettled` waits for every probe, so one pending probe times the
      TCP strategy out. */
  function ReachableOnEvents(probeEvents: seq<seq<SocketEvent>>, ping: Option<bool>, targetIp: string,
                             mdnsEvents: seq<MdnsEvent>): (r: bool)
    ensures r <==>
      ((forall i :: 0 <= i < |probeEvents| ==> TcpSettled(probeEvents[i]).Some?)
       && probeEvents != [] && TcpSettled(probeEvents[0]) == Some(true))
      || ping == Some(false) || MdnsSettled(targetIp, mdnsEvents) == Some(true)
  {
    var settled := seq(|probeEvents|, i requires 0 <= i < |probeEvents| => TcpSettled(probeEvents[i]));
    var probes :=
      if forall i :: 0 <= i < |settled| ==> settled[i].Some?
      then Some(seq(|settled|, i requires 0 <= i < |settled| => settled[i].value))
      else None;
    assert forall i :: 0 <= i < |settled| ==> settled[i] == TcpSettled(probeEvents[i]);
    assert probes.Some? && probes.value != [] ==> probes.value[0] == settled[0].value;
    ReachableWritten(probes, ping, InTimeOr(MdnsSettled(targetIp, mdnsEvents)))
  }

  /** The intended check reports reachable whenever the written one does,
      and the two differ only when port 8008 is closed. */
  lemma ReachableExtendsWritten(probes: Option<seq<bool>>, ping: Option<bool>, mdns: Timed)
    ensures ReachableWritten(probes, ping, mdns) ==> Reachable(probes, ping, mdns)
    ensures Reachable(probes, ping, mdns) && !ReachableWritten(probes, ping, mdns) ==>
      probes.Some? && probes.value != [] && !probes.value[0]
  {
    if probes.Some? && probes.value != [] && probes.value[0] {
      assert 0 < |probes.value| && probes.value[0];
    }
  }

  /** Each strategy alone decides for a positive answer, and a strategy
      that times out or fails counts as a negative one. */
  lemma ReachableIsOr(tcp: Timed, icmp: Timed, mdns: Timed)
    ensures ReachableAsWritten(tcp, icmp, mdns) <==>
      tcp == InTime(true) || icmp == InTime(true) || mdns == InTime(true)
    ensures !tcp.InTime? ==> ReachableAsWritten(tcp, icmp, mdns) == ReachableAsWritten(InTime(false), icmp, mdns)
  {
  }
}
