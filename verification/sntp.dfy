// The SNTP client as an event machine: its callbacks over pending timers and DNS queries,
// and what holds in every run between a successful init and a stop.
module Sntp {
  const RECV_TIMEOUT := 3000
  const RETRY_TIMEOUT := RECV_TIMEOUT
  const RETRY_TIMEOUT_MAX := RETRY_TIMEOUT * 10
  const UPDATE_DELAY := 3600000
  const MSG_LEN := 48
  const MODE_SERVER := 4
  const MODE_BROADCAST := 5
  const STRATUM_KOD := 0
  const DIFF_SEC_1900_1970 := 2208988800

  // ----- the environment

  /** What dns_gethostbyname returns. */
  datatype Dns = InProgress | Resolved | Failed

  /** The parts of a received packet that are looked at; `seconds` is its receive timestamp. */
  datatype Packet = Packet(length: nat, liVnMode: nat, stratum: nat, seconds: nat)

  datatype Verdict = Valid | KissOfDeath | Invalid

  function Classify(p: Packet): Verdict {
    if p.length != MSG_LEN then Invalid
    else if p.liVnMode % 8 != MODE_SERVER && p.liVnMode % 8 != MODE_BROADCAST then Invalid
    else if p.stratum == STRATUM_KOD then KissOfDeath
    else Valid
  }

  /** Events.  `memory` says whether a packet buffer can be allocated; a receive also says how
      many pending timers of each kind its two sys_untimeout calls remove. */
  datatype Event =
    | RequestTimer(dns: Dns, memory: bool)
    | RetryTimer
    | DnsAnswer(found: bool, memory: bool)
    | Receive(packet: Packet, requestsCut: nat, retriesCut: nat)
    | Tick

  // ----- the state and its steps

  /** A pending call of sntp_request or of sntp_retry, with the delay it was armed with. */
  datatype Armed = Request(delay: nat) | Retry(delay: nat)

  /** `requests` and `retries` count pending timers and `queries` outstanding DNS queries;
      `log` lists every sys_timeout call in order, and `sent` counts the packets sent. */
  datatype State = State(retryTimeout: nat, time: int, ticking: bool,
                         requests: nat, retries: nat, queries: nat, log: seq<Armed>, sent: nat) {
    function Pending(): nat { requests + retries + queries }
  }

  /** One more pending timer. */
  function Arm(s: State, a: Armed): State {
    if a.Request? then s.(requests := s.requests + 1, log := s.log + [a])
    else s.(retries := s.retries + 1, log := s.log + [a])
  }

  /** The 32-bit `<< 1`, kept only while it grows and stays within the maximum. */
  function Doubled(t: nat): nat {
    var next := t * 2 % 0x1_0000_0000;
    if next <= RETRY_TIMEOUT_MAX && next > t then next else t
  }

  function AfterRetry(s: State): State {
    Arm(s, Request(s.retryTimeout)).(retryTimeout := Doubled(s.retryTimeout))
  }

  function AfterSend(s: State, memory: bool): State {
    if memory then Arm(s, Retry(RECV_TIMEOUT)).(sent := s.sent + 1) else Arm(s, Request(RETRY_TIMEOUT))
  }

  function AfterRequest(s: State, dns: Dns, memory: bool): State {
    match dns
    case InProgress => s.(queries := s.queries + 1)
    case Resolved => AfterSend(s, memory)
    case Failed => Arm(s, Retry(RETRY_TIMEOUT))
  }

  /** A 32-bit time_t. */
  function Time32(v: int): int {
    (v + 0x8000_0000) % 0x1_0000_0000 - 0x8000_0000
  }

  /** sys_untimeout removes at least one matching timer when there is one. */
  predicate Cuts(pending: nat, cut: nat) {
    cut <= pending && (pending > 0 ==> cut > 0)
  }

  predicate Enabled(s: State, e: Event) {
    match e
    case RequestTimer(_, _) => s.requests > 0
    case RetryTimer => s.retries > 0
    case DnsAnswer(_, _) => s.queries > 0
    case Receive(_, requestsCut, retriesCut) => Cuts(s.requests, requestsCut) && Cuts(s.retries, retriesCut)
    case Tick => s.ticking
  }

  function Step(s: State, e: Event): State
    requires Enabled(s, e)
  {
    match e
    case RequestTimer(dns, memory) => AfterRequest(s.(requests := s.requests - 1), dns, memory)
    case RetryTimer => AfterRetry(s.(retries := s.retries - 1))
    case DnsAnswer(found, memory) =>
      var s' := s.(queries := s.queries - 1);
      if found then AfterSend(s', memory) else AfterRetry(s')
    case Receive(p, requestsCut, retriesCut) =>
      var s' := s.(requests := s.requests - requestsCut, retries := s.retries - retriesCut);
      if Classify(p) == Valid then
        Arm(s'.(retryTimeout := RETRY_TIMEOUT, time := Time32(p.seconds - DIFF_SEC_1900_1970), ticking := true),
            Request(UPDATE_DELAY))
      else AfterRetry(s')
    case Tick => s.(time := Time32(s.time + 1))
  }

  const IDLE := State(RETRY_TIMEOUT, 0, false, 0, 0, 0, [], 0)

  /** The state left by a successful sntp_init. */
  function Started(dns: Dns, memory: bool): State {
    AfterRequest(IDLE, dns, memory)
  }

  // ----- the callbacks

  class Client {
    var retryTimeout: nat
    var time: int
    var ticking: bool
    var bound: bool
    var requests: nat
    var retries: nat
    var queries: nat
    var log: seq<Armed>
    var sent: nat

    ghost function Model(): State
      reads this
    {
      State(retryTimeout, time, ticking, requests, retries, queries, log, sent)
    }

    constructor ()
      ensures Model() == IDLE.(retryTimeout := 0) && !bound
    {
      retryTimeout, time, ticking, bound := 0, 0, false, false;
      requests, retries, queries, log, sent := 0, 0, 0, [], 0;
    }

    method SysTimeout(a: Armed)
      modifies this`requests, this`retries, this`log
      ensures Model() == Arm(old(Model()), a)
    {
      if a.Request? { requests := requests + 1; } else { retries := retries + 1; }
      log := log + [a];
    }

    /** sntp_init: nothing happens when the client is already running; without a socket only
        the retry timeout is reset. */
    method Init(socketOk: bool, dns: Dns, memory: bool)
      modifies this
      ensures old(bound) ==> bound && Model() == old(Model())
      ensures !old(bound) ==> bound == socketOk
      ensures !old(bound) && !socketOk ==> Model() == old(Model()).(retryTimeout := RETRY_TIMEOUT)
      ensures !old(bound) && socketOk ==>
                Model() == AfterRequest(old(Model()).(retryTimeout := RETRY_TIMEOUT), dns, memory)
    {
      if !bound {
        retryTimeout := RETRY_TIMEOUT;
        bound := socketOk;
        if bound { SntpRequest(dns, memory); }
      }
    }

    method SntpRequest(dns: Dns, memory: bool)
      modifies this`requests, this`retries, this`log, this`queries, this`sent
      ensures Model() == AfterRequest(old(Model()), dns, memory)
    {
      if dns == InProgress {
        queries := queries + 1;
        return;
      }
      if dns == Resolved {
        SntpSendRequest(memory);
      } else {
        SysTimeout(Retry(RETRY_TIMEOUT));
      }
    }

    method SntpSendRequest(memory: bool)
      modifies this`requests, this`retries, this`log, this`sent
      ensures Model() == AfterSend(old(Model()), memory)
    {
      if memory {
        sent := sent + 1;
        SysTimeout(Retry(RECV_TIMEOUT));
      } else {
        SysTimeout(Request(RETRY_TIMEOUT));
      }
    }

    method SntpRetry()
      modifies this`requests, this`retries, this`log, this`retryTimeout
      ensures Model() == AfterRetry(old(Model()))
    {
      SysTimeout(Request(retryTimeout));
      var newRetryTimeout := retryTimeout * 2 % 0x1_0000_0000;
      if newRetryTimeout <= RETRY_TIMEOUT_MAX && newRetryTimeout > retryTimeout {
        retryTimeout := newRetryTimeout;
      }
    }

    method OnRequestTimer(dns: Dns, memory: bool)
      requires Enabled(Model(), RequestTimer(dns, memory))
      modifies this
      ensures Model() == Step(old(Model()), RequestTimer(dns, memory)) && bound == old(bound)
    {
      requests := requests - 1;
      SntpRequest(dns, memory);
    }

    method OnRetryTimer()
      requires Enabled(Model(), RetryTimer)
      modifies this
      ensures Model() == Step(old(Model()), RetryTimer) && bound == old(bound)
    {
      retries := retries - 1;
      SntpRetry();
    }

    method SntpDnsFound(found: bool, memory: bool)
      requires Enabled(Model(), DnsAnswer(found, memory))
      modifies this
      ensures Model() == Step(old(Model()), DnsAnswer(found, memory)) && bound == old(bound)
    {
      queries := queries - 1;
      if found {
        SntpSendRequest(memory);
      } else {
        SntpRetry();
      }
    }

    method SntpRecv(p: Packet, requestsCut: nat, retriesCut: nat)
      requires Enabled(Model(), Receive(p, requestsCut, retriesCut))
      modifies this
      ensures Model() == Step(old(Model()), Receive(p, requestsCut, retriesCut)) && bound == old(bound)
    {
      retries := retries - retriesCut;
      requests := requests - requestsCut;
      var err := Invalid;
      if p.length == MSG_LEN {
        var mode := p.liVnMode % 8;
        if mode == MODE_SERVER || mode == MODE_BROADCAST {
          if p.stratum == STRATUM_KOD {
            err := KissOfDeath;
          } else {
            err := Valid;
          }
        }
      }
      if err == Valid {
        retryTimeout := RETRY_TIMEOUT;
        time := Time32(p.seconds - DIFF_SEC_1900_1970);
        ticking := true;
        SysTimeout(Request(UPDATE_DELAY));
      } else {
        SntpRetry();
      }
    }

    method NtpTimeUpdate()
      requires Enabled(Model(), Tick)
      modifies this`time
      ensures Model() == Step(old(Model()), Tick)
    {
      time := Time32(time + 1);
    }
  }

  // ----- runs

  /** Each event is possible where it happens. */
  predicate Possible(s: State, es: seq<Event>)
    decreases es
  {
    es == [] || (Enabled(s, es[0]) && Possible(Step(s, es[0]), es[1..]))
  }

  function Run(s: State, es: seq<Event>): State
    requires Possible(s, es)
    decreases es
  {
    if es == [] then s else Run(Step(s, es[0]), es[1..])
  }

  /** Timer and DNS events pass one obligation on; receiving always leaves at least one. */
  lemma StepConserves(s: State, e: Event)
    requires Enabled(s, e)
    ensures !e.Receive? ==> Step(s, e).Pending() == s.Pending()
    ensures e.Receive? ==> Step(s, e).Pending() >= 1
    ensures e.Receive? && s.Pending() >= 1 ==> Step(s, e).Pending() <= s.Pending() + if s.queries > 0 then 1 else 0
  {
  }

  /** The client never falls silent: something is always pending that will make it act. */
  lemma {:induction false} NeverSilent(s: State, es: seq<Event>)
    requires s.Pending() >= 1 && Possible(s, es)
    ensures Run(s, es).Pending() >= 1
    decreases es
  {
    if es != [] {
      StepConserves(s, es[0]);
      NeverSilent(Step(s, es[0]), es[1..]);
    }
  }

  lemma StartsWithOne(dns: Dns, memory: bool)
    ensures Started(dns, memory).Pending() == 1 && Started(dns, memory).retryTimeout == 3000
    ensures Started(dns, memory).log == Arms(0, RequestTimer(dns, memory))
    ensures Started(dns, memory).time == 0 && !Started(dns, memory).ticking
  {
  }

  // ----- exactly one chain of requests

  predicate AlwaysOne(s: State, es: seq<Event>)
    requires Possible(s, es)
    decreases es
  {
    s.Pending() == 1 && (es == [] || AlwaysOne(Step(s, es[0]), es[1..]))
  }

  /** Packets that arrive while a DNS query is outstanding. */
  function EarlyPackets(s: State, es: seq<Event>): nat
    requires Possible(s, es)
    decreases es
  {
    if es == [] then 0
    else (if es[0].Receive? && s.queries > 0 then 1 else 0) + EarlyPackets(Step(s, es[0]), es[1..])
  }

  /** There is exactly one pending obligation throughout a run if and only if no packet arrives
      while a DNS query is outstanding. */
  lemma {:induction false} OneChainExactly(s: State, es: seq<Event>)
    requires s.Pending() == 1 && Possible(s, es)
    ensures AlwaysOne(s, es) <==> EarlyPackets(s, es) == 0
    decreases es
  {
    if es != [] {
      var t := Step(s, es[0]);
      if t.Pending() == 1 {
        OneChainExactly(t, es[1..]);
      }
    }
  }

  /** A packet that arrives while the first query is outstanding starts a second chain. */
  lemma SecondChain()
    ensures var s, es := Started(InProgress, true), [Receive(Packet(48, 4, 1, 0), 0, 0)];
            Possible(s, es) && EarlyPackets(s, es) == 1 && Run(s, es).Pending() == 2
  {
    var s, e := Started(InProgress, true), Receive(Packet(48, 4, 1, 0), 0, 0);
    assert [e][1..] == [];
    assert Possible(Step(s, e), []);
  }

  /** Each such packet can add at most one more chain. */
  lemma {:induction false} ChainsAreBounded(s: State, es: seq<Event>)
    requires s.Pending() >= 1 && Possible(s, es)
    ensures Run(s, es).Pending() <= s.Pending() + EarlyPackets(s, es)
    decreases es
  {
    if es != [] {
      StepConserves(s, es[0]);
      ChainsAreBounded(Step(s, es[0]), es[1..]);
    }
  }

  // ----- the retry timeout

  /** A packet of the right length, in server or broadcast mode, that is no kiss of death. */
  predicate Usable(p: Packet) {
    p.length == 48 && (p.liVnMode % 8 == 4 || p.liVnMode % 8 == 5) && p.stratum != 0
  }

  /** The client takes exactly the usable packets as valid. */
  lemma ClassifiesExactly(p: Packet)
    ensures Classify(p) == Valid <==> Usable(p)
    ensures Classify(p) == KissOfDeath <==>
              p.length == 48 && (p.liVnMode % 8 == 4 || p.liVnMode % 8 == 5) && p.stratum == 0
  {
  }

  /** The events that call sntp_retry. */
  predicate Retries(e: Event) {
    || e.RetryTimer?
    || (e.DnsAnswer? && !e.found)
    || (e.Receive? && !Usable(e.packet))
  }

  predicate ValidReply(e: Event) {
    e.Receive? && Usable(e.packet)
  }

  /** Retries since the last valid reply, starting from n. */
  function RetriesSince(n: nat, es: seq<Event>): nat
    decreases es
  {
    if es == [] then n
    else if ValidReply(es[0]) then RetriesSince(0, es[1..])
    else if Retries(es[0]) then RetriesSince(n + 1, es[1..])
    else RetriesSince(n, es[1..])
  }

  function Backoff(n: nat): nat {
    if n == 0 then RETRY_TIMEOUT else if n == 1 then 6000 else if n == 2 then 12000 else 24000
  }

  /** The timeout doubles with each retry up to 3000 * 2^3 and starts over at a valid reply:
      it depends only on the number of retries since then. */
  lemma {:induction false} TimeoutIsBackoff(s: State, n: nat, es: seq<Event>)
    requires s.retryTimeout == Backoff(n) && Possible(s, es)
    ensures Run(s, es).retryTimeout == Backoff(RetriesSince(n, es))
    decreases es
  {
    if es != [] {
      var e := es[0];
      var m := if ValidReply(e) then 0 else if Retries(e) then n + 1 else n;
      assert Step(s, e).retryTimeout == Backoff(m);
      TimeoutIsBackoff(Step(s, e), m, es[1..]);
    }
  }

  // ----- the timers that are armed

  /** The timer armed when a request can be sent: wait for the reply, or try again to send. */
  function SendArms(memory: bool): seq<Armed> {
    if memory then [Retry(3000)] else [Request(3000)]
  }

  /** The timers an event arms, n retries after the last valid reply. */
  function Arms(n: nat, e: Event): seq<Armed> {
    match e
    case RequestTimer(dns, memory) =>
      if dns == InProgress then [] else if dns == Resolved then SendArms(memory) else [Retry(3000)]
    case RetryTimer => [Request(Backoff(n))]
    case DnsAnswer(found, memory) => if found then SendArms(memory) else [Request(Backoff(n))]
    case Receive(p, _, _) => if Usable(p) then [Request(3600000)] else [Request(Backoff(n))]
    case Tick => []
  }

  /** All timers armed in a run, from the events alone. */
  function AllArmed(n: nat, es: seq<Event>): seq<Armed>
    decreases es
  {
    if es == [] then []
    else Arms(n, es[0]) + AllArmed(RetriesSince(n, [es[0]]), es[1..])
  }

  lemma StepArms(s: State, n: nat, e: Event)
    requires Enabled(s, e) && s.retryTimeout == Backoff(n)
    ensures Step(s, e).log == s.log + Arms(n, e)
    ensures Step(s, e).retryTimeout == Backoff(RetriesSince(n, [e]))
  {
    assert [e][1..] == [];
    if e.Receive? { ClassifiesExactly(e.packet); }
  }

  function Count(armed: seq<Armed>, request: bool): nat {
    if armed == [] then 0 else (if armed[0].Request? == request then 1 else 0) + Count(armed[1..], request)
  }

  /** Pending timers of each kind: less the one that fired or those that were cancelled, plus
      those armed; and queries: one more for a lookup in progress, one less for its answer. */
  lemma StepCounts(s: State, n: nat, e: Event)
    requires Enabled(s, e) && s.retryTimeout == Backoff(n)
    ensures Step(s, e).requests
         == s.requests - (if e.RequestTimer? then 1 else if e.Receive? then e.requestsCut else 0)
            + Count(Arms(n, e), true)
    ensures Step(s, e).retries
         == s.retries - (if e.RetryTimer? then 1 else if e.Receive? then e.retriesCut else 0) + Count(Arms(n, e), false)
    ensures Step(s, e).queries
         == s.queries + if e.RequestTimer? && e.dns == InProgress then 1 else if e.DnsAnswer? then -1 else 0
  {
    if e.Receive? { ClassifiesExactly(e.packet); }
  }

  /** The events that send a request: the server's address is known and there is memory. */
  predicate Sends(e: Event) {
    || (e.RequestTimer? && e.dns == Resolved && e.memory)
    || (e.DnsAnswer? && e.found && e.memory)
  }

  function AllSent(es: seq<Event>): nat {
    if es == [] then 0 else (if Sends(es[0]) then 1 else 0) + AllSent(es[1..])
  }

  /** Exactly one packet is sent at each such event, and none otherwise. */
  lemma {:induction false} PacketsSent(s: State, es: seq<Event>)
    requires Possible(s, es)
    ensures Run(s, es).sent == s.sent + AllSent(es)
    decreases es
  {
    if es != [] { PacketsSent(Step(s, es[0]), es[1..]); }
  }

  /** In every run each retry waits as long as the retries since the last valid reply demand,
      each request that is sent is watched for 3 seconds, and each valid reply is followed by
      an update an hour later; nothing else is armed. */
  lemma {:induction false} TimersArmed(s: State, n: nat, es: seq<Event>)
    requires s.retryTimeout == Backoff(n) && Possible(s, es)
    ensures Run(s, es).log == s.log + AllArmed(n, es)
    decreases es
  {
    if es != [] {
      var m := RetriesSince(n, [es[0]]);
      StepArms(s, n, es[0]);
      TimersArmed(Step(s, es[0]), m, es[1..]);
      Regroup(s.log, Arms(n, es[0]), AllArmed(m, es[1..]));
    }
  }

  lemma Regroup(a: seq<Armed>, b: seq<Armed>, c: seq<Armed>)
    ensures a + b + c == a + (b + c)
  {
  }

  // ----- the clock

  /** The clock ticks exactly when it did before or a valid reply has set it. */
  lemma {:induction false} TicksOnceSet(s: State, es: seq<Event>)
    requires Possible(s, es)
    ensures Run(s, es).ticking <==> s.ticking || exists i :: 0 <= i < |es| && ValidReply(es[i])
    decreases es
  {
    if es != [] {
      var e, rest := es[0], es[1..];
      assert es == [e] + rest;
      if e.Receive? { ClassifiesExactly(e.packet); }
      TicksOnceSet(Step(s, e), rest);
      if j :| 0 <= j < |rest| && ValidReply(rest[j]) { assert ValidReply(es[j + 1]); }
      if i :| 0 <= i < |es| && ValidReply(es[i]) { assert i == 0 || ValidReply(rest[i - 1]); }
    }
  }

  /** A valid reply sets the clock to its Unix time, in 32 bits. */
  lemma ReplySetsClock(s: State, e: Event)
    requires Enabled(s, e) && ValidReply(e)
    ensures (Step(s, e).time - (e.packet.seconds - 2208988800)) % 4294967296 == 0
    ensures -2147483648 <= Step(s, e).time < 2147483648
  {
    ClassifiesExactly(e.packet);
  }

  function TicksSince(n: nat, es: seq<Event>): nat
    decreases es
  {
    if es == [] then n
    else if ValidReply(es[0]) then TicksSince(0, es[1..])
    else if es[0].Tick? then TicksSince(n + 1, es[1..])
    else TicksSince(n, es[1..])
  }

  /** The timestamp of the last valid reply in a run, or t when there is none. */
  function LastReply(t: int, es: seq<Event>): int
    decreases es
  {
    if es == [] then t
    else LastReply(if ValidReply(es[0]) then es[0].packet.seconds else t, es[1..])
  }

  /** The clock shows the last server time, moved to the Unix epoch, plus the seconds ticked
      since, in 32-bit arithmetic. */
  lemma {:induction false} ClockFollowsReplies(s: State, t: int, n: nat, es: seq<Event>)
    requires Possible(s, es) && s.time == Time32(t - DIFF_SEC_1900_1970 + n)
    ensures Run(s, es).time == Time32(LastReply(t, es) - DIFF_SEC_1900_1970 + TicksSince(n, es))
    decreases es
  {
    if es != [] {
      var e := es[0];
      var t' := if ValidReply(e) then e.packet.seconds else t;
      var n' := if ValidReply(e) then 0 else if e.Tick? then n + 1 else n;
      assert Step(s, e).time == Time32(t' - DIFF_SEC_1900_1970 + n');
      ClockFollowsReplies(Step(s, e), t', n', es[1..]);
    }
  }

  /** All of it for runs that start with a successful sntp_init; until the first valid reply the
      clock's base is 1970. */
  lemma EveryRun(dns: Dns, memory: bool, es: seq<Event>)
    requires Possible(Started(dns, memory), es)
    ensures var s := Started(dns, memory);
            && Run(s, es).Pending() >= 1
            && (AlwaysOne(s, es) <==> EarlyPackets(s, es) == 0)
            && Run(s, es).Pending() <= 1 + EarlyPackets(s, es)
            && Run(s, es).retryTimeout == Backoff(RetriesSince(0, es))
            && Run(s, es).sent == (if dns == Resolved && memory then 1 else 0) + AllSent(es)
            && Run(s, es).log == Arms(0, RequestTimer(dns, memory)) + AllArmed(0, es)
            && Run(s, es).time == Time32(LastReply(DIFF_SEC_1900_1970, es) - DIFF_SEC_1900_1970 + TicksSince(0, es))
  {
    var s := Started(dns, memory);
    StartsWithOne(dns, memory);
    NeverSilent(s, es);
    OneChainExactly(s, es);
    ChainsAreBounded(s, es);
    TimeoutIsBackoff(s, 0, es);
    TimersArmed(s, 0, es);
    PacketsSent(s, es);
    ClockFollowsReplies(s, DIFF_SEC_1900_1970, 0, es);
  }
}
