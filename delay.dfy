/** The delay component: it waits on its delay port for one packet whose
    frame 1 parses as a duration, then forwards every valid packet of its
    input port, unchanged, to its output port, sleeping for that duration
    before each send.  Sleeping is recorded as an action, not timed. */
module Delay {
  import opened Runtime

  /** A `time.Duration`: a count of nanoseconds. */
  type Duration = int

  /** `validateArgs`: all three endpoints are required. */
  function ValidateArgs(inputEndpoint: string, delayEndpoint: string, outputEndpoint: string): (status: Status)
    ensures status == Running <==> inputEndpoint != "" && delayEndpoint != "" && outputEndpoint != ""
    ensures status != Running ==> status == UsageExit(1)
  {
    if inputEndpoint == "" then UsageExit(1)
    else if delayEndpoint == "" then UsageExit(1)
    else if outputEndpoint == "" then UsageExit(1)
    else Running
  }

  // ---------------------------------------------------------------------
  // The configuration gate

  /** A receive on the delay port that ends the gate: no receive error, a
      packet passing both `IsValidIP` and `IsPacket`, and a frame 1 that
      `parseDuration` (`time.ParseDuration`) accepts. */
  predicate Configures(api: Api, parseDuration: Bytes -> Option<Duration>, e: RecvEvent)
    requires api.Sound()
  {
    e.Packet? && api.isValidIP(e.ip) && api.isPacket(e.ip) && parseDuration(e.ip[1]).Some?
  }

  /** The duration the gate settles on: the parse of the first configuring
      receive, or None while the gate is still waiting. */
  function GateDelay(api: Api, parseDuration: Bytes -> Option<Duration>, events: seq<RecvEvent>): (delay: Option<Duration>)
    requires api.Sound()
  {
    if events == [] then None
    else if Configures(api, parseDuration, events[0]) then parseDuration(events[0].ip[1])
    else GateDelay(api, parseDuration, events[1..])
  }

  /** The gate takes the parse of the first configuring receive; receive
      errors, packets failing `IsValidIP` or `IsPacket`, and unparsable
      durations before it are skipped. */
  lemma {:induction false} GateDelayFirst(api: Api, parseDuration: Bytes -> Option<Duration>,
                                          events: seq<RecvEvent>, i: nat)
    requires api.Sound()
    requires i < |events| && Configures(api, parseDuration, events[i])
    requires forall j :: 0 <= j < i ==> !Configures(api, parseDuration, events[j])
    ensures GateDelay(api, parseDuration, events) == parseDuration(events[i].ip[1])
    ensures GateDelay(api, parseDuration, events).Some?
  {
    if i > 0 {
      assert !Configures(api, parseDuration, events[0]);
      GateDelayFirst(api, parseDuration, events[1..], i - 1);
    }
  }

  /** The gate is still waiting exactly when no receive so far configures. */
  lemma {:induction false} GateDelayWaits(api: Api, parseDuration: Bytes -> Option<Duration>, events: seq<RecvEvent>)
    requires api.Sound()
    ensures GateDelay(api, parseDuration, events).None?
        <==> forall j :: 0 <= j < |events| ==> !Configures(api, parseDuration, events[j])
  {
    if events != [] {
      GateDelayWaits(api, parseDuration, events[1..]);
      if !Configures(api, parseDuration, events[0])
         && forall j :: 0 <= j < |events| - 1 ==> !Configures(api, parseDuration, events[1..][j])
      {
        forall j | 0 <= j < |events| ensures !Configures(api, parseDuration, events[j]) {
          if j > 0 {
            assert events[j] == events[1..][j - 1];
          }
        }
      }
    }
  }

  /** Once set, the duration is never updated: what arrives on the delay
      port afterwards does not change it. */
  lemma {:induction false} GateDelaySettled(api: Api, parseDuration: Bytes -> Option<Duration>,
                                            events: seq<RecvEvent>, later: seq<RecvEvent>)
    requires api.Sound()
    requires GateDelay(api, parseDuration, events).Some?
    ensures GateDelay(api, parseDuration, events + later) == GateDelay(api, parseDuration, events)
  {
    assert (events + later)[0] == events[0];
    if !Configures(api, parseDuration, events[0]) {
      assert (events + later)[1..] == events[1..] + later;
      GateDelaySettled(api, parseDuration, events[1..], later);
    }
  }

  /** The configuration gate loop of `main`. */
  method AwaitDelay(api: Api, parseDuration: Bytes -> Option<Duration>, events: seq<RecvEvent>)
    returns (delay: Option<Duration>)
    requires api.Sound()
    ensures delay == GateDelay(api, parseDuration, events)
  {
    delay := None;
    for i := 0 to |events|
      invariant GateDelay(api, parseDuration, events) == GateDelay(api, parseDuration, events[i..])
    {
      assert events[i..][1..] == events[i + 1..];
      var e := events[i];
      if e.RecvErr? {
        continue;
      }
      if !api.isValidIP(e.ip) || !api.isPacket(e.ip) {
        continue;
      }
      var parsed := parseDuration(e.ip[1]);
      if parsed.None? {
        continue;
      }
      delay := parsed;
      break;
    }
  }

  // ---------------------------------------------------------------------
  // The forward loop

  /** What the forward loop does, in order. */
  datatype Action = Sleep(d: Duration) | Send(ip: IP)

  /** For each valid input in order: sleep for `d`, then send it as it is. */
  function Relay(d: Duration, ips: seq<IP>): seq<Action> {
    if ips == [] then [] else Relay(d, ips[..|ips| - 1]) + [Sleep(d), Send(ips[|ips| - 1])]
  }

  lemma RelaySnoc(d: Duration, ips: seq<IP>, ip: IP)
    ensures Relay(d, ips + [ip]) == Relay(d, ips) + [Sleep(d), Send(ip)]
  {
    assert (ips + [ip])[..|ips|] == ips;
  }

  /** The k-th valid input is sent at position 2k+1, right after a sleep of
      the configured duration, and nothing else is sent in between: sends
      never interleave and never overtake one another. */
  lemma {:induction false} RelayAt(d: Duration, ips: seq<IP>)
    ensures |Relay(d, ips)| == 2 * |ips|
    ensures forall k :: 0 <= k < |ips| ==> Relay(d, ips)[2 * k] == Sleep(d) && Relay(d, ips)[2 * k + 1] == Send(ips[k])
  {
    if ips != [] {
      RelayAt(d, ips[..|ips| - 1]);
    }
  }

  /** The packets a trace sends, in order. */
  function Sent(trace: seq<Action>): seq<IP> {
    if trace == [] then []
    else Sent(trace[..|trace| - 1]) + (if trace[|trace| - 1].Send? then [trace[|trace| - 1].ip] else [])
  }

  lemma {:induction false} SentAppend(a: seq<Action>, b: seq<Action>)
    ensures Sent(a + b) == Sent(a) + Sent(b)
  {
    if b == [] {
      assert a + b == a;
    } else {
      assert (a + b)[..|a + b| - 1] == a + b[..|b| - 1];
      SentAppend(a, b[..|b| - 1]);
    }
  }

  /** The output sequence is the valid inputs, unchanged and in receipt
      order. */
  lemma {:induction false} SentRelay(d: Duration, ips: seq<IP>)
    ensures Sent(Relay(d, ips)) == ips
  {
    if ips != [] {
      var init := ips[..|ips| - 1];
      SentRelay(d, init);
      SentAppend(Relay(d, init), [Sleep(d), Send(ips[|ips| - 1])]);
      assert Sent([Sleep(d), Send(ips[|ips| - 1])]) == [ips[|ips| - 1]] by {
        assert [Sleep(d), Send(ips[|ips| - 1])][..1] == [Sleep(d)];
        assert Sent([Sleep(d)]) == Sent([]) + [];
      }
      assert ips == init + [ips[|ips| - 1]];
    }
  }

  /** Every sleep in the forward loop lasts the configured duration. */
  lemma {:induction false} RelaySleeps(d: Duration, ips: seq<IP>)
    ensures forall a | a in Relay(d, ips) :: a.Sleep? ==> a.d == d
  {
    if ips != [] {
      RelaySleeps(d, ips[..|ips| - 1]);
    }
  }

  /** The forward loop of `main`: receive errors and invalid packets are
      skipped; every valid packet is forwarded after a sleep of `delay`. */
  method Forward(api: Api, delay: Duration, events: seq<RecvEvent>) returns (trace: seq<Action>)
    ensures trace == Relay(delay, ValidInputs(api, events))
  {
    trace := [];
    ghost var valid: seq<IP> := [];
    for i := 0 to |events|
      invariant valid == ValidPrefix(api, events, i)
      invariant trace == Relay(delay, valid)
    {
      var e := events[i];
      if e.RecvErr? {
        continue;
      }
      if !api.isValidIP(e.ip) {
        continue;
      }
      RelaySnoc(delay, valid, e.ip);
      valid := valid + [e.ip];
      trace := trace + [Sleep(delay)];
      trace := trace + [Send(e.ip)];
    }
  }

  /** `main` after flag parsing: the argument check, the gate on the delay
      port, then the forward loop on the input port.  Nothing is read from
      the input port, and nothing sent, before the gate has a duration. */
  method Run(api: Api, parseDuration: Bytes -> Option<Duration>,
             inputEndpoint: string, delayEndpoint: string, outputEndpoint: string,
             delayEvents: seq<RecvEvent>, inEvents: seq<RecvEvent>)
    returns (status: Status, configured: Option<Duration>, trace: seq<Action>)
    requires api.Sound()
    ensures status == ValidateArgs(inputEndpoint, delayEndpoint, outputEndpoint)
    ensures status == Running ==> configured == GateDelay(api, parseDuration, delayEvents)
    ensures status != Running || configured.None? ==> trace == []
    ensures status == Running && configured.Some? ==> trace == Relay(configured.value, ValidInputs(api, inEvents))
  {
    configured, trace := None, [];
    status := ValidateArgs(inputEndpoint, delayEndpoint, outputEndpoint);
    if status != Running {
      return;
    }
    configured := AwaitDelay(api, parseDuration, delayEvents);
    if configured.None? {
      return;
    }
    trace := Forward(api, configured.value, inEvents);
  }
}
