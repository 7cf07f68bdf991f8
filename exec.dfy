/** The exec component: every valid packet on its command port is run as a
    command.  The command's output, with its newlines removed, goes to
    the optional out port; the error text of a failed command goes to the
    optional err port.  The command runner itself is a parameter. */
module Exec {
  import opened Runtime

  const Newline: Byte := 10

  /** `validateArgs`: only the command endpoint is required; the out and err
      endpoints may be empty. */
  function ValidateArgs(cmdEndpoint: string, outputEndpoint: string, errorEndpoint: string): (status: Status)
    ensures status == Running <==> cmdEndpoint != ""
    ensures status != Running ==> status == UsageExit(1)
  {
    if cmdEndpoint == "" then UsageExit(1) else Running
  }

  /** The ports `openPorts` leaves behind, each named by its endpoint; an
      absent output port is Go's nil socket. */
  datatype Ports = Ports(cmd: string, out: Option<string>, err: Option<string>)

  /** `openPorts`: an output port exists exactly when its endpoint was given. */
  function OpenPorts(cmdEndpoint: string, outputEndpoint: string, errorEndpoint: string): (ports: Ports)
    ensures ports.cmd == cmdEndpoint
    ensures ports.out.Some? <==> outputEndpoint != ""
    ensures ports.out.Some? ==> ports.out.value == outputEndpoint
    ensures ports.err.Some? <==> errorEndpoint != ""
    ensures ports.err.Some? ==> ports.err.value == errorEndpoint
  {
    Ports(cmdEndpoint,
          if outputEndpoint != "" then Some(outputEndpoint) else None,
          if errorEndpoint != "" then Some(errorEndpoint) else None)
  }

  // ---------------------------------------------------------------------
  // Newline removal: bytes.Replace(out, "\n", "", -1)

  function StripNewlines(s: Bytes): (r: Bytes)
    ensures Newline !in r
    ensures |r| <= |s|
  {
    if s == [] then [] else (if s[0] == Newline then [] else [s[0]]) + StripNewlines(s[1..])
  }

  /** Removal works piecewise: together with its effect on a single byte,
      this says that the other bytes are kept, in their order. */
  lemma {:induction false} StripNewlinesAppend(a: Bytes, b: Bytes)
    ensures StripNewlines(a + b) == StripNewlines(a) + StripNewlines(b)
  {
    if a != [] {
      assert (a + b)[0] == a[0] && (a + b)[1..] == a[1..] + b;
      StripNewlinesAppend(a[1..], b);
    } else {
      assert a + b == b;
    }
  }

  /** Text without newlines is left as it is. */
  lemma {:induction false} StripNewlinesKeeps(s: Bytes)
    requires Newline !in s
    ensures StripNewlines(s) == s
  {
    if s != [] {
      StripNewlinesKeeps(s[1..]);
    }
  }

  /** Removing newlines twice is removing them once. */
  lemma StripNewlinesIdempotent(s: Bytes)
    ensures StripNewlines(StripNewlines(s)) == StripNewlines(s)
  {
    StripNewlinesKeeps(StripNewlines(s));
  }

  /** Every newline goes and every other byte stays, as often as it occurs. */
  lemma {:induction false} StripNewlinesCounts(s: Bytes)
    ensures forall b :: multiset(StripNewlines(s))[b] == if b == Newline then 0 else multiset(s)[b]
  {
    if s != [] {
      var head := if s[0] == Newline then [] else [s[0]];
      StripNewlinesCounts(s[1..]);
      assert s == [s[0]] + s[1..];
      assert multiset(s) == multiset([s[0]]) + multiset(s[1..]);
      assert multiset(StripNewlines(s)) == multiset(head) + multiset(StripNewlines(s[1..]));
    }
  }

  // ---------------------------------------------------------------------
  // The receive / execute / route loop

  /** What is sent, and on which port. */
  datatype Send = ToOut(ip: IP) | ToErr(ip: IP)

  /** The sends for one executed command: the error text on the err port,
      or the output without newlines on the out port, each only when the
      port exists. */
  function Respond(api: Api, ports: Ports, result: Result<Bytes, Bytes>): (sends: seq<Send>)
    ensures |sends| <= 1
    ensures forall s | s in sends :: s.ToErr? <==> result.Err?
    ensures result.Err? ==> (sends != [] <==> ports.err.Some?)
    ensures result.Ok? ==> (sends != [] <==> ports.out.Some?)
    ensures forall s | s in sends :: s.ToOut? ==> s.ip == api.newPacket(StripNewlines(result.value))
    ensures forall s | s in sends :: s.ToErr? ==> s.ip == api.newPacket(result.error)
  {
    match result
    case Err(text) => if ports.err.Some? then [ToErr(api.newPacket(text))] else []
    case Ok(out) => if ports.out.Some? then [ToOut(api.newPacket(StripNewlines(out)))] else []
  }

  /** The sends for the valid inputs `ips`, in order, where `execute` is the
      command runner (`executeCommand`). */
  function Responses(api: Api, ports: Ports, execute: Bytes -> Result<Bytes, Bytes>, ips: seq<IP>): seq<Send>
    requires HasPayload(ips)
  {
    if ips == [] then []
    else Responses(api, ports, execute, ips[..|ips| - 1]) + Respond(api, ports, execute(ips[|ips| - 1][1]))
  }

  lemma ResponsesSnoc(api: Api, ports: Ports, execute: Bytes -> Result<Bytes, Bytes>, ips: seq<IP>, ip: IP)
    requires HasPayload(ips) && |ip| >= 2
    ensures HasPayload(ips + [ip])
    ensures Responses(api, ports, execute, ips + [ip])
         == Responses(api, ports, execute, ips) + Respond(api, ports, execute(ip[1]))
  {
    assert (ips + [ip])[..|ips|] == ips;
  }

  /** At most one send per valid input; exactly one when both output ports
      exist. */
  lemma {:induction false} ResponsesCount(api: Api, ports: Ports, execute: Bytes -> Result<Bytes, Bytes>, ips: seq<IP>)
    requires HasPayload(ips)
    ensures |Responses(api, ports, execute, ips)| <= |ips|
    ensures ports.out.Some? && ports.err.Some? ==> |Responses(api, ports, execute, ips)| == |ips|
  {
    if ips != [] {
      ResponsesCount(api, ports, execute, ips[..|ips| - 1]);
    }
  }

  /** Every send answers one valid input: it is what `Respond` makes of that
      input's command result. */
  lemma {:induction false} ResponsesOrigin(api: Api, ports: Ports, execute: Bytes -> Result<Bytes, Bytes>,
                                           ips: seq<IP>, s: Send)
    requires HasPayload(ips)
    requires s in Responses(api, ports, execute, ips)
    ensures exists k :: 0 <= k < |ips| && s in Respond(api, ports, execute(ips[k][1]))
  {
    var n := |ips| - 1;
    if s in Responses(api, ports, execute, ips[..n]) {
      ResponsesOrigin(api, ports, execute, ips[..n], s);
      var k :| 0 <= k < n && s in Respond(api, ports, execute(ips[..n][k][1]));
      assert ips[..n][k] == ips[k];
    } else {
      assert s in Respond(api, ports, execute(ips[n][1]));
    }
  }

  /** With neither output port, no command result is ever sent. */
  lemma {:induction false} ResponsesSilent(api: Api, ports: Ports, execute: Bytes -> Result<Bytes, Bytes>, ips: seq<IP>)
    requires HasPayload(ips)
    requires ports.out.None? && ports.err.None?
    ensures Responses(api, ports, execute, ips) == []
  {
    if ips != [] {
      ResponsesSilent(api, ports, execute, ips[..|ips| - 1]);
    }
  }

  /** The receive loop of `main`: receive errors and invalid packets are
      skipped; every valid packet's command is run and its result routed. */
  method Serve(api: Api, ports: Ports, execute: Bytes -> Result<Bytes, Bytes>, events: seq<RecvEvent>)
    returns (sends: seq<Send>)
    requires api.Sound()
    ensures HasPayload(ValidInputs(api, events))
    ensures sends == Responses(api, ports, execute, ValidInputs(api, events))
  {
    sends := [];
    ghost var valid: seq<IP> := [];
    for i := 0 to |events|
      invariant valid == ValidPrefix(api, events, i)
      invariant HasPayload(valid)
      invariant sends == Responses(api, ports, execute, valid)
    {
      var e := events[i];
      if e.RecvErr? {
        continue;
      }
      if !api.isValidIP(e.ip) {
        continue;
      }
      ResponsesSnoc(api, ports, execute, valid, e.ip);
      valid := valid + [e.ip];
      var result := execute(e.ip[1]);
      if result.Err? {
        assert Respond(api, ports, result) == if ports.err.Some? then [ToErr(api.newPacket(result.error))] else [];
        if ports.err.Some? {
          sends := sends + [ToErr(api.newPacket(result.error))];
        }
        continue;
      }
      var out := StripNewlines(result.value);
      assert Respond(api, ports, result) == if ports.out.Some? then [ToOut(api.newPacket(out))] else [];
      if ports.out.Some? {
        sends := sends + [ToOut(api.newPacket(out))];
      }
    }
  }

  /** `main` after flag parsing: the argument check, `openPorts`, then the
      receive loop.  Without out and err endpoints nothing is ever sent. */
  method Run(api: Api, execute: Bytes -> Result<Bytes, Bytes>,
             cmdEndpoint: string, outputEndpoint: string, errorEndpoint: string, events: seq<RecvEvent>)
    returns (status: Status, sends: seq<Send>)
    requires api.Sound()
    ensures status == ValidateArgs(cmdEndpoint, outputEndpoint, errorEndpoint)
    ensures status != Running ==> sends == []
    ensures status == Running ==>
              && HasPayload(ValidInputs(api, events))
              && sends == Responses(api, OpenPorts(cmdEndpoint, outputEndpoint, errorEndpoint), execute,
                                    ValidInputs(api, events))
    ensures outputEndpoint == "" && errorEndpoint == "" ==> sends == []
  {
    sends := [];
    status := ValidateArgs(cmdEndpoint, outputEndpoint, errorEndpoint);
    if status != Running {
      return;
    }
    var ports := OpenPorts(cmdEndpoint, outputEndpoint, errorEndpoint);
    sends := Serve(api, ports, execute, events);
    if outputEndpoint == "" && errorEndpoint == "" {
      ResponsesSilent(api, ports, execute, ValidInputs(api, events));
    }
  }
}
