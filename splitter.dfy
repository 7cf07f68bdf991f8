/** The splitter component: its out endpoint flag is a comma-separated list
    of endpoints, one output port each; every valid packet of its input port
    is sent, unchanged, to every output port in the order of that list. */
module Splitter {
  import opened Runtime

  /** `validateArgs`: the in and out endpoints are required. */
  function ValidateArgs(inputEndpoint: string, outputEndpoint: string): (status: Status)
    ensures status == Running <==> inputEndpoint != "" && outputEndpoint != ""
    ensures status != Running ==> status == UsageExit(1)
  {
    if inputEndpoint == "" then UsageExit(1)
    else if outputEndpoint == "" then UsageExit(1)
    else Running
  }

  // ---------------------------------------------------------------------
  // strings.Split(s, sep) for a one-character separator

  function Split(s: string, sep: char): (pieces: seq<string>)
    ensures |pieces| >= 1
  {
    if s == [] then [""]
    else
      var rest := Split(s[1..], sep);
      if s[0] == sep then [""] + rest else [[s[0]] + rest[0]] + rest[1..]
  }

  function Count(s: string, c: char): nat {
    if s == [] then 0 else (if s[0] == c then 1 else 0) + Count(s[1..], c)
  }

  /** The pieces joined back with the separator. */
  function Join(pieces: seq<string>, sep: char): string
    requires |pieces| >= 1
  {
    if |pieces| == 1 then pieces[0] else pieces[0] + [sep] + Join(pieces[1..], sep)
  }

  /** One piece more than there are separators, so never zero pieces: the
      `len(outports) == 0` exit of `openPorts` cannot be taken. */
  lemma {:induction false} SplitCount(s: string, sep: char)
    ensures |Split(s, sep)| == Count(s, sep) + 1
  {
    if s != [] {
      SplitCount(s[1..], sep);
    }
  }

  /** No piece contains the separator, and joining the pieces gives back
      the original text. */
  lemma {:induction false} SplitJoin(s: string, sep: char)
    ensures forall k :: 0 <= k < |Split(s, sep)| ==> sep !in Split(s, sep)[k]
    ensures Join(Split(s, sep), sep) == s
  {
    if s != [] {
      var rest := Split(s[1..], sep);
      SplitJoin(s[1..], sep);
      if s[0] == sep {
        assert Split(s, sep)[1..] == rest;
      } else {
        var pieces := Split(s, sep);
        forall k | 0 <= k < |pieces| ensures sep !in pieces[k] {
          if k > 0 {
            assert pieces[k] == rest[k];
          }
        }
        if |rest| == 1 {
          assert pieces == [[s[0]] + rest[0]];
        } else {
          assert pieces[1..] == rest[1..];
          assert Join(rest, sep) == rest[0] + [sep] + Join(rest[1..], sep);
        }
        assert s == [s[0]] + s[1..];
      }
    }
  }

  // ---------------------------------------------------------------------
  // strings.TrimSpace

  /** The white-space set assumed for `unicode.IsSpace`: the Latin-1 space
      characters '\t', '\n', '\v', '\f', '\r', ' ', U+0085 and U+00A0, and
      above Latin-1 the characters with the Unicode White_Space property. */
  predicate IsSpace(c: char) {
    || c == '\t' || c == '\n' || c == '\U{000B}' || c == '\U{000C}' || c == '\r' || c == ' '
    || c == '\U{0085}' || c == '\U{00A0}' || c == '\U{1680}'
    || ('\U{2000}' <= c <= '\U{200A}')
    || c == '\U{2028}' || c == '\U{2029}' || c == '\U{202F}' || c == '\U{205F}' || c == '\U{3000}'
  }

  /** Where the text of `s` starts when white space from index `lo` on is
      skipped. */
  function TrimStart(s: string, lo: nat): (b: nat)
    requires lo <= |s|
    ensures lo <= b <= |s|
    ensures forall k :: lo <= k < b ==> IsSpace(s[k])
    ensures b < |s| ==> !IsSpace(s[b])
    decreases |s| - lo
  {
    if lo < |s| && IsSpace(s[lo]) then TrimStart(s, lo + 1) else lo
  }

  /** Where the text of `s[lo..hi]` ends when white space before `hi` is
      dropped. */
  function TrimEnd(s: string, lo: nat, hi: nat): (e: nat)
    requires lo <= hi <= |s|
    ensures lo <= e <= hi
    ensures forall k :: e <= k < hi ==> IsSpace(s[k])
    ensures e > lo ==> !IsSpace(s[e - 1])
    decreases hi - lo
  {
    if hi > lo && IsSpace(s[hi - 1]) then TrimEnd(s, lo, hi - 1) else hi
  }

  /** `strings.TrimSpace`: `s` without its leading and trailing white space. */
  function TrimSpace(s: string): (r: string)
    ensures |r| <= |s|
    ensures r != [] ==> !IsSpace(r[0]) && !IsSpace(r[|r| - 1])
  {
    var b := TrimStart(s, 0);
    s[b..TrimEnd(s, b, |s|)]
  }

  /** Trimming removes exactly the white space at both ends: the result is
      a slice of the input, everything cut off at either end is white space,
      and the result neither starts nor ends with white space. */
  lemma TrimSpaceSlice(s: string)
    ensures var b := TrimStart(s, 0); var e := TrimEnd(s, b, |s|);
      && TrimSpace(s) == s[b..e]
      && (forall k :: 0 <= k < b ==> IsSpace(s[k]))
      && (forall k :: e <= k < |s| ==> IsSpace(s[k]))
      && (TrimSpace(s) != [] ==> !IsSpace(TrimSpace(s)[0]) && !IsSpace(TrimSpace(s)[|TrimSpace(s)| - 1]))
  {
    var b := TrimStart(s, 0);
    var e := TrimEnd(s, b, |s|);
    var r := TrimSpace(s);
    if r != [] {
      assert r[0] == s[b] && r[|r| - 1] == s[e - 1];
    }
  }

  /** Trimming twice is trimming once. */
  lemma TrimSpaceIdempotent(s: string)
    ensures TrimSpace(TrimSpace(s)) == TrimSpace(s)
  {
    var r := TrimSpace(s);
    TrimSpaceSlice(s);
    assert TrimStart(r, 0) == 0;
    assert TrimEnd(r, 0, |r|) == |r|;
    assert r[0..|r|] == r;
  }

  // ---------------------------------------------------------------------
  // openPorts

  /** `openPorts`: split the out flag on commas and open one output port per
      piece, in list order, on the whitespace-trimmed endpoint.  Port
      creation errors are not checked, so every piece gets its entry. */
  method OpenPorts(outputEndpoint: string) returns (status: Status, outPortArray: seq<string>)
    ensures status == Running
    ensures |outPortArray| == |Split(outputEndpoint, ',')|
    ensures forall k :: 0 <= k < |outPortArray| ==> outPortArray[k] == TrimSpace(Split(outputEndpoint, ',')[k])
  {
    var outports := Split(outputEndpoint, ',');
    if |outports| == 0 {
      return UsageExit(1), [];
    }
    status := Running;
    outPortArray := [];
    for i := 0 to |outports|
      invariant |outPortArray| == i
      invariant forall k :: 0 <= k < i ==> outPortArray[k] == TrimSpace(outports[k])
    {
      var endpoint := TrimSpace(outports[i]);
      outPortArray := outPortArray + [endpoint];
    }
  }

  // ---------------------------------------------------------------------
  // The fan-out loop

  /** One send: a packet on the output port at index `port` of the port list. */
  datatype Delivery = Delivery(port: nat, ip: IP)

  /** One copy of `ip` for each of ports 0 .. n-1, in that order. */
  function Copies(n: nat, ip: IP): (ds: seq<Delivery>)
    ensures |ds| == n
  {
    if n == 0 then [] else Copies(n - 1, ip) + [Delivery(n - 1, ip)]
  }

  /** The k-th send for one packet goes to the k-th port and carries the
      packet unchanged. */
  lemma {:induction false} CopiesAt(n: nat, ip: IP)
    ensures forall k :: 0 <= k < n ==> Copies(n, ip)[k] == Delivery(k, ip)
  {
    if n > 0 {
      CopiesAt(n - 1, ip);
    }
  }

  /** The sends for the valid inputs `ips` with `n` output ports. */
  function Broadcast(n: nat, ips: seq<IP>): seq<Delivery> {
    if ips == [] then [] else Broadcast(n, ips[..|ips| - 1]) + Copies(n, ips[|ips| - 1])
  }

  lemma BroadcastSnoc(n: nat, ips: seq<IP>, ip: IP)
    ensures Broadcast(n, ips + [ip]) == Broadcast(n, ips) + Copies(n, ip)
  {
    assert (ips + [ip])[..|ips|] == ips;
  }

  /** The packets delivered to output port `port`, in order. */
  function OnPort(ds: seq<Delivery>, port: nat): seq<IP> {
    if ds == [] then []
    else OnPort(ds[..|ds| - 1], port) + (if ds[|ds| - 1].port == port then [ds[|ds| - 1].ip] else [])
  }

  lemma {:induction false} OnPortAppend(a: seq<Delivery>, b: seq<Delivery>, port: nat)
    ensures OnPort(a + b, port) == OnPort(a, port) + OnPort(b, port)
  {
    if b == [] {
      assert a + b == a;
    } else {
      assert (a + b)[..|a + b| - 1] == a + b[..|b| - 1];
      OnPortAppend(a, b[..|b| - 1], port);
    }
  }

  /** Port `port` receives exactly one copy of `ip` when it exists. */
  lemma OnPortSnoc(ds: seq<Delivery>, d: Delivery, port: nat)
    ensures OnPort(ds + [d], port) == OnPort(ds, port) + (if d.port == port then [d.ip] else [])
  {
    assert (ds + [d])[..|ds|] == ds;
  }

  lemma {:induction false} OnPortCopies(n: nat, ip: IP, port: nat)
    ensures OnPort(Copies(n, ip), port) == if port < n then [ip] else []
  {
    if n > 0 {
      OnPortCopies(n - 1, ip, port);
      OnPortSnoc(Copies(n - 1, ip), Delivery(n - 1, ip), port);
    }
  }

  /** Every output port sees every valid input, once, unchanged and in
      receipt order, so all outputs see the same sequence; there are no
      sends to any other port. */
  lemma {:induction false} BroadcastOnPort(n: nat, ips: seq<IP>, port: nat)
    ensures OnPort(Broadcast(n, ips), port) == if port < n then ips else []
  {
    if ips != [] {
      var init, last := ips[..|ips| - 1], ips[|ips| - 1];
      assert Broadcast(n, ips) == Broadcast(n, init) + Copies(n, last);
      BroadcastOnPort(n, init, port);
      OnPortAppend(Broadcast(n, init), Copies(n, last), port);
      OnPortCopies(n, last, port);
      assert ips == init + [last];
    }
  }

  /** n sends per valid input. */
  lemma {:induction false} BroadcastLength(n: nat, ips: seq<IP>)
    ensures |Broadcast(n, ips)| == |ips| * n
  {
    if ips != [] {
      BroadcastLength(n, ips[..|ips| - 1]);
      assert |ips| * n == (|ips| - 1) * n + n;
    }
  }

  /** The receive loop of `main`: receive errors and invalid packets cause no
      send; each valid packet goes to every output port in list order. */
  method FanOut(api: Api, outPortArray: seq<string>, events: seq<RecvEvent>) returns (sends: seq<Delivery>)
    ensures sends == Broadcast(|outPortArray|, ValidInputs(api, events))
  {
    sends := [];
    ghost var valid: seq<IP> := [];
    for i := 0 to |events|
      invariant valid == ValidPrefix(api, events, i)
      invariant sends == Broadcast(|outPortArray|, valid)
    {
      var e := events[i];
      if e.RecvErr? {
        continue;
      }
      if !api.isValidIP(e.ip) {
        continue;
      }
      ghost var before := sends;
      for port := 0 to |outPortArray|
        invariant sends == before + Copies(port, e.ip)
      {
        sends := sends + [Delivery(port, e.ip)];
      }
      BroadcastSnoc(|outPortArray|, valid, e.ip);
      valid := valid + [e.ip];
    }
  }

  /** `main` after flag parsing: the argument check, `openPorts`, then the
      fan-out loop. */
  method Run(api: Api, inputEndpoint: string, outputEndpoint: string, events: seq<RecvEvent>)
    returns (status: Status, outPortArray: seq<string>, sends: seq<Delivery>)
    ensures status == ValidateArgs(inputEndpoint, outputEndpoint)
    ensures status != Running ==> outPortArray == [] && sends == []
    ensures status == Running ==>
              && |outPortArray| == |Split(outputEndpoint, ',')|
              && (forall k :: 0 <= k < |outPortArray| ==> outPortArray[k] == TrimSpace(Split(outputEndpoint, ',')[k]))
              && sends == Broadcast(|outPortArray|, ValidInputs(api, events))
  {
    outPortArray, sends := [], [];
    status := ValidateArgs(inputEndpoint, outputEndpoint);
    if status != Running {
      return;
    }
    status, outPortArray := OpenPorts(outputEndpoint);
    sends := FanOut(api, outPortArray, events);
  }
}
