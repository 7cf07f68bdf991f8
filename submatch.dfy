/** The submatch component: it waits on its pattern port for one valid
    packet whose frame 1 is a regular expression, then turns every valid
    packet on its input port into a map from capture-group name to captured
    text and sends that map, serialised, on its map port. */
module Submatch {
  import opened Runtime

  /** A compiled pattern, as far as the component uses it: the group names
      (`SubexpNames`) and the engine's `FindStringSubmatch`. */
  datatype Regexp = Regexp(subexpNames: seq<Bytes>, findStringSubmatch: Bytes -> Option<seq<Bytes>>)
  {
    /** The engine's own promise: index 0 names the whole match, and a match
        has one entry per name. */
    ghost predicate Valid() {
      && |subexpNames| >= 1
      && forall s :: findStringSubmatch(s).Some? ==> |findStringSubmatch(s).value| == |subexpNames|
    }
  }

  /** `validateArgs`: all three endpoints are required. */
  function ValidateArgs(patternEndpoint: string, inputEndpoint: string, mapEndpoint: string): (status: Status)
    ensures status == Running <==> patternEndpoint != "" && inputEndpoint != "" && mapEndpoint != ""
    ensures status != Running ==> status == UsageExit(1)
  {
    if patternEndpoint == "" then UsageExit(1)
    else if inputEndpoint == "" then UsageExit(1)
    else if mapEndpoint == "" then UsageExit(1)
    else Running
  }

  // ---------------------------------------------------------------------
  // FindStringSubmatchMap

  /** The map after the loop has assigned `names[i] := groups[i]` for every
      index `1 <= i < k`, in increasing order. */
  function Captures(names: seq<Bytes>, groups: seq<Bytes>, k: nat): map<Bytes, Bytes>
    requires k <= |names| == |groups|
  {
    if k <= 1 then map[] else Captures(names, groups, k - 1)[names[k - 1] := groups[k - 1]]
  }

  /** The names that group indices 1 .. k-1 carry. */
  function GroupNames(names: seq<Bytes>, k: nat): set<Bytes>
    requires k <= |names|
  {
    set i | 1 <= i < k :: names[i]
  }

  /** No later group index below `k` carries the name of group `j`. */
  predicate IsLastWithName(names: seq<Bytes>, j: nat, k: nat)
    requires j < k <= |names|
  {
    forall l :: j < l < k ==> names[l] != names[j]
  }

  /** The key set is exactly the set of names at indices 1 .. k-1: the whole
      match at index 0 never contributes a key of its own. */
  lemma {:induction false} CapturesKeys(names: seq<Bytes>, groups: seq<Bytes>, k: nat)
    requires k <= |names| == |groups|
    ensures Captures(names, groups, k).Keys == GroupNames(names, k)
  {
    if k > 1 {
      CapturesKeys(names, groups, k - 1);
      assert GroupNames(names, k) == GroupNames(names, k - 1) + {names[k - 1]};
    }
  }

  /** Later assignments overwrite earlier ones: the value under a group's
      name is the text that the last group carrying that name captured. */
  lemma {:induction false} CapturesLastWriter(names: seq<Bytes>, groups: seq<Bytes>, k: nat, j: nat)
    requires k <= |names| == |groups|
    requires 1 <= j < k && IsLastWithName(names, j, k)
    ensures names[j] in Captures(names, groups, k)
    ensures Captures(names, groups, k)[names[j]] == groups[j]
  {
    if j < k - 1 {
      CapturesLastWriter(names, groups, k - 1, j);
    }
  }

  /** What `FindStringSubmatchMap` returns for the engine's answer `groups`. */
  function SubmatchMap(names: seq<Bytes>, groups: Option<seq<Bytes>>): map<Bytes, Bytes>
    requires groups.Some? ==> |groups.value| == |names|
  {
    if groups.None? then map[] else Captures(names, groups.value, |names|)
  }

  /** `FindStringSubmatchMap`: no match gives the empty map; otherwise the
      keys are the names of groups 1 .. n (unnamed groups share the key ""),
      and each key holds the text of the last group carrying it. */
  method FindStringSubmatchMap(names: seq<Bytes>, groups: Option<seq<Bytes>>) returns (captures: map<Bytes, Bytes>)
    requires groups.Some? ==> |groups.value| == |names|
    ensures captures == SubmatchMap(names, groups)
    ensures groups.None? ==> captures == map[]
    ensures groups.Some? ==> captures.Keys == GroupNames(names, |names|)
    ensures groups.Some? ==> forall j | 1 <= j < |names| && IsLastWithName(names, j, |names|)
                              :: captures[names[j]] == groups.value[j]
  {
    captures := map[];
    if groups.None? {
      return;
    }
    var m := groups.value;
    for i := 0 to |names|
      invariant captures == Captures(names, m, i)
    {
      if i == 0 {
        continue;
      }
      captures := captures[names[i] := m[i]];
    }
    CapturesKeys(names, m, |names|);
    forall j | 1 <= j < |names| && IsLastWithName(names, j, |names|)
      ensures names[j] in captures && captures[names[j]] == m[j]
    {
      CapturesLastWriter(names, m, |names|, j);
    }
  }

  /** A pattern without capture groups yields the empty map, match or not. */
  lemma NoGroupsNoCaptures(names: seq<Bytes>, groups: Option<seq<Bytes>>)
    requires |names| == 1
    requires groups.Some? ==> |groups.value| == |names|
    ensures SubmatchMap(names, groups) == map[]
  {
  }

  /** Groups without a name do not vanish: when every group is unnamed, a
      match maps the empty name to the text of the last group. */
  lemma UnnamedGroupsShareKey(names: seq<Bytes>, groups: seq<Bytes>)
    requires 2 <= |names| == |groups|
    requires forall i :: 1 <= i < |names| ==> names[i] == []
    ensures SubmatchMap(names, Some(groups)) == map[[] := groups[|names| - 1]]
  {
    var n := |names|;
    CapturesKeys(names, groups, n);
    assert GroupNames(names, n) == {[]} by {
      assert names[1] in GroupNames(names, n);
    }
    CapturesLastWriter(names, groups, n, n - 1);
  }

  // ---------------------------------------------------------------------
  // The pattern gate

  /** The pattern the gate loop settles on: frame 1 of the first accepted
      receive, or None while no such receive has happened (the loop is still
      waiting). */
  function GatePattern(api: Api, events: seq<RecvEvent>): (pattern: Option<Bytes>)
    requires api.Sound()
  {
    if events == [] then None
    else if Accepted(api, events[0]) then Some(events[0].ip[1])
    else GatePattern(api, events[1..])
  }

  /** The gate takes its pattern from the first accepted receive, whatever
      follows it. */
  lemma {:induction false} GatePatternFirst(api: Api, events: seq<RecvEvent>, i: nat)
    requires api.Sound()
    requires i < |events| && Accepted(api, events[i])
    requires forall j :: 0 <= j < i ==> !Accepted(api, events[j])
    ensures GatePattern(api, events) == Some(events[i].ip[1])
  {
    if i > 0 {
      assert !Accepted(api, events[0]);
      GatePatternFirst(api, events[1..], i - 1);
    }
  }

  /** The gate is still waiting exactly when every receive so far was a
      receive error or an invalid packet. */
  lemma {:induction false} GatePatternWaits(api: Api, events: seq<RecvEvent>)
    requires api.Sound()
    ensures GatePattern(api, events).None? <==> forall j :: 0 <= j < |events| ==> !Accepted(api, events[j])
  {
    if events != [] {
      GatePatternWaits(api, events[1..]);
      if !Accepted(api, events[0]) && forall j :: 0 <= j < |events| - 1 ==> !Accepted(api, events[1..][j]) {
        forall j | 0 <= j < |events| ensures !Accepted(api, events[j]) {
          if j > 0 {
            assert events[j] == events[1..][j - 1];
          }
        }
      }
    }
  }

  /** The pattern gate loop of `main`: receive errors and invalid packets are
      skipped; the first valid packet ends the loop. */
  method AwaitPattern(api: Api, events: seq<RecvEvent>) returns (pattern: Option<Bytes>)
    requires api.Sound()
    ensures pattern == GatePattern(api, events)
  {
    pattern := None;
    for i := 0 to |events|
      invariant GatePattern(api, events) == GatePattern(api, events[i..])
    {
      assert events[i..][1..] == events[i + 1..];
      var e := events[i];
      if e.RecvErr? {
        continue;
      }
      if !api.isValidIP(e.ip) {
        continue;
      }
      pattern := Some(e.ip[1]);
      break;
    }
  }

  // ---------------------------------------------------------------------
  // The steady loop

  /** The packet sent on the map port for one valid input packet. */
  function MapPacket(api: Api, re: Regexp, marshal: map<Bytes, Bytes> -> Bytes, ip: IP): IP
    requires re.Valid() && |ip| >= 2
  {
    api.newPacket(marshal(SubmatchMap(re.subexpNames, re.findStringSubmatch(ip[1]))))
  }

  /** The packets the steady loop sends on the map port for the valid
      inputs `ips`: one per input, in the same order. */
  function MapSends(api: Api, re: Regexp, marshal: map<Bytes, Bytes> -> Bytes, ips: seq<IP>): (sends: seq<IP>)
    requires re.Valid() && HasPayload(ips)
  {
    if ips == [] then []
    else MapSends(api, re, marshal, ips[..|ips| - 1]) + [MapPacket(api, re, marshal, ips[|ips| - 1])]
  }

  /** Exactly one packet per valid input, and the k-th packet sent is the
      map of the k-th valid input. */
  lemma {:induction false} MapSendsAt(api: Api, re: Regexp, marshal: map<Bytes, Bytes> -> Bytes, ips: seq<IP>)
    requires re.Valid() && HasPayload(ips)
    ensures |MapSends(api, re, marshal, ips)| == |ips|
    ensures forall k :: 0 <= k < |ips| ==> MapSends(api, re, marshal, ips)[k] == MapPacket(api, re, marshal, ips[k])
  {
    if ips != [] {
      MapSendsAt(api, re, marshal, ips[..|ips| - 1]);
    }
  }

  /** Appending one valid input appends its map packet. */
  lemma MapSendsSnoc(api: Api, re: Regexp, marshal: map<Bytes, Bytes> -> Bytes, ips: seq<IP>, ip: IP)
    requires re.Valid() && HasPayload(ips) && |ip| >= 2
    ensures HasPayload(ips + [ip])
    ensures MapSends(api, re, marshal, ips + [ip]) == MapSends(api, re, marshal, ips) + [MapPacket(api, re, marshal, ip)]
  {
    assert (ips + [ip])[..|ips|] == ips;
  }

  /** The steady loop of `main`: each valid input gives exactly one packet on
      the map port, in receipt order; receive errors and invalid packets give
      none. */
  method Serve(api: Api, re: Regexp, marshal: map<Bytes, Bytes> -> Bytes, events: seq<RecvEvent>)
    returns (sends: seq<IP>)
    requires api.Sound() && re.Valid()
    ensures HasPayload(ValidInputs(api, events))
    ensures sends == MapSends(api, re, marshal, ValidInputs(api, events))
  {
    sends := [];
    ghost var valid: seq<IP> := [];
    for i := 0 to |events|
      invariant valid == ValidPrefix(api, events, i)
      invariant HasPayload(valid)
      invariant sends == MapSends(api, re, marshal, valid)
    {
      var e := events[i];
      if e.RecvErr? {
        continue;
      }
      if !api.isValidIP(e.ip) {
        continue;
      }
      var matches := FindStringSubmatchMap(re.subexpNames, re.findStringSubmatch(e.ip[1]));
      var data := marshal(matches);
      MapSendsSnoc(api, re, marshal, valid, e.ip);
      valid := valid + [e.ip];
      sends := sends + [api.newPacket(data)];
    }
  }

  /** The engine contract: whatever compiles is a well-formed pattern. */
  ghost predicate EngineSound(compile: Bytes -> Option<Regexp>) {
    forall p :: compile(p).Some? ==> compile(p).value.Valid()
  }

  /** `main` after flag parsing: the argument check, the pattern gate on the
      pattern port, then the steady loop on the input port.  Nothing is read
      from the input port, and nothing sent, until the gate has a pattern. */
  method Run(api: Api, compile: Bytes -> Option<Regexp>, marshal: map<Bytes, Bytes> -> Bytes,
             patternEndpoint: string, inputEndpoint: string, mapEndpoint: string,
             patternEvents: seq<RecvEvent>, inEvents: seq<RecvEvent>)
    returns (status: Status, sends: seq<IP>)
    requires api.Sound() && EngineSound(compile)
    requires GatePattern(api, patternEvents).Some? ==> compile(GatePattern(api, patternEvents).value).Some?
    ensures status == ValidateArgs(patternEndpoint, inputEndpoint, mapEndpoint)
    ensures status != Running || GatePattern(api, patternEvents).None? ==> sends == []
    ensures status == Running && GatePattern(api, patternEvents).Some? ==>
              && HasPayload(ValidInputs(api, inEvents))
              && sends == MapSends(api, compile(GatePattern(api, patternEvents).value).value, marshal,
                                   ValidInputs(api, inEvents))
  {
    sends := [];
    status := ValidateArgs(patternEndpoint, inputEndpoint, mapEndpoint);
    if status != Running {
      return;
    }
    var pattern := AwaitPattern(api, patternEvents);
    if pattern.None? {
      return;
    }
    var re := compile(pattern.value).value;
    sends := Serve(api, re, marshal, inEvents);
  }
}
