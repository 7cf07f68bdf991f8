/** Packets, receive events and the helpers of the component runtime that
    every component shares.

    A packet ("IP") is a multipart message: a sequence of byte frames.  The
    runtime's validity check, its `IsPacket` test and its packet constructor
    are not part of this model; they are handed to every loop as an `Api`
    value whose functions are otherwise unconstrained, except for the one
    fact the components rely on when they read frame 1 of a valid packet. */
module Runtime {

  newtype Byte = b: int | 0 <= b < 256

  /** A byte slice, and also a Go string built from one (`string(ip[1])`):
      Go strings are byte sequences, so the conversion keeps every byte. */
  type Bytes = seq<Byte>

  type IP = seq<Bytes>

  datatype Option<+T> = None | Some(value: T)

  datatype Result<+R, +E> = Ok(value: R) | Err(error: E)

  /** What one blocking receive on an input port yields. */
  datatype RecvEvent = RecvErr | Packet(ip: IP)

  /** How a component's startup ends: it goes on running, or it printed its
      usage and left with an exit code. */
  datatype Status = Running | UsageExit(code: int)

  /** The runtime package's packet helpers, abstracted. */
  datatype Api = Api(isValidIP: IP -> bool, isPacket: IP -> bool, newPacket: Bytes -> IP)
  {
    /** Submatch, exec and the delay gate read `ip[1]` right after
        `IsValidIP(ip)` holds; the splitter and the delay forward loop read
        no frame. */
    ghost predicate Sound() {
      forall ip :: isValidIP(ip) ==> |ip| >= 2
    }
  }

  /** A receive that a data loop does not skip: no receive error, and a
      packet that passes the validity check. */
  predicate Accepted(api: Api, e: RecvEvent) {
    e.Packet? && api.isValidIP(e.ip)
  }

  /** The packets among the first `n` receives of `events` that a receive
      loop goes on to process, in receipt order. */
  function ValidPrefix(api: Api, events: seq<RecvEvent>, n: nat): (ips: seq<IP>)
    requires n <= |events|
    ensures |ips| <= n
  {
    if n == 0 then []
    else ValidPrefix(api, events, n - 1) + (if Accepted(api, events[n - 1]) then [events[n - 1].ip] else [])
  }

  /** The packets of `events` that a receive loop goes on to process. */
  function ValidInputs(api: Api, events: seq<RecvEvent>): seq<IP> {
    ValidPrefix(api, events, |events|)
  }

  /** Every packet of `ips` has a frame 1, the payload the components read. */
  predicate HasPayload(ips: seq<IP>) {
    forall k :: 0 <= k < |ips| ==> |ips[k]| >= 2
  }

  /** Only packets that pass the validity check are kept, so with a sound
      runtime every kept packet has a frame 1. */
  lemma {:induction false} ValidPrefixAreValid(api: Api, events: seq<RecvEvent>, n: nat)
    requires n <= |events|
    ensures forall ip | ip in ValidPrefix(api, events, n) :: api.isValidIP(ip)
    ensures api.Sound() ==> HasPayload(ValidPrefix(api, events, n))
  {
    if n > 0 {
      ValidPrefixAreValid(api, events, n - 1);
    }
  }

  /** Receives that come later do not change what was kept before them. */
  lemma {:induction false} ValidPrefixOfAppend(api: Api, a: seq<RecvEvent>, b: seq<RecvEvent>, n: nat)
    requires n <= |a|
    ensures ValidPrefix(api, a + b, n) == ValidPrefix(api, a, n)
  {
    if n > 0 {
      ValidPrefixOfAppend(api, a, b, n - 1);
      assert (a + b)[n - 1] == a[n - 1];
    }
  }

  lemma {:induction false} ValidPrefixAppend(api: Api, a: seq<RecvEvent>, b: seq<RecvEvent>, k: nat)
    requires k <= |b|
    ensures ValidPrefix(api, a + b, |a| + k) == ValidInputs(api, a) + ValidPrefix(api, b, k)
  {
    if k == 0 {
      ValidPrefixOfAppend(api, a, b, |a|);
    } else {
      ValidPrefixAppend(api, a, b, k - 1);
      assert (a + b)[|a| + k - 1] == b[k - 1];
    }
  }

  /** Filtering commutes with concatenation: outputs follow input order
      across any split of the input stream. */
  lemma ValidInputsAppend(api: Api, a: seq<RecvEvent>, b: seq<RecvEvent>)
    ensures ValidInputs(api, a + b) == ValidInputs(api, a) + ValidInputs(api, b)
  {
    ValidPrefixAppend(api, a, b, |b|);
  }

  /** A receive error or a packet failing the validity check adds nothing. */
  lemma SkippedAddsNothing(api: Api, events: seq<RecvEvent>, e: RecvEvent)
    requires !Accepted(api, e)
    ensures ValidInputs(api, events + [e]) == ValidInputs(api, events)
  {
    ValidPrefixOfAppend(api, events, [e], |events|);
  }

  /** Exactly the accepted receives are kept: a packet is kept iff some
      accepted receive among the first `n` carried it. */
  lemma {:induction false} ValidPrefixMembers(api: Api, events: seq<RecvEvent>, n: nat, ip: IP)
    requires n <= |events|
    ensures ip in ValidPrefix(api, events, n)
        <==> exists i :: 0 <= i < n && Accepted(api, events[i]) && events[i].ip == ip
  {
    if n > 0 {
      ValidPrefixMembers(api, events, n - 1, ip);
    }
  }
}
