# cascades core components, modelled in Dafny

This project models four components of the cascades flow-based programming
runtime: `submatch`, `exec`, `delay` and `splitter`. Each component is one
Go program. It checks its endpoint flags and opens its ports. Some
components then wait on a configuration port. After that, each component
loops forever: it receives a packet (an "IP", a multipart message of byte
frames), skips it on a receive error or when the packet is invalid, applies
its policy and sends the result.

The model consists of these modules:

- `Runtime` (`runtime.dfy`) holds what the four programs share:
  - packets as `seq<seq<Byte>>` and receive events (`RecvErr | Packet(ip)`);
  - the startup outcome (`Running | UsageExit(code)`);
  - the runtime helpers `IsValidIP`, `IsPacket` and `NewPacket`, passed in as
    an `Api` value;
  - `ValidInputs`, the packets a receive loop goes on to process.
- `Submatch` (`submatch.dfy`) models three things:
  - `FindStringSubmatchMap`, the group-name → captured-text map;
  - the pattern gate;
  - the match-and-send loop.
- `Exec` (`exec.dfy`) models three things:
  - the optional output ports;
  - newline removal;
  - the execute-and-route loop.
- `Delay` (`delay.dfy`) models the duration gate and the sleep-then-forward
  loop.
- `Splitter` (`splitter.dfy`) models four things:
  - `strings.Split`;
  - `strings.TrimSpace`;
  - the list of output ports;
  - the fan-out loop.

The receive loops never end in the source. Each one is modelled as a method
that consumes a finite sequence of receive events and returns the sends it
makes, in order. A gate loop that sees no configuring packet returns `None`:
the component is still blocked there, and its data port has not been read.
Each loop method is proved equal to a specification function. Lemmas about
those functions prove what the component promises.

The runtime helpers' code is not part of this model, so the helpers are
unconstrained functions with one exception. `Api.Sound()` requires that a
packet passing `IsValidIP` has a frame 1, because submatch, exec and the
delay gate read `ip[1]` right after that check. The splitter and the delay
forward loop pass packets on without reading a frame, and their loops do not
need the assumption.

Groups without a name are not dropped by `FindStringSubmatchMap`. When
every group of a pattern is unnamed, a match stores all of them under the
key `""`, and the last group's text wins (`Submatch.UnnamedGroupsShareKey`).

## Model

| member | source | states |
|---|---|---|
| Runtime.ValidPrefix | components/core/splitter/main.go:96-105 | the packets a receive loop keeps from its first n receives; receive errors and invalid packets are dropped, so there are never more than n |
| Runtime.ValidPrefixAreValid | components/core/submatch/main.go:135-140 | every kept packet passes `IsValidIP`, so with a sound runtime every kept packet has the frame 1 that is read next |
| Runtime.ValidPrefixOfAppend | components/core/delay/main.go:107-118 | later receives do not change what was kept from earlier ones |
| Runtime.ValidPrefixAppend | components/core/delay/main.go:107-118 | filtering a concatenated stream, up to a point in the second part, is the first part's kept packets followed by the second part's |
| Runtime.ValidInputsAppend | components/core/delay/main.go:107-118 | the kept packets of a concatenated stream are the first part's followed by the second part's, so receipt order is preserved |
| Runtime.SkippedAddsNothing | components/core/exec/main.go:92-99 | a receive error or an invalid packet adds nothing to what a loop processes |
| Runtime.ValidPrefixMembers | components/core/splitter/main.go:96-105 | a packet is kept iff some receive among the first n carried it without error and it passed `IsValidIP` |
| Submatch.ValidateArgs | components/core/submatch/main.go:50-63 | startup continues iff the pattern, in and map endpoints are all non-empty, otherwise usage exit 1 |
| Submatch.CapturesKeys | components/core/submatch/main.go:40-46 | after the loop, the key set is exactly the set of group names at indices 1..n-1; index 0 (the whole match) adds no key |
| Submatch.CapturesLastWriter | components/core/submatch/main.go:40-46 | the value under a name is the text of the last group index carrying that name; later assignments overwrite earlier ones, and unnamed groups share the key "" |
| Submatch.FindStringSubmatchMap | components/core/submatch/main.go:34-48 | no match gives the empty map; on a match, the keys are the names of groups 1..n-1 and each holds the last same-named group's text |
| Submatch.NoGroupsNoCaptures | components/core/submatch/main.go:40-47 | a pattern without capture groups gives the empty map, whether it matches or not |
| Submatch.UnnamedGroupsShareKey | components/core/submatch/main.go:40-46 | when no group has a name, a match is not empty: it maps the empty name to the text of the last group |
| Submatch.GatePatternFirst | components/core/submatch/main.go:113-126 | the gate takes frame 1 of the first valid packet; receive errors and invalid packets before it are skipped |
| Submatch.GatePatternWaits | components/core/submatch/main.go:113-122 | the gate is still waiting iff every receive so far was an error or an invalid packet |
| Submatch.AwaitPattern | components/core/submatch/main.go:113-126 | the gate loop returns the gate's pattern, and stops at the first valid packet |
| Submatch.MapSendsAt | components/core/submatch/main.go:129-149 | exactly one map packet per valid input, and the k-th packet sent is the serialised map of the k-th valid input |
| Submatch.MapSendsSnoc | components/core/submatch/main.go:140-148 | one more valid input appends exactly its own map packet |
| Submatch.Serve | components/core/submatch/main.go:129-149 | the steady loop sends the map packets of the valid inputs, in receipt order, and nothing for errored or invalid receives |
| Submatch.Run | components/core/submatch/main.go:99-149 | the argument check decides whether the component starts; nothing is sent until the gate has a pattern; afterwards the sends are the steady loop's for the compiled pattern |
| Exec.ValidateArgs | components/core/exec/main.go:29-34 | startup continues iff the cmd endpoint is non-empty; the out and err endpoints are optional |
| Exec.OpenPorts | components/core/exec/main.go:43-51 | the out port exists iff its endpoint is non-empty, and likewise the err port |
| Exec.StripNewlines | components/core/exec/main.go:108 | the result holds no newline byte and is no longer than its input |
| Exec.StripNewlinesAppend | components/core/exec/main.go:108 | newline removal works piecewise over concatenation, so the other bytes keep their order |
| Exec.StripNewlinesKeeps | components/core/exec/main.go:108 | text without newlines is left unchanged |
| Exec.StripNewlinesIdempotent | components/core/exec/main.go:108 | removing newlines twice is removing them once |
| Exec.StripNewlinesCounts | components/core/exec/main.go:108 | every newline byte is removed and every other byte is kept as often as it occurs |
| Exec.Respond | components/core/exec/main.go:100-112 | for one command result: at most one send; an error goes only to the err port, and only if it exists; a success goes only to the out port, and only if it exists, without newlines |
| Exec.ResponsesSnoc | components/core/exec/main.go:91-113 | one more valid input appends exactly the sends for its command's result |
| Exec.ResponsesCount | components/core/exec/main.go:100-112 | at most one send per valid input, and exactly one when both output ports exist |
| Exec.ResponsesOrigin | components/core/exec/main.go:100-112 | every send answers the command of some valid input |
| Exec.ResponsesSilent | components/core/exec/main.go:103-111 | with neither output port, nothing is ever sent |
| Exec.Serve | components/core/exec/main.go:91-113 | the receive loop makes exactly the routed sends of the valid inputs' commands, in receipt order; invalid packets and receive errors cause no send |
| Exec.Run | components/core/exec/main.go:81-113 | the argument check decides whether the component starts; the ports follow the optional-port rule; without out and err endpoints nothing is sent |
| Delay.ValidateArgs | components/core/delay/main.go:29-42 | startup continues iff the in, delay and out endpoints are all non-empty, otherwise usage exit 1 |
| Delay.GateDelayFirst | components/core/delay/main.go:89-104 | the gate takes the parsed duration of the first receive that passes `IsValidIP` and `IsPacket` and whose frame 1 parses; everything before it is skipped |
| Delay.GateDelayWaits | components/core/delay/main.go:89-104 | the gate is still waiting iff no receive so far configures it |
| Delay.GateDelaySettled | components/core/delay/main.go:98-104 | once the duration is set, later receives on the delay port do not change it |
| Delay.AwaitDelay | components/core/delay/main.go:89-104 | the gate loop returns the gate's duration; it skips receive errors, packets failing `IsValidIP` or `IsPacket`, and unparsable durations |
| Delay.RelaySnoc | components/core/delay/main.go:107-118 | one more valid input appends a sleep of the duration followed by that packet's send |
| Delay.RelayAt | components/core/delay/main.go:107-118 | the k-th valid input is sent at position 2k+1, right after a sleep of the configured duration at 2k |
| Delay.SentRelay | components/core/delay/main.go:107-118 | the packets sent are exactly the valid inputs, unchanged and in receipt order |
| Delay.RelaySleeps | components/core/delay/main.go:116 | every sleep lasts the configured duration |
| Delay.Forward | components/core/delay/main.go:107-118 | the forward loop's trace is a sleep-then-send per valid input, in receipt order |
| Delay.Run | components/core/delay/main.go:78-118 | the argument check decides whether the component starts; nothing is forwarded before the gate has a duration; afterwards the trace is the forward loop's with that duration |
| Splitter.ValidateArgs | components/core/splitter/main.go:29-38 | startup continues iff the in and out endpoints are both non-empty, otherwise usage exit 1 |
| Splitter.Split | components/core/splitter/main.go:41-45 | splitting never yields zero pieces |
| Splitter.SplitCount | components/core/splitter/main.go:41-45 | there is one piece more than there are commas, so the zero-pieces exit can never be taken |
| Splitter.SplitJoin | components/core/splitter/main.go:41 | no piece contains the separator, and joining the pieces with it gives back the flag text |
| Splitter.TrimSpace | components/core/splitter/main.go:55 | `strings.TrimSpace` of an endpoint piece: the result is no longer than the piece and neither starts nor ends with white space (with `TrimSpaceSlice`: it is the piece with exactly its leading and trailing white space cut) |
| Splitter.TrimSpaceSlice | components/core/splitter/main.go:55 | trimming keeps a contiguous slice of the piece; only white space is cut at either end, and the result neither starts nor ends with white space |
| Splitter.TrimSpaceIdempotent | components/core/splitter/main.go:55 | trimming twice is trimming once |
| Splitter.OpenPorts | components/core/splitter/main.go:40-60 | the port list has exactly one entry per split piece, in list order, each the trimmed piece; creation errors are not checked, so no piece is dropped |
| Splitter.CopiesAt | components/core/splitter/main.go:106-108 | for one packet, the k-th send goes to the k-th port and carries the packet unchanged |
| Splitter.BroadcastSnoc | components/core/splitter/main.go:106-108 | one more valid input appends one copy of it per output port, in list order |
| Splitter.OnPortCopies | components/core/splitter/main.go:106-108 | one packet reaches each existing port exactly once, and no other port |
| Splitter.BroadcastOnPort | components/core/splitter/main.go:96-109 | every output port receives every valid input exactly once, unchanged and in receipt order, so all outputs see the same sequence; no other port receives anything |
| Splitter.BroadcastLength | components/core/splitter/main.go:96-109 | each valid input causes exactly one send per output port |
| Splitter.FanOut | components/core/splitter/main.go:96-109 | the fan-out loop sends each valid input to every output port in list order; errored or invalid receives cause no send |
| Splitter.Run | components/core/splitter/main.go:86-109 | the argument check decides whether the component starts; then the port list and the fan-out follow from the flag text |

## Left out

- ZeroMQ sockets and contexts, port creation, `Close`, `zmq.Term` and `context.Close` are left out: they are transport I/O. A port is represented by its endpoint string. The code closes ports in acquisition order, and this model says nothing about closing.
- Send errors are left out. The code ignores the result of every send, so a failed send changes nothing the model tracks.
- `flag.Parse`, `flag.Usage`, `os.Exit` and the `-json` self-description are left out, and so is every `log` call. The usage exit is the `UsageExit(1)` outcome.
- `utils.HandleInterruption` and `runtime.SetupShutdownByDisconnect` are left out. They handle signals and disconnect notices concurrently, and their code is not part of this model. Instead, the receive loops run over a finite sequence of receive events.
- `runtime.IsValidIP`, `runtime.IsPacket` and `runtime.NewPacket` are not part of this model. They are parameters, and the only assumption about them is `Api.Sound()`.
- `time.Sleep` is recorded as a `Sleep(d)` action and is not timed. `time.ParseDuration` is a partial function parameter.
- The regular-expression engine is not part of this model. A pattern is its group names plus its match function, and `Regexp.Valid()` states the engine's guarantee about their lengths.
- Submatch.Run: requires that the gate's pattern compiles. A bad pattern makes `regexp.MustCompile` panic at components/core/submatch/main.go:124 and the component dies; the gate does not retry with a later packet. That panic is not modelled.
- `json.Marshal` is a total function parameter. When the code's marshal fails, it logs the error and sends whatever `data` holds, and the parameter's value stands for that.
- `executeCommand` runs a subprocess and is not part of this model. It is a pure function parameter returning `Ok(output)` or `Err(error text)`. The model therefore assumes that the same command always gives the same result. Its sends do not record that a subprocess ran once for each valid input, nor in what order the subprocesses ran.
- Flag values are Dafny strings of Unicode characters. Go's handling of invalid UTF-8 in `strings.TrimSpace` is not modelled.
- The Go globals assigned at startup are not modelled as mutable state: `outPortArray`, the ports, `ip`, `err` and `pattern` become values returned by the methods. The loop variable `port` of the splitter is a local loop index.
