# multicast-test: configuration logic in Dafny

This project models the deterministic configuration phase of the multicast testing
tool `multicast_test.Program`, and proves properties about it. That phase covers:

- building the interface ordinal table. Ordinal 0 is the wildcard address 0.0.0.0.
  Every unicast address of every interface that is up and multicast-capable then
  gets the next ordinal, in enumeration order;
- the interface-selection prompt, which sets the binding address;
- the multicast-address, port and TTL prompts. Each of them keeps its current value
  on an empty line. Otherwise it accepts only a validated value, and it re-prompts
  on anything else;
- the multicast test, which checks that the first byte of the address's byte form
  lies in [224, 239];
- the action prompt: 9 exits, 1 starts the sender, 2 starts the listener, and
  anything else prompts again.

Modules, leaf first:

- `Wrappers`: `Option`.
- `Net`: addresses as byte sequences (4 bytes or 16), the wildcard address and `IsMulticast`.
- `Interfaces`: the interface records, the enumeration filter and the table-building loop.
- `Settings`: the configuration record, its defaults (group 239.0.1.2, port 20480,
  TTL 128), the check of one line at each prompt, and the action switch.
- `Prompts`: the five prompt loops as methods. Each loop is proved equal to a
  recursive specification function (`FirstAccepted`, `FirstAction`), and lemmas
  state the properties of those functions.
- `Program`: the configuration phase of `Main`, end to end.

The operator's lines are a sequence of strings. Once it is used up, `Console.ReadLine()`
returns null, which the tool reads as the empty line. A read at end of input consumes
nothing. The address and port/TTL/ordinal/action parsers (`IPAddress.TryParse`,
`int.TryParse`) are parameters of type `string -> Option<...>`. No text grammar is
assumed for them.

A listener needs the binding address and the group address to be of the same address
family. The configuration phase never checks this, and the model follows the code.

## Model

| member | source | states |
|---|---|---|
| `Net.IsMulticast` | Program.cs:489-493 | the multicast test: the first byte of the address's byte form lies in [224, 239] |
| `Net.MulticastIsClassDRange` | Program.cs:489-493 | for IPv4, the multicast test accepts exactly the addresses 224.0.0.0 to 239.255.255.255 read as 32-bit numbers |
| `Net.MulticastDependsOnFirstByteOnly` | Program.cs:491-492 | two addresses of either family that share their first byte are both accepted or both rejected |
| `Net.IPv6MulticastBlockRejected` | Program.cs:489-493 | no IPv6 address of the multicast block ff00::/8 passes the test |
| `Interfaces.Qualifies` | Program.cs:41 | the enumeration filter: an interface is used iff it supports multicast and is operationally up |
| `Interfaces.Listed` | Program.cs:41-43 | the addresses the nested enumeration visits, in order; every one of them is a unicast address of a qualifying interface |
| `Interfaces.TableOf` | Program.cs:37-56 | the table for a list of addresses: keys exactly 0 .. n, the wildcard at 0, the k-th address at k |
| `Interfaces.BuildTable` | Program.cs:37-56 | the final counter is one more than the number of listed addresses; the keys are exactly 0 .. i-1; key 0 maps to the wildcard address whatever the interfaces; key k >= 1 maps to the k-th listed address; so the table equals `TableOf` of the listed addresses |
| `Interfaces.ListedPrefix` | Program.cs:41-43 | the addresses listed for the first n interfaces are a prefix of those listed for all of them |
| `Interfaces.OrdinalsFollowEnumeration` | Program.cs:40-54 | the m-th unicast address of the j-th qualifying interface gets ordinal 1 + (addresses of earlier qualifying interfaces) + m |
| `Interfaces.NonQualifyingContributesNothing` | Program.cs:41 | an interface that is down or not multicast-capable adds no ordinal |
| `Interfaces.OnlyWildcardWhenNothingQualifies` | Program.cs:37-56 | with no qualifying interface nothing is listed, so only ordinal 0 exists |
| `Settings.Defaults` | Program.cs:551-553 | the initial binding is the wildcard address; the initial group 239.0.1.2 is multicast, port 20480 is in [1,65535], and TTL 128 (Program.cs:10) is in [1,255] |
| `Settings.ChooseInterface` | Program.cs:70-102 | a line is accepted iff it parses to an ordinal in [0, count-1] that has an entry; acceptance changes only the binding address, to that entry; a non-number is NotANumber and an out-of-range number is OutOfRange |
| `Settings.ChooseGroup` | Program.cs:120-141 | an empty line keeps the configuration; otherwise a line is accepted iff it parses to an address that passes the multicast test, which then replaces only the group; an unparsable line is NotAnAddress; a multicast group stays multicast |
| `Settings.ChoosePort` | Program.cs:155-177 | an empty line keeps the configuration; otherwise a line is accepted iff it parses to an integer in [1,65535], which then replaces only the port; a non-number is NotANumber, other refusals OutOfRange; a port in range stays in range |
| `Settings.ChooseTtl` | Program.cs:195-217 | the same rules as the port prompt, for the TTL and the range [1,255] |
| `Settings.ActionOf` | Program.cs:268-309 | 9 is Exit, 1 is Sender, 2 is Listener; every other number, and a non-number, is Invalid |
| `Prompts.Line` | Program.cs:117 | `Console.ReadLine() ?? ""` (also at lines 68, 152, 192 and 266): the line at a position, and "" at end of input; a non-empty line is one of the operator's lines |
| `Prompts.Next` | Program.cs:117 | the position after a read: one further, except at end of input, where a read consumes nothing |
| `Prompts.FirstAccepted` | Program.cs:58-218 | a prompt answers with the configuration that its accepting step produces from the unchanged starting configuration, at a position between the start and the end of input |
| `Prompts.FirstAcceptedIsFirst` | Program.cs:58-218 | every line before the accepted one was refused, so refused lines leave the configuration unchanged; a prompt runs forever iff every line through end of input is refused |
| `Prompts.AnsweredWhenEmptyAccepted` | Program.cs:117-124 | a prompt that accepts the empty line always answers, because end of input reads as the empty line |
| `Prompts.ValuePromptsPreserveValid` | Program.cs:105-218 | the address, port and TTL prompts always answer and change only their own field; a valid configuration stays valid, so the TTL stays in [1,255] and the port in [1,65535] |
| `Prompts.InterfacePromptResolves` | Program.cs:70-86 | on a table whose keys are 0 .. count-1, a parsed n is accepted iff 0 <= n <= count-1, the lookup never fails, and the binding becomes table[n] |
| `Prompts.StepIdempotent` | Program.cs:58-218 | entering a just-accepted line again yields the same configuration |
| `Prompts.SelectInterface` | Program.cs:58-103 | the loop over `selection` returns what `FirstAccepted` specifies for the interface prompt |
| `Prompts.PromptGroup` | Program.cs:105-142 | the multicast-address loop returns what `FirstAccepted` specifies for it |
| `Prompts.PromptPort` | Program.cs:144-178 | the port loop returns what `FirstAccepted` specifies for it |
| `Prompts.PromptTtl` | Program.cs:180-218 | the TTL loop returns what `FirstAccepted` specifies for it |
| `Prompts.FirstAction` | Program.cs:257-319 | the action loop answers Exit, Sender or Listener: the action of the line at its answer position |
| `Prompts.FirstActionIsFirst` | Program.cs:257-319 | every line before the chosen action maps to Invalid; the loop runs forever iff every line through end of input does |
| `Prompts.SelectAction` | Program.cs:257-319 | the loop over `selection` returns what `FirstAction` specifies |
| `Program.ConfigPhase` | Program.cs:58-218 | the four configuration prompts chained, each from where the previous stopped reading; it runs forever iff the interface prompt does; an answer is valid and its binding is a table entry |
| `Program.Configure` | Program.cs:37-319 | a completed run's table is `TableOf` the listed addresses; its configuration is the answer of the chained prompts; its action is the answer of the action prompt from the next line; the run is stuck iff the interface or the action prompt runs forever; a completed run's binding is a table entry, its group multicast, its port in [1,65535], its TTL in [1,255] and its action Exit, Sender or Listener |

## Left out

- Console output (banner, colours, prompts, the configuration summary) is left out: it is presentation only.
- Audit logging (`InitializeLogging`, `LogProgram`, `LogUser`) is left out: it is file I/O whose errors are swallowed and never reach the configuration.
- `NetworkInterface.GetAllNetworkInterfaces()` is left out: it is an OS call, so the interfaces are a given input sequence. Its filter (`SupportsMulticast`, `OperationalStatus.Up`) is modelled.
- `StartSender` and `SendMessage` are left out: socket bind, the TTL option, datagram sends, `Thread.Sleep` and `DateTime.Now` are I/O and timing.
- `StartListener` and `Receive` are left out: group join, the background receive thread and close-to-cancel shutdown need a socket and concurrency model. The model stops at the chosen action.
- `Encoding.Default` conversions are left out: their behaviour depends on the platform.
- The internals of `int.TryParse` and `IPAddress.TryParse` are left out: they are abstract parameters. So the model cannot say which text (for example "300.1.1.1") parses; it only says what happens once a line parsed or failed to.
- The 32-bit range of `int.TryParse` is not modelled: parsed integers are unbounded, and the range checks that follow decide acceptance either way.
- The outer `catch` of `Main` and the handler of the action loop are left out: no modelled step of theirs throws. The interface loop's handler is modelled, as the refusal `UnknownOrdinal`.
- The static fields that the source updates in place (`_bindingAddress`, `MulticastAddress`, `MulticastPort`, `TTL`) are modelled as a `Config` value passed from prompt to prompt, so aliasing of those fields is not captured.
- The endless re-prompting at end of input, in the interface and action prompts, is modelled as the result `Endless`/`Stuck`, not as a non-terminating loop.
