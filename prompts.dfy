/**
 * The prompt loops. Each reads operator lines until one is accepted; a refused line
 * changes nothing and leads to a fresh prompt. The operator's lines are a sequence;
 * once it is used up, `Console.ReadLine()` returns null, which the tool reads as "",
 * and a read at the end consumes nothing.
 */
module Prompts {
  import opened Wrappers
  import opened Net
  import opened Interfaces
  import opened Settings

  /** Which of the four configuration prompts is running. */
  datatype Prompt =
    | InterfacePrompt(table: map<int, Address>, count: int)
    | GroupPrompt
    | PortPrompt
    | TtlPrompt

  /** One line at prompt `p`. */
  function Step(p: Prompt, parsers: Parsers, cfg: Config, line: string): Outcome<Config> {
    match p
    case InterfacePrompt(table, count) => ChooseInterface(table, count, parsers.parseInt, cfg, line)
    case GroupPrompt => ChooseGroup(parsers.parseAddress, cfg, line)
    case PortPrompt => ChoosePort(parsers.parseInt, cfg, line)
    case TtlPrompt => ChooseTtl(parsers.parseInt, cfg, line)
  }

  /** `Console.ReadLine() ?? ""` at position k of the input. */
  function Line(inputs: seq<string>, k: nat): (line: string)
    requires k <= |inputs|
    ensures k == |inputs| ==> line == ""
    ensures line != "" ==> line in inputs
  {
    if k < |inputs| then inputs[k] else ""
  }

  /** The position after reading at k: past the end nothing is consumed. */
  function Next(inputs: seq<string>, k: nat): (next: nat)
    requires k <= |inputs|
    ensures k <= next <= |inputs|
    ensures next == k <==> k == |inputs|
  {
    if k < |inputs| then k + 1 else k
  }

  /**
   * How a prompt loop ends: a value accepted from the line at position `at`, or
   * Endless when even the empty line that end of input yields is refused, so that the
   * tool prompts forever.
   */
  datatype Reply<T> = Answered(value: T, at: nat) | Endless

  /** What the prompt loop for `p`, started at position pos, answers. */
  function FirstAccepted(p: Prompt, parsers: Parsers, cfg: Config, inputs: seq<string>, pos: nat): (r: Reply<Config>)
    requires pos <= |inputs|
    ensures r.Answered? ==> pos <= r.at <= |inputs|
    ensures r.Answered? ==> Step(p, parsers, cfg, Line(inputs, r.at)) == Accepted(r.value)
    decreases |inputs| - pos
  {
    match Step(p, parsers, cfg, Line(inputs, pos))
    case Accepted(c) => Answered(c, pos)
    case Rejected(_) => if pos == |inputs| then Endless else FirstAccepted(p, parsers, cfg, inputs, pos + 1)
  }

  /**
   * The loop stops at the FIRST accepted line: every line before it was refused, and
   * it ends Endless exactly when every line through the end of input is refused.
   */
  lemma {:induction false} FirstAcceptedIsFirst(p: Prompt, parsers: Parsers, cfg: Config, inputs: seq<string>, pos: nat)
    requires pos <= |inputs|
    ensures var r := FirstAccepted(p, parsers, cfg, inputs, pos);
      r.Answered? ==> forall j :: pos <= j < r.at ==> Step(p, parsers, cfg, Line(inputs, j)).Rejected?
    ensures FirstAccepted(p, parsers, cfg, inputs, pos).Endless? <==>
      forall j :: pos <= j <= |inputs| ==> Step(p, parsers, cfg, Line(inputs, j)).Rejected?
    decreases |inputs| - pos
  {
    if Step(p, parsers, cfg, Line(inputs, pos)).Rejected? && pos < |inputs| {
      FirstAcceptedIsFirst(p, parsers, cfg, inputs, pos + 1);
    }
  }

  /** A prompt that accepts the empty line always answers: end of input selects the current value. */
  lemma {:induction false} AnsweredWhenEmptyAccepted(p: Prompt, parsers: Parsers, cfg: Config, inputs: seq<string>, pos: nat)
    requires pos <= |inputs|
    requires Step(p, parsers, cfg, "").Accepted?
    ensures FirstAccepted(p, parsers, cfg, inputs, pos).Answered?
    decreases |inputs| - pos
  {
    if pos < |inputs| {
      AnsweredWhenEmptyAccepted(p, parsers, cfg, inputs, pos + 1);
    }
  }

  /**
   * The multicast-address, port and TTL prompts always answer, change only their own
   * field, and keep a valid configuration valid.
   */
  lemma ValuePromptsPreserveValid(p: Prompt, parsers: Parsers, cfg: Config, inputs: seq<string>, pos: nat)
    requires p.GroupPrompt? || p.PortPrompt? || p.TtlPrompt?
    requires pos <= |inputs| && Valid(cfg)
    ensures FirstAccepted(p, parsers, cfg, inputs, pos).Answered?
    ensures var c := FirstAccepted(p, parsers, cfg, inputs, pos).value;
      Valid(c) && c.binding == cfg.binding &&
      (p.GroupPrompt? ==> c.(group := cfg.group) == cfg) &&
      (p.PortPrompt? ==> c.(port := cfg.port) == cfg) &&
      (p.TtlPrompt? ==> c.(ttl := cfg.ttl) == cfg)
  {
    AnsweredWhenEmptyAccepted(p, parsers, cfg, inputs, pos);
  }

  /**
   * On a table whose keys are exactly 0 .. count - 1 the interface prompt accepts a
   * parsed ordinal n iff 0 <= n <= count - 1, the dictionary lookup never fails, and
   * the binding address becomes the table entry of the accepted ordinal.
   */
  lemma InterfacePromptResolves(table: map<int, Address>, count: int, parsers: Parsers, cfg: Config, line: string)
    requires KeysAreOrdinals(table, count)
    ensures Step(InterfacePrompt(table, count), parsers, cfg, line) != Rejected(UnknownOrdinal)
    ensures Step(InterfacePrompt(table, count), parsers, cfg, line).Accepted? <==>
      exists n :: parsers.parseInt(line) == Some(n) && 0 <= n < count
    ensures Step(InterfacePrompt(table, count), parsers, cfg, line).Accepted? ==>
      exists n :: 0 <= n < count && Step(InterfacePrompt(table, count), parsers, cfg, line).value == cfg.(binding := table[n])
  {
  }

  /** Entering the value that was just accepted again yields the same configuration. */
  lemma StepIdempotent(p: Prompt, parsers: Parsers, cfg: Config, line: string)
    requires Step(p, parsers, cfg, line).Accepted?
    ensures var c := Step(p, parsers, cfg, line).value;
      Step(p, parsers, c, line) == Accepted(c)
  {
  }

  /** The interface-selection loop; `selection` is -1 while no line has been accepted. */
  method SelectInterface(table: map<int, Address>, count: int, parsers: Parsers, cfg: Config,
                         inputs: seq<string>, pos: nat) returns (r: Reply<Config>)
    requires pos <= |inputs|
    ensures r == FirstAccepted(InterfacePrompt(table, count), parsers, cfg, inputs, pos)
  {
    ghost var p := InterfacePrompt(table, count);
    var k := pos;
    var selection := -1;
    r := Endless;
    while selection == -1
      invariant pos <= k <= |inputs|
      invariant selection == -1 ==> FirstAccepted(p, parsers, cfg, inputs, k) == FirstAccepted(p, parsers, cfg, inputs, pos)
      invariant selection != -1 ==> r == FirstAccepted(p, parsers, cfg, inputs, pos)
      decreases |inputs| - k + (if selection == -1 then 1 else 0)
    {
      var at := k;
      var input := Line(inputs, k);
      k := Next(inputs, k);
      match parsers.parseInt(input) {
        case None =>
          selection := -1;
        case Some(n) =>
          selection := n;
          if selection > count - 1 || selection < 0 {
            selection := -1;
          } else if selection in table {
            r := Answered(cfg.(binding := table[selection]), at);
          } else {
            // the lookup throws and the handler re-prompts
            selection := -1;
          }
      }
      if selection == -1 && at == |inputs| {
        // every further line is "" again and is refused again
        return Endless;
      }
    }
  }

  /** The multicast-address loop. */
  method PromptGroup(parsers: Parsers, cfg: Config, inputs: seq<string>, pos: nat) returns (r: Reply<Config>)
    requires pos <= |inputs|
    ensures r == FirstAccepted(GroupPrompt, parsers, cfg, inputs, pos)
  {
    var k := pos;
    while true
      invariant pos <= k <= |inputs|
      invariant FirstAccepted(GroupPrompt, parsers, cfg, inputs, k) == FirstAccepted(GroupPrompt, parsers, cfg, inputs, pos)
      decreases |inputs| - k
    {
      var at := k;
      var enteredMc := Line(inputs, k);
      k := Next(inputs, k);
      if enteredMc == "" {
        return Answered(cfg, at);
      }
      var parsed := parsers.parseAddress(enteredMc);
      if parsed.Some? {
        if IsMulticast(parsed.value) {
          return Answered(cfg.(group := parsed.value), at);
        }
      }
    }
  }

  /** The port loop. */
  method PromptPort(parsers: Parsers, cfg: Config, inputs: seq<string>, pos: nat) returns (r: Reply<Config>)
    requires pos <= |inputs|
    ensures r == FirstAccepted(PortPrompt, parsers, cfg, inputs, pos)
  {
    var k := pos;
    while true
      invariant pos <= k <= |inputs|
      invariant FirstAccepted(PortPrompt, parsers, cfg, inputs, k) == FirstAccepted(PortPrompt, parsers, cfg, inputs, pos)
      decreases |inputs| - k
    {
      var at := k;
      var enteredPortString := Line(inputs, k);
      k := Next(inputs, k);
      if enteredPortString == "" {
        return Answered(cfg, at);
      }
      var parsed := parsers.parseInt(enteredPortString);
      if parsed.None? {
        continue;
      }
      var enteredPort := parsed.value;
      if enteredPort < 1 || enteredPort > 65535 {
        continue;
      }
      return Answered(cfg.(port := enteredPort), at);
    }
  }

  /** The TTL loop. */
  method PromptTtl(parsers: Parsers, cfg: Config, inputs: seq<string>, pos: nat) returns (r: Reply<Config>)
    requires pos <= |inputs|
    ensures r == FirstAccepted(TtlPrompt, parsers, cfg, inputs, pos)
  {
    var k := pos;
    while true
      invariant pos <= k <= |inputs|
      invariant FirstAccepted(TtlPrompt, parsers, cfg, inputs, k) == FirstAccepted(TtlPrompt, parsers, cfg, inputs, pos)
      decreases |inputs| - k
    {
      var at := k;
      var enteredTtlString := Line(inputs, k);
      k := Next(inputs, k);
      if enteredTtlString == "" {
        return Answered(cfg, at);
      }
      var parsed := parsers.parseInt(enteredTtlString);
      if parsed.None? {
        continue;
      }
      var enteredTtl := parsed.value;
      if enteredTtl < 1 || enteredTtl > 255 {
        continue;
      }
      return Answered(cfg.(ttl := enteredTtl), at);
    }
  }

  /** What the action loop, started at position pos, answers. */
  function FirstAction(parseInt: string -> Option<int>, inputs: seq<string>, pos: nat): (r: Reply<Action>)
    requires pos <= |inputs|
    ensures r.Answered? ==> pos <= r.at <= |inputs|
    ensures r.Answered? ==> r.value != Invalid && r.value == ActionOf(parseInt(Line(inputs, r.at)))
    decreases |inputs| - pos
  {
    var action := ActionOf(parseInt(Line(inputs, pos)));
    if action != Invalid then Answered(action, pos)
    else if pos == |inputs| then Endless
    else FirstAction(parseInt, inputs, pos + 1)
  }

  /** Every line before the chosen action is invalid; Endless iff all lines through end of input are. */
  lemma {:induction false} FirstActionIsFirst(parseInt: string -> Option<int>, inputs: seq<string>, pos: nat)
    requires pos <= |inputs|
    ensures var r := FirstAction(parseInt, inputs, pos);
      r.Answered? ==> forall j :: pos <= j < r.at ==> ActionOf(parseInt(Line(inputs, j))) == Invalid
    ensures FirstAction(parseInt, inputs, pos).Endless? <==>
      forall j :: pos <= j <= |inputs| ==> ActionOf(parseInt(Line(inputs, j))) == Invalid
    decreases |inputs| - pos
  {
    if ActionOf(parseInt(Line(inputs, pos))) == Invalid && pos < |inputs| {
      FirstActionIsFirst(parseInt, inputs, pos + 1);
    }
  }

  /**
   * The action loop: 9 exits, 1 runs the sender and 2 the listener (after either the
   * loop ends, since `selection` is no longer -1); anything else resets `selection`
   * to -1 and prompts again.
   */
  method SelectAction(parseInt: string -> Option<int>, inputs: seq<string>, pos: nat) returns (r: Reply<Action>)
    requires pos <= |inputs|
    ensures r == FirstAction(parseInt, inputs, pos)
  {
    var k := pos;
    var selection := -1;
    r := Endless;
    while selection == -1
      invariant pos <= k <= |inputs|
      invariant selection == -1 ==> FirstAction(parseInt, inputs, k) == FirstAction(parseInt, inputs, pos)
      invariant selection != -1 ==> r == FirstAction(parseInt, inputs, pos)
      decreases |inputs| - k + (if selection == -1 then 1 else 0)
    {
      var at := k;
      var actionInput := Line(inputs, k);
      k := Next(inputs, k);
      match parseInt(actionInput) {
        case None =>
          selection := -1;
        case Some(n) =>
          selection := n;
          if selection == 9 {
            return Answered(Exit, at);
          } else if selection == 1 {
            r := Answered(Sender, at);
          } else if selection == 2 {
            r := Answered(Listener, at);
          } else {
            selection := -1;
          }
      }
      if selection == -1 && at == |inputs| {
        return Endless;
      }
    }
  }
}
