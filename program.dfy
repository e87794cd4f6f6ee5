/**
 * The configuration phase of `Main`, end to end: build the ordinal table, then run the
 * interface, multicast-address, port, TTL and action prompts in that order over one
 * stream of operator lines, starting from the default field values.
 */
module Program {
  import opened Wrappers
  import opened Net
  import opened Interfaces
  import opened Settings
  import opened Prompts

  /**
   * The four configuration prompts in order, each starting where the previous one
   * stopped reading: the interface prompt from the defaults at position 0, then the
   * multicast-address, port and TTL prompts. It answers with the final configuration
   * and the position of the line the TTL prompt accepted.
   */
  function ConfigPhase(table: map<int, Address>, count: int, parsers: Parsers, inputs: seq<string>): (r: Reply<Config>)
    ensures r.Endless? <==> FirstAccepted(InterfacePrompt(table, count), parsers, Defaults(), inputs, 0).Endless?
    ensures r.Answered? ==> r.at <= |inputs| && Valid(r.value)
    ensures r.Answered? ==> exists n :: 0 <= n < count && n in table && table[n] == r.value.binding
  {
    match FirstAccepted(InterfacePrompt(table, count), parsers, Defaults(), inputs, 0)
    case Endless => Endless
    case Answered(chosen, at) =>
      var groupAt := Next(inputs, at);
      ValuePromptsPreserveValid(GroupPrompt, parsers, chosen, inputs, groupAt);
      var group := FirstAccepted(GroupPrompt, parsers, chosen, inputs, groupAt);
      var portAt := Next(inputs, group.at);
      ValuePromptsPreserveValid(PortPrompt, parsers, group.value, inputs, portAt);
      var port := FirstAccepted(PortPrompt, parsers, group.value, inputs, portAt);
      var ttlAt := Next(inputs, port.at);
      ValuePromptsPreserveValid(TtlPrompt, parsers, port.value, inputs, ttlAt);
      FirstAccepted(TtlPrompt, parsers, port.value, inputs, ttlAt)
  }

  /**
   * Started: the configuration is complete and the operator chose an action.
   * Stuck: the interface or action prompt refuses every remaining line, including
   * the empty ones end of input yields, so the tool prompts forever.
   */
  datatype Run = Started(table: map<int, Address>, config: Config, action: Action) | Stuck

  method Configure(ifaces: seq<NetworkInterface>, parsers: Parsers, inputs: seq<string>) returns (r: Run)
    ensures r.Started? ==> r.table == TableOf(Listed(ifaces))
    ensures r.Started? ==> KeysAreOrdinals(r.table, |Listed(ifaces)| + 1) && r.table[0] == Any
    ensures r.Started? ==> forall k :: 1 <= k <= |Listed(ifaces)| ==> r.table[k] == Listed(ifaces)[k - 1]
    ensures var phase := ConfigPhase(TableOf(Listed(ifaces)), |Listed(ifaces)| + 1, parsers, inputs);
      r.Stuck? <==> phase.Endless? || FirstAction(parsers.parseInt, inputs, Next(inputs, phase.at)).Endless?
    ensures var phase := ConfigPhase(TableOf(Listed(ifaces)), |Listed(ifaces)| + 1, parsers, inputs);
      r.Started? ==>
        phase.Answered? && r.config == phase.value &&
        r.action == FirstAction(parsers.parseInt, inputs, Next(inputs, phase.at)).value
    ensures r.Started? ==> exists n :: 0 <= n <= |Listed(ifaces)| && r.table[n] == r.config.binding
    ensures r.Started? ==> Valid(r.config)
    ensures r.Started? ==> r.action in {Exit, Sender, Listener}
  {
    var table, i := BuildTable(ifaces);
    var cfg := Defaults();

    var reply := SelectInterface(table, i, parsers, cfg, inputs, 0);
    if reply.Endless? {
      return Stuck;
    }
    cfg := reply.value;
    var pos := Next(inputs, reply.at);

    ValuePromptsPreserveValid(GroupPrompt, parsers, cfg, inputs, pos);
    reply := PromptGroup(parsers, cfg, inputs, pos);
    cfg := reply.value;
    pos := Next(inputs, reply.at);

    ValuePromptsPreserveValid(PortPrompt, parsers, cfg, inputs, pos);
    reply := PromptPort(parsers, cfg, inputs, pos);
    cfg := reply.value;
    pos := Next(inputs, reply.at);

    ValuePromptsPreserveValid(TtlPrompt, parsers, cfg, inputs, pos);
    reply := PromptTtl(parsers, cfg, inputs, pos);
    cfg := reply.value;
    pos := Next(inputs, reply.at);

    var action := SelectAction(parsers.parseInt, inputs, pos);
    if action.Endless? {
      return Stuck;
    }
    return Started(table, cfg, action.value);
  }
}
