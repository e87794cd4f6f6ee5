/**
 * The session configuration the prompts fill in, and the check applied to one line of
 * operator input at each prompt.
 */
module Settings {
  import opened Wrappers
  import opened Net

  /** The static fields `_bindingAddress`, `MulticastAddress`, `MulticastPort` and `TTL`. */
  datatype Config = Config(binding: Address, group: Address, port: int, ttl: int)

  const DefaultGroup: Address := [239, 0, 1, 2]
  const DefaultPort := 20480
  const DefaultTtl := 128

  /** The values the fields hold before any prompt: valid from the start. */
  function Defaults(): (c: Config)
    ensures c.binding == Any
    ensures Valid(c)
  {
    Config(Any, DefaultGroup, DefaultPort, DefaultTtl)
  }

  predicate PortInRange(p: int) { 1 <= p <= 65535 }
  predicate TtlInRange(t: int) { 1 <= t <= 255 }

  /** What the validated prompts guarantee about the configuration. */
  predicate Valid(c: Config) {
    IsMulticast(c.group) && PortInRange(c.port) && TtlInRange(c.ttl)
  }

  /**
   * The library parsers `int.TryParse` and `IPAddress.TryParse`, kept abstract: each
   * either yields a value or reports that the text does not parse.
   */
  datatype Parsers = Parsers(parseInt: string -> Option<int>, parseAddress: string -> Option<Address>)

  /** Why a line was refused; every refusal leads to a fresh prompt. */
  datatype Rejection = NotANumber | OutOfRange | UnknownOrdinal | NotAnAddress | NotMulticastRange

  datatype Outcome<T> = Accepted(value: T) | Rejected(reason: Rejection)

  /**
   * One line at the interface prompt. A number outside [0, count - 1] is refused; an
   * ordinal inside the range that the table lacks makes the dictionary lookup throw,
   * and the handler refuses the line too.
   */
  function ChooseInterface(table: map<int, Address>, count: int, parseInt: string -> Option<int>,
                           cfg: Config, line: string): (o: Outcome<Config>)
    ensures o.Accepted? <==> exists n :: parseInt(line) == Some(n) && 0 <= n < count && n in table
    ensures o.Accepted? ==> o.value == cfg.(binding := table[parseInt(line).value])
    ensures o == Rejected(NotANumber) <==> parseInt(line) == None
    ensures o == Rejected(OutOfRange) <==> exists n :: parseInt(line) == Some(n) && !(0 <= n < count)
  {
    match parseInt(line)
    case None => Rejected(NotANumber)
    case Some(selection) =>
      if selection > count - 1 || selection < 0 then Rejected(OutOfRange)
      else if selection in table then Accepted(cfg.(binding := table[selection]))
      else Rejected(UnknownOrdinal)
  }

  /**
   * One line at the multicast-address prompt: an empty line keeps the current group;
   * otherwise only an address that parses and passes IsMulticast replaces it.
   */
  function ChooseGroup(parseAddress: string -> Option<Address>, cfg: Config, line: string): (o: Outcome<Config>)
    ensures line == "" ==> o == Accepted(cfg)
    ensures line != "" ==>
      (o.Accepted? <==> exists a :: parseAddress(line) == Some(a) && IsMulticast(a))
    ensures line != "" && o.Accepted? ==> o.value == cfg.(group := parseAddress(line).value)
    ensures o == Rejected(NotAnAddress) <==> line != "" && parseAddress(line) == None
    ensures o.Rejected? ==> o.reason in {NotAnAddress, NotMulticastRange}
    ensures IsMulticast(cfg.group) && o.Accepted? ==> IsMulticast(o.value.group)
  {
    if line == "" then Accepted(cfg)
    else match parseAddress(line)
      case None => Rejected(NotAnAddress)
      case Some(multicastAddress) =>
        if IsMulticast(multicastAddress) then Accepted(cfg.(group := multicastAddress))
        else Rejected(NotMulticastRange)
  }

  /**
   * One line at the port prompt: an empty line keeps the current port; otherwise only
   * an integer in [1, 65535] replaces it.
   */
  function ChoosePort(parseInt: string -> Option<int>, cfg: Config, line: string): (o: Outcome<Config>)
    ensures line == "" ==> o == Accepted(cfg)
    ensures line != "" ==> (o.Accepted? <==> exists p :: parseInt(line) == Some(p) && PortInRange(p))
    ensures line != "" && o.Accepted? ==> o.value == cfg.(port := parseInt(line).value)
    ensures o == Rejected(NotANumber) <==> line != "" && parseInt(line) == None
    ensures o.Rejected? ==> o.reason in {NotANumber, OutOfRange}
    ensures PortInRange(cfg.port) && o.Accepted? ==> PortInRange(o.value.port)
  {
    if line == "" then Accepted(cfg)
    else match parseInt(line)
      case None => Rejected(NotANumber)
      case Some(enteredPort) =>
        if enteredPort < 1 || enteredPort > 65535 then Rejected(OutOfRange)
        else Accepted(cfg.(port := enteredPort))
  }

  /**
   * One line at the TTL prompt: an empty line keeps the current TTL; otherwise only an
   * integer in [1, 255] replaces it.
   */
  function ChooseTtl(parseInt: string -> Option<int>, cfg: Config, line: string): (o: Outcome<Config>)
    ensures line == "" ==> o == Accepted(cfg)
    ensures line != "" ==> (o.Accepted? <==> exists t :: parseInt(line) == Some(t) && TtlInRange(t))
    ensures line != "" && o.Accepted? ==> o.value == cfg.(ttl := parseInt(line).value)
    ensures o == Rejected(NotANumber) <==> line != "" && parseInt(line) == None
    ensures o.Rejected? ==> o.reason in {NotANumber, OutOfRange}
    ensures TtlInRange(cfg.ttl) && o.Accepted? ==> TtlInRange(o.value.ttl)
  {
    if line == "" then Accepted(cfg)
    else match parseInt(line)
      case None => Rejected(NotANumber)
      case Some(enteredTtl) =>
        if enteredTtl < 1 || enteredTtl > 255 then Rejected(OutOfRange)
        else Accepted(cfg.(ttl := enteredTtl))
  }

  /** The actions offered once the configuration is complete. */
  datatype Action = Exit | Sender | Listener | Invalid

  /** The switch on the parsed action number: 9 exits, 1 sends, 2 listens, anything else is invalid. */
  function ActionOf(parsed: Option<int>): (a: Action)
    ensures a == Exit <==> parsed == Some(9)
    ensures a == Sender <==> parsed == Some(1)
    ensures a == Listener <==> parsed == Some(2)
    ensures a == Invalid <==> parsed !in {Some(1), Some(2), Some(9)}
  {
    match parsed
    case None => Invalid
    case Some(selection) =>
      if selection == 9 then Exit
      else if selection == 1 then Sender
      else if selection == 2 then Listener
      else Invalid
  }
}
