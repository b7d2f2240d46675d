/**
 * The command-line option parser of the MiniCluster runner (parseArgs).
 *
 * The parser walks the argument array with an index. "--parallelism",
 * "--taskslots" and "--gateway-port" each take the next token as a decimal
 * int and store it in the configuration; "--help" ends the program with the
 * usage text; every other token is skipped. A value flag that is the last
 * token is ignored, and a value token that is not a Java int aborts the whole
 * parse with the NumberFormatException of Integer.parseInt.
 */
module MiniClusterArgs {
  import opened Wrappers
  import opened JavaInt

  const DEFAULT_PARALLELISM: Int32 := 2
  const DEFAULT_TASK_SLOTS: Int32 := 2
  const DEFAULT_GATEWAY_PORT: Int32 := 8083

  const HELP_FLAG: string := "--help"

  /** The configuration fields an option can set. */
  datatype Field = Parallelism | TaskSlots | GatewayPort

  /** The option that sets each field. */
  function FlagName(f: Field): string {
    match f
    case Parallelism => "--parallelism"
    case TaskSlots => "--taskslots"
    case GatewayPort => "--gateway-port"
  }

  /** The field a token sets when it is one of the three value options. */
  function FlagOf(arg: string): (r: Option<Field>)
    ensures r.Some? ==> FlagName(r.value) == arg
    ensures r.None? ==> forall f: Field :: FlagName(f) != arg
  {
    if arg == "--parallelism" then Some(Parallelism)
    else if arg == "--taskslots" then Some(TaskSlots)
    else if arg == "--gateway-port" then Some(GatewayPort)
    else None
  }

  /** The value of a Config object: its three int fields. */
  datatype Settings = Settings(parallelism: Int32, taskSlots: Int32, gatewayPort: Int32) {
    function Get(f: Field): Int32 {
      match f
      case Parallelism => parallelism
      case TaskSlots => taskSlots
      case GatewayPort => gatewayPort
    }

    /** This configuration with field f set to v and the others unchanged. */
    function With(f: Field, v: Int32): (r: Settings)
      ensures r.Get(f) == v
      ensures forall g: Field :: g != f ==> r.Get(g) == Get(g)
    {
      match f
      case Parallelism => this.(parallelism := v)
      case TaskSlots => this.(taskSlots := v)
      case GatewayPort => this.(gatewayPort := v)
    }
  }

  const DEFAULTS: Settings := Settings(DEFAULT_PARALLELISM, DEFAULT_TASK_SLOTS, DEFAULT_GATEWAY_PORT)

  /**
   * How parsing ends: with a configuration, with the help text (printHelp
   * followed by System.exit(0)), or with the NumberFormatException raised for
   * the given value token.
   */
  datatype Outcome = Parsed(config: Settings) | Help | BadNumber(token: string)

  /** The mutable configuration record the parser fills in. */
  class Config {
    var parallelism: Int32
    var taskSlots: Int32
    var gatewayPort: Int32

    constructor ()
      ensures Value() == DEFAULTS
    {
      parallelism := DEFAULT_PARALLELISM;
      taskSlots := DEFAULT_TASK_SLOTS;
      gatewayPort := DEFAULT_GATEWAY_PORT;
    }

    function Value(): Settings
      reads this
    {
      Settings(parallelism, taskSlots, gatewayPort)
    }
  }

  /** The outcome of the option loop entered at index i with the configuration cfg. */
  function Run(args: seq<string>, i: nat, cfg: Settings): Outcome
    decreases |args| - i
  {
    if i >= |args| then Parsed(cfg)
    else if args[i] == HELP_FLAG then Help
    else
      match FlagOf(args[i])
      case None => Run(args, i + 1, cfg)
      case Some(f) =>
        if i + 1 < |args| then
          match ParseInt(args[i + 1])
          case None => BadNumber(args[i + 1])
          case Some(v) => Run(args, i + 2, cfg.With(f, v))
        else Run(args, i + 1, cfg)
  }

  /** The outcome of parseArgs on the whole argument array. */
  function Parse(args: seq<string>): Outcome {
    Run(args, 0, DEFAULTS)
  }

  /** parseArgs: the loop over the arguments, filling in a fresh Config object. */
  method ParseArgs(args: seq<string>) returns (r: Outcome)
    ensures r == Parse(args)
  {
    var config := new Config();
    var i := 0;
    while i < |args|
      invariant 0 <= i <= |args|
      invariant Run(args, i, config.Value()) == Parse(args)
      decreases |args| - i
    {
      if args[i] == "--parallelism" {
        if i + 1 < |args| {
          i := i + 1;
          var n := ParseInt(args[i]);
          if n.None? {
            return BadNumber(args[i]);
          }
          config.parallelism := n.value;
        }
      } else if args[i] == "--taskslots" {
        if i + 1 < |args| {
          i := i + 1;
          var n := ParseInt(args[i]);
          if n.None? {
            return BadNumber(args[i]);
          }
          config.taskSlots := n.value;
        }
      } else if args[i] == "--gateway-port" {
        if i + 1 < |args| {
          i := i + 1;
          var n := ParseInt(args[i]);
          if n.None? {
            return BadNumber(args[i]);
          }
          config.gatewayPort := n.value;
        }
      } else if args[i] == "--help" {
        return Help;
      }
      i := i + 1;
    }
    return Parsed(config.Value());
  }
}
