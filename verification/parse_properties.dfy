/**
 * Behaviour of the option parser on particular shapes of argument arrays:
 * the defaults, what one option does, how options combine, and when the
 * parse is aborted.
 */
module ParseProperties {
  import opened Wrappers
  import opened JavaInt
  import opened MiniClusterArgs
  import opened ParseLemmas

  /** The loop over the tail of an array does not depend on the tokens before it. */
  lemma {:induction false} RunShift(pre: seq<string>, args: seq<string>, i: nat, cfg: Settings)
    requires i <= |args|
    ensures Run(pre + args, |pre| + i, cfg) == Run(args, i, cfg)
    decreases |args| - i
  {
    if i < |args| {
      var p := pre + args;
      assert p[|pre| + i] == args[i];
      if i + 1 < |args| {
        assert p[|pre| + i + 1] == args[i + 1];
      }
      if args[i] != HELP_FLAG {
        match FlagOf(args[i])
        case None =>
          RunShift(pre, args, i + 1, cfg);
        case Some(f) =>
          if i + 1 < |args| {
            if ParseInt(args[i + 1]).Some? {
              RunShift(pre, args, i + 2, cfg.With(f, ParseInt(args[i + 1]).value));
            }
          } else {
            RunShift(pre, args, i + 1, cfg);
          }
      }
    }
  }

  /**
   * Help and a bad number are decided by the tokens read so far: appending
   * tokens after them changes nothing, so nothing after "--help" is examined.
   */
  lemma {:induction false} StopIsFinal(args: seq<string>, rest: seq<string>, i: nat, cfg: Settings)
    requires i <= |args|
    requires !Run(args, i, cfg).Parsed?
    ensures Run(args + rest, i, cfg) == Run(args, i, cfg)
    decreases |args| - i
  {
    var p := args + rest;
    assert p[i] == args[i];
    if i + 1 < |args| {
      assert p[i + 1] == args[i + 1];
    }
    if args[i] != HELP_FLAG {
      match FlagOf(args[i])
      case None =>
        StopIsFinal(args, rest, i + 1, cfg);
      case Some(f) =>
        if ParseInt(args[i + 1]).Some? {
          StopIsFinal(args, rest, i + 2, cfg.With(f, ParseInt(args[i + 1]).value));
        }
    }
  }

  /**
   * Parsing a + b, when the loop reaches the first token of b as an option,
   * is parsing a and then, if that gave a configuration, parsing b from it.
   */
  lemma {:induction false} RunAppend(a: seq<string>, b: seq<string>, i: nat, cfg: Settings)
    requires i <= |a|
    requires i == |a| || |a| in Heads(a + b, i)
    ensures Run(a + b, i, cfg) == match Run(a, i, cfg) case Parsed(c) => Run(b, 0, c) case other => other
    decreases |a| - i
  {
    var p := a + b;
    if i == |a| {
      RunShift(a, b, 0, cfg);
    } else {
      assert p[i] == a[i];
      var n := Next(p, i);
      assert Heads(p, i) == [i] + Heads(p, n);
      assert |a| in Heads(p, n);
      assert n <= |a|;
      if TakesValue(p, i) {
        assert p[i + 1] == a[i + 1];
      }
      assert TakesValue(p, i) <==> TakesValue(a, i);
      if !Stops(a, i) {
        RunStep(a, i, cfg);
        RunStep(p, i, cfg);
        assert StepConfig(p, i, cfg) == StepConfig(a, i, cfg);
        RunAppend(a, b, n, StepConfig(a, i, cfg));
      }
    }
  }

  /** An array of tokens that are not options leaves every field at its starting value. */
  lemma {:induction false} OnlyUnknownTokens(args: seq<string>, i: nat, cfg: Settings)
    requires i <= |args|
    requires forall k :: i <= k < |args| ==> FlagOf(args[k]).None? && args[k] != HELP_FLAG
    ensures Run(args, i, cfg) == Parsed(cfg)
    decreases |args| - i
  {
    if i < |args| {
      OnlyUnknownTokens(args, i + 1, cfg);
    }
  }

  /** With no recognised option the result is parallelism 2, task slots 2, gateway port 8083. */
  lemma NoOptionsGivesDefaults(args: seq<string>)
    requires forall k :: 0 <= k < |args| ==> FlagOf(args[k]).None? && args[k] != HELP_FLAG
    ensures Parse(args) == Parsed(Settings(2, 2, 8083))
  {
    OnlyUnknownTokens(args, 0, DEFAULTS);
  }

  /** A token that is not an option is skipped and has no effect. */
  lemma UnknownTokenIgnored(u: string, args: seq<string>, cfg: Settings)
    requires FlagOf(u).None? && u != HELP_FLAG
    ensures Run([u] + args, 0, cfg) == Run(args, 0, cfg)
  {
    RunShift([u], args, 0, cfg);
  }

  /** "--help" as the first token ends parsing with the help outcome, whatever follows. */
  lemma HelpEndsParsing(args: seq<string>, cfg: Settings)
    ensures Run([HELP_FLAG] + args, 0, cfg) == Help
  {
  }

  /**
   * A value option followed by a token sets its field to that token's int
   * value, leaving the other fields as they were, and parsing goes on after
   * the token; a token that is not an int aborts the parse.
   */
  lemma FlagSetsField(f: Field, tok: string, args: seq<string>, cfg: Settings)
    ensures Run([FlagName(f), tok] + args, 0, cfg) ==
      match ParseInt(tok)
      case None => BadNumber(tok)
      case Some(v) => Run(args, 0, cfg.With(f, v))
  {
    var p := [FlagName(f), tok] + args;
    assert p[0] == FlagName(f) && p[1] == tok;
    assert FlagOf(FlagName(f)) == Some(f) by {
      match f
      case Parallelism =>
      case TaskSlots =>
      case GatewayPort =>
    }
    match ParseInt(tok)
    case None =>
    case Some(v) =>
      RunShift([FlagName(f), tok], args, 0, cfg.With(f, v));
  }

  /** No option name is a Java int. */
  lemma OptionIsNotAnInt(tok: string)
    requires tok == HELP_FLAG || FlagOf(tok).Some?
    ensures ParseInt(tok) == None
  {
    assert tok[1] == '-';
    ParseIntRejectsNonDigit(tok, 1);
  }

  /**
   * The token after a value option is consumed as its value even when it is
   * itself an option: "--parallelism --taskslots" fails on "--taskslots"
   * rather than reading it as an option.
   */
  lemma ValueTokenNotReadAsFlag(f: Field, tok: string, args: seq<string>, cfg: Settings)
    requires tok == HELP_FLAG || FlagOf(tok).Some?
    ensures Run([FlagName(f), tok] + args, 0, cfg) == BadNumber(tok)
  {
    OptionIsNotAnInt(tok);
    FlagSetsField(f, tok, args, cfg);
  }

  /**
   * A value option that is the last token, and is examined as an option
   * rather than consumed as a value, is ignored: parsing ends as it would
   * have without it.
   */
  lemma DanglingFlagIgnored(pre: seq<string>, f: Field, cfg: Settings)
    requires |pre| in Heads(pre + [FlagName(f)], 0)
    ensures Run(pre + [FlagName(f)], 0, cfg) == Run(pre, 0, cfg)
  {
    RunAppend(pre, [FlagName(f)], 0, cfg);
    assert FlagOf(FlagName(f)).Some? by {
      match f
      case Parallelism =>
      case TaskSlots =>
      case GatewayPort =>
    }
  }

  /** Setting a field twice keeps the second value. */
  lemma WithTwice(cfg: Settings, f: Field, v: Int32, w: Int32)
    ensures cfg.With(f, v).With(f, w) == cfg.With(f, w)
  {
  }

  /** When an option is given twice, the second occurrence wins. */
  lemma RepeatedFlagLastWins(f: Field, a: string, b: string, va: Int32, vb: Int32, cfg: Settings)
    requires ParseInt(a) == Some(va) && ParseInt(b) == Some(vb)
    ensures Run([FlagName(f), a, FlagName(f), b], 0, cfg) == Parsed(cfg.With(f, vb))
  {
    assert [FlagName(f), a, FlagName(f), b] == [FlagName(f), a] + [FlagName(f), b];
    FlagSetsField(f, a, [FlagName(f), b], cfg);
    assert [FlagName(f), b] == [FlagName(f), b] + [];
    FlagSetsField(f, b, [], cfg.With(f, va));
    WithTwice(cfg, f, va, vb);
  }

  /**
   * Every int is accepted as given, zero and negative numbers included: no
   * range is checked beyond the int range itself.
   */
  lemma AnyIntAccepted(f: Field, n: Int32, cfg: Settings)
    ensures Run([FlagName(f), ToDecimal(n)], 0, cfg) == Parsed(cfg.With(f, n))
  {
    ParseIntOfToDecimal(n);
    assert [FlagName(f), ToDecimal(n)] == [FlagName(f), ToDecimal(n)] + [];
    FlagSetsField(f, ToDecimal(n), [], cfg);
  }

  /** A value outside the int range aborts the whole parse instead of falling back to a default. */
  lemma OutOfRangeAborts(f: Field, n: int, args: seq<string>, cfg: Settings)
    requires n < MIN_VALUE || n > MAX_VALUE
    ensures Run([FlagName(f), ToDecimal(n)] + args, 0, cfg) == BadNumber(ToDecimal(n))
  {
    ParseIntOfToDecimal(n);
    FlagSetsField(f, ToDecimal(n), args, cfg);
  }
}
