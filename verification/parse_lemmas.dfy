/**
 * Properties of the option parser: which tokens the loop examines as
 * options, when it stops, and which value each field ends up with.
 */
module ParseLemmas {
  import opened Wrappers
  import opened JavaInt
  import opened MiniClusterArgs

  /** The token at i is a value option and has a token after it to consume. */
  predicate TakesValue(args: seq<string>, i: nat) {
    i + 1 < |args| && FlagOf(args[i]).Some?
  }

  /** The option examined at i sets field f from the token after it. */
  predicate Assigns(args: seq<string>, i: nat, f: Field) {
    TakesValue(args, i) && FlagOf(args[i]) == Some(f)
  }

  /** Examining the token at i ends the loop: "--help", or a value that is not an int. */
  predicate Stops(args: seq<string>, i: nat) {
    i < |args| &&
    (args[i] == HELP_FLAG || (TakesValue(args, i) && ParseInt(args[i + 1]).None?))
  }

  /** The index the loop moves to after examining the token at i. */
  function Next(args: seq<string>, i: nat): (j: nat)
    requires i < |args|
    ensures i < j <= i + 2 && j <= |args|
  {
    if TakesValue(args, i) then i + 2 else i + 1
  }

  /**
   * The indices the loop examines as options from i on, when nothing stops
   * it; they lie within the array and the first is i.
   */
  function Heads(args: seq<string>, i: nat): (h: seq<nat>)
    ensures forall k :: 0 <= k < |h| ==> i <= h[k] < |args|
    ensures |h| > 0 <==> i < |args|
    ensures |h| > 0 ==> h[0] == i
    decreases |args| - i
  {
    if i >= |args| then [] else [i] + Heads(args, Next(args, i))
  }

  /** No option before position k of the heads stops the loop. */
  predicate ClearBefore(args: seq<string>, h: seq<nat>, k: nat)
    requires k <= |h|
  {
    forall j :: 0 <= j < k ==> !Stops(args, h[j])
  }

  /** No option from position k of the heads on sets field f. */
  predicate NoneAssignFrom(args: seq<string>, h: seq<nat>, k: nat, f: Field) {
    forall l :: k <= l < |h| ==> !Assigns(args, h[l], f)
  }

  /** ClearBefore over heads i, t equals the first head not stopping and ClearBefore over t. */
  lemma ClearBeforeCons(args: seq<string>, x: nat, t: seq<nat>, k: nat)
    requires k <= |t|
    ensures ClearBefore(args, [x] + t, k + 1) <==> !Stops(args, x) && ClearBefore(args, t, k)
  {
    var h := [x] + t;
    if !Stops(args, x) && ClearBefore(args, t, k) {
      forall j | 0 <= j < k + 1 ensures !Stops(args, h[j]) {
        if j > 0 { assert h[j] == t[j - 1]; }
      }
    }
    if ClearBefore(args, h, k + 1) {
      assert !Stops(args, h[0]);
      forall j | 0 <= j < k ensures !Stops(args, t[j]) {
        assert t[j] == h[j + 1];
      }
    }
  }

  /** NoneAssignFrom over heads x, t from k + 1 equals NoneAssignFrom over t from k. */
  lemma NoneAssignFromCons(args: seq<string>, x: nat, t: seq<nat>, k: nat, f: Field)
    ensures NoneAssignFrom(args, [x] + t, k + 1, f) <==> NoneAssignFrom(args, t, k, f)
    ensures NoneAssignFrom(args, [x] + t, 0, f) <==> !Assigns(args, x, f) && NoneAssignFrom(args, t, 0, f)
  {
    var h := [x] + t;
    if NoneAssignFrom(args, t, k, f) {
      forall l | k + 1 <= l < |h| ensures !Assigns(args, h[l], f) {
        assert h[l] == t[l - 1];
      }
    }
    if NoneAssignFrom(args, h, k + 1, f) {
      forall l | k <= l < |t| ensures !Assigns(args, t[l], f) {
        assert t[l] == h[l + 1];
      }
    }
    if !Assigns(args, x, f) && NoneAssignFrom(args, t, 0, f) {
      forall l | 0 <= l < |h| ensures !Assigns(args, h[l], f) {
        if l > 0 { assert h[l] == t[l - 1]; }
      }
    }
    if NoneAssignFrom(args, h, 0, f) {
      assert !Assigns(args, h[0], f);
      forall l | 0 <= l < |t| ensures !Assigns(args, t[l], f) {
        assert t[l] == h[l + 1];
      }
    }
  }

  /**
   * The loop's index moves from one examined option to the next by Next, one
   * or two places, and leaves the loop exactly at the end of the array.
   */
  lemma {:induction false} HeadsSteps(args: seq<string>, i: nat)
    requires i <= |args|
    ensures var h := Heads(args, i);
      (|h| > 0 ==> Next(args, h[|h| - 1]) == |args|) &&
      (forall k :: 0 <= k < |h| - 1 ==> h[k + 1] == Next(args, h[k]))
    decreases |args| - i
  {
    if i < |args| {
      HeadsSteps(args, Next(args, i));
      var h := Heads(args, i);
      var t := Heads(args, Next(args, i));
      assert h == [i] + t;
      forall k | 0 <= k < |h| - 1 ensures h[k + 1] == Next(args, h[k]) {
        if k > 0 {
          assert h[k] == t[k - 1] && h[k + 1] == t[k];
        }
      }
    }
  }

  /** The token at j is consumed as the value of an examined option just before it. */
  predicate ConsumedAsValue(args: seq<string>, h: seq<nat>, j: int) {
    0 < j && j - 1 in h && TakesValue(args, j - 1)
  }

  /**
   * Every token is either examined as an option or consumed as the value of
   * the option before it, never both, so a value token is never read as an
   * option.
   */
  lemma {:induction false} HeadsCover(args: seq<string>, i: nat)
    requires i <= |args|
    ensures forall j :: i <= j < |args| ==>
      ((j in Heads(args, i)) <==> !ConsumedAsValue(args, Heads(args, i), j))
    decreases |args| - i
  {
    if i < |args| {
      var n := Next(args, i);
      HeadsCover(args, n);
      var h := Heads(args, i);
      var t := Heads(args, n);
      assert h == [i] + t;
      forall j | i <= j < |args|
        ensures (j in h) <==> !ConsumedAsValue(args, h, j)
      {
        if j == i {
          assert h[0] == i;
          assert j - 1 !in h;
        } else if j < n {
          assert j == i + 1 && n == i + 2;
          assert j !in t;
          assert j - 1 in h;
        } else {
          assert (j in h) <==> (j in t);
          if j == n {
            assert t[0] == n;
            assert j - 1 !in t;
            if j - 1 == i {
              assert !TakesValue(args, i);
            } else {
              assert j - 1 !in h;
            }
          } else {
            assert (j - 1 in h) <==> (j - 1 in t);
            assert (j in t) <==> !ConsumedAsValue(args, t, j);
          }
        }
      }
    }
  }

  /** The configuration after one step of the loop at a token that does not stop it. */
  function StepConfig(args: seq<string>, i: nat, cfg: Settings): Settings
    requires i < |args| && !Stops(args, i)
  {
    if TakesValue(args, i) then cfg.With(FlagOf(args[i]).value, ParseInt(args[i + 1]).value) else cfg
  }

  /** One step of the loop at a token that does not stop it. */
  lemma RunStep(args: seq<string>, i: nat, cfg: Settings)
    requires i < |args| && !Stops(args, i)
    ensures Run(args, i, cfg) == Run(args, Next(args, i), StepConfig(args, i, cfg))
    ensures Heads(args, i) == [i] + Heads(args, Next(args, i))
  {
  }

  /** The loop ends with a configuration exactly when no examined option stops it. */
  lemma {:induction false} RunParsedIff(args: seq<string>, i: nat, cfg: Settings)
    requires i <= |args|
    ensures Run(args, i, cfg).Parsed? <==> ClearBefore(args, Heads(args, i), |Heads(args, i)|)
    decreases |args| - i
  {
    if i < |args| {
      var h := Heads(args, i);
      var t := Heads(args, Next(args, i));
      assert h == [i] + t;
      ClearBeforeCons(args, i, t, |t|);
      if !Stops(args, i) {
        RunStep(args, i, cfg);
        RunParsedIff(args, Next(args, i), StepConfig(args, i, cfg));
      }
    }
  }

  /** Whether some examined option is "--help" with none stopping the loop before it. */
  predicate FirstStopIsHelp(args: seq<string>, h: seq<nat>)
    requires forall k :: 0 <= k < |h| ==> h[k] < |args|
  {
    exists k :: 0 <= k < |h| && args[h[k]] == HELP_FLAG && ClearBefore(args, h, k)
  }

  /** Past an option that does not stop the loop, the first "--help" is found among the later heads. */
  lemma FirstStopIsHelpCons(args: seq<string>, x: nat, t: seq<nat>)
    requires x < |args| && !Stops(args, x)
    requires forall k :: 0 <= k < |t| ==> t[k] < |args|
    ensures FirstStopIsHelp(args, [x] + t) <==> FirstStopIsHelp(args, t)
  {
    var h := [x] + t;
    if FirstStopIsHelp(args, t) {
      var k :| 0 <= k < |t| && args[t[k]] == HELP_FLAG && ClearBefore(args, t, k);
      ClearBeforeCons(args, x, t, k);
      assert h[k + 1] == t[k];
    }
    if FirstStopIsHelp(args, h) {
      var k :| 0 <= k < |h| && args[h[k]] == HELP_FLAG && ClearBefore(args, h, k);
      assert k != 0;
      ClearBeforeCons(args, x, t, k - 1);
      assert t[k - 1] == h[k];
    }
  }

  /** At an option that stops the loop, the first "--help" is that option, if it is one. */
  lemma FirstStopIsHelpHere(args: seq<string>, x: nat, t: seq<nat>)
    requires x < |args| && Stops(args, x)
    requires forall k :: 0 <= k < |t| ==> t[k] < |args|
    ensures FirstStopIsHelp(args, [x] + t) <==> args[x] == HELP_FLAG
  {
    var h := [x] + t;
    forall k | 0 < k < |h| ensures !ClearBefore(args, h, k) {
      assert Stops(args, h[0]);
    }
    if args[x] == HELP_FLAG {
      assert args[h[0]] == HELP_FLAG && ClearBefore(args, h, 0);
    }
  }

  /**
   * The loop ends with the help outcome exactly when some examined option is
   * "--help" and no examined option before it stops the loop.
   */
  lemma {:induction false} RunHelpIff(args: seq<string>, i: nat, cfg: Settings)
    requires i <= |args|
    ensures Run(args, i, cfg) == Help <==> FirstStopIsHelp(args, Heads(args, i))
    decreases |args| - i
  {
    if i < |args| {
      var t := Heads(args, Next(args, i));
      assert Heads(args, i) == [i] + t;
      if !Stops(args, i) {
        RunStep(args, i, cfg);
        RunHelpIff(args, Next(args, i), StepConfig(args, i, cfg));
        FirstStopIsHelpCons(args, i, t);
      } else {
        FirstStopIsHelpHere(args, i, t);
      }
    }
  }

  /** The examined option at position k of h raises NumberFormatException for tok. */
  predicate BadValueAt(args: seq<string>, h: seq<nat>, k: nat, tok: string)
    requires k < |h|
  {
    TakesValue(args, h[k]) && args[h[k] + 1] == tok && ParseInt(tok).None?
  }

  /** Whether some examined option raises NumberFormatException for tok with none stopping the loop before it. */
  predicate FirstStopIsBadValue(args: seq<string>, h: seq<nat>, tok: string) {
    exists k :: 0 <= k < |h| && BadValueAt(args, h, k, tok) && ClearBefore(args, h, k)
  }

  /** A bad value among the later heads is the first one past an option that does not stop the loop. */
  lemma FirstStopIsBadValueFromTail(args: seq<string>, x: nat, t: seq<nat>, tok: string, k: nat)
    requires !Stops(args, x)
    requires k < |t| && BadValueAt(args, t, k, tok) && ClearBefore(args, t, k)
    ensures FirstStopIsBadValue(args, [x] + t, tok)
  {
    var h := [x] + t;
    ClearBeforeCons(args, x, t, k);
    assert h[k + 1] == t[k];
    assert BadValueAt(args, h, k + 1, tok) && ClearBefore(args, h, k + 1);
  }

  /** The first bad value past an option that does not stop the loop lies among the later heads. */
  lemma FirstStopIsBadValueToTail(args: seq<string>, x: nat, t: seq<nat>, tok: string, k: nat)
    requires !Stops(args, x)
    requires k < |t| + 1 && BadValueAt(args, [x] + t, k, tok) && ClearBefore(args, [x] + t, k)
    ensures FirstStopIsBadValue(args, t, tok)
  {
    var h := [x] + t;
    assert h[0] == x;
    assert k != 0;
    ClearBeforeCons(args, x, t, k - 1);
    assert t[k - 1] == h[k];
    assert BadValueAt(args, t, k - 1, tok) && ClearBefore(args, t, k - 1);
  }

  /** Past an option that does not stop the loop, the first bad value is found among the later heads. */
  lemma FirstStopIsBadValueCons(args: seq<string>, x: nat, t: seq<nat>, tok: string)
    requires !Stops(args, x)
    ensures FirstStopIsBadValue(args, [x] + t, tok) <==> FirstStopIsBadValue(args, t, tok)
  {
    if FirstStopIsBadValue(args, t, tok) {
      var k :| 0 <= k < |t| && BadValueAt(args, t, k, tok) && ClearBefore(args, t, k);
      FirstStopIsBadValueFromTail(args, x, t, tok, k);
    }
    if FirstStopIsBadValue(args, [x] + t, tok) {
      var k :| 0 <= k < |[x] + t| && BadValueAt(args, [x] + t, k, tok) && ClearBefore(args, [x] + t, k);
      FirstStopIsBadValueToTail(args, x, t, tok, k);
    }
  }

  /** At an option that stops the loop, the first bad value is that option's, if any. */
  lemma FirstStopIsBadValueHere(args: seq<string>, x: nat, t: seq<nat>, tok: string)
    requires Stops(args, x)
    ensures FirstStopIsBadValue(args, [x] + t, tok) <==> BadValueAt(args, [x] + t, 0, tok)
  {
    var h := [x] + t;
    forall k | 0 < k < |h| ensures !ClearBefore(args, h, k) {
      assert Stops(args, h[0]);
    }
    if BadValueAt(args, h, 0, tok) {
      assert ClearBefore(args, h, 0);
    }
  }

  /**
   * The loop ends with a NumberFormatException for token tok exactly when
   * some examined value option is followed by tok, tok is not a Java int, and
   * no examined option before it stops the loop.
   */
  lemma {:induction false} RunBadNumberIff(args: seq<string>, i: nat, cfg: Settings, tok: string)
    requires i <= |args|
    ensures Run(args, i, cfg) == BadNumber(tok) <==> FirstStopIsBadValue(args, Heads(args, i), tok)
    decreases |args| - i
  {
    if i < |args| {
      var t := Heads(args, Next(args, i));
      assert Heads(args, i) == [i] + t;
      if !Stops(args, i) {
        RunStep(args, i, cfg);
        RunBadNumberIff(args, Next(args, i), StepConfig(args, i, cfg), tok);
        FirstStopIsBadValueCons(args, i, t, tok);
      } else {
        FirstStopIsBadValueHere(args, i, t, tok);
      }
    }
  }

  /**
   * When the loop ends with a configuration, a field that no examined option
   * sets keeps its value from cfg.
   */
  lemma {:induction false} RunKeepsUnassigned(args: seq<string>, i: nat, cfg: Settings, f: Field)
    requires i <= |args|
    requires Run(args, i, cfg).Parsed?
    requires NoneAssignFrom(args, Heads(args, i), 0, f)
    ensures Run(args, i, cfg).config.Get(f) == cfg.Get(f)
    decreases |args| - i
  {
    if i < |args| {
      assert !Stops(args, i);
      RunStep(args, i, cfg);
      NoneAssignFromCons(args, i, Heads(args, Next(args, i)), 0, f);
      RunKeepsUnassigned(args, Next(args, i), StepConfig(args, i, cfg), f);
    }
  }

  /** Position k of h is the last examined option that sets field f. */
  predicate LastAssignment(args: seq<string>, h: seq<nat>, k: nat, f: Field) {
    k < |h| && Assigns(args, h[k], f) && NoneAssignFrom(args, h, k + 1, f)
  }

  /**
   * The last occurrence wins: when the loop ends with a configuration, a
   * field holds the value of the token after the last examined option that
   * sets it.
   */
  lemma {:induction false} RunLastWins(args: seq<string>, i: nat, cfg: Settings, f: Field, k: nat)
    requires i <= |args|
    requires Run(args, i, cfg).Parsed?
    requires LastAssignment(args, Heads(args, i), k, f)
    ensures ParseInt(args[Heads(args, i)[k] + 1]) == Some(Run(args, i, cfg).config.Get(f))
    decreases |args| - i
  {
    var h := Heads(args, i);
    var t := Heads(args, Next(args, i));
    assert !Stops(args, i);
    RunStep(args, i, cfg);
    NoneAssignFromCons(args, i, t, k, f);
    if k == 0 {
      RunKeepsUnassigned(args, Next(args, i), StepConfig(args, i, cfg), f);
    } else {
      assert t[k - 1] == h[k];
      RunLastWins(args, Next(args, i), StepConfig(args, i, cfg), f, k - 1);
    }
  }
}
