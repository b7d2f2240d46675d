# MiniCluster runner option parser, modelled in Dafny

The MiniCluster runner starts a local Flink MiniCluster with an embedded SQL
Gateway. Before it starts anything, `MiniClusterRunner.parseArgs` reads the
command line into a `Config` record of three ints. The record starts at
parallelism 2, task slots 2 and gateway port 8083. This project models that
parser and proves what it does.

The parser walks the argument array with an index `i`:

- `--parallelism`, `--taskslots` and `--gateway-port` each read the next token
  with `Integer.parseInt` and store it in their field. The `args[++i]` in the
  body, plus the `i++` of the loop header, skips past the value token.
- A value option that is the last token is ignored.
- `--help` prints the usage text and calls `System.exit(0)`.
- Every other token is skipped.
- A value token that is not a Java int makes `parseInt` throw
  `NumberFormatException`. Nothing catches it: `main` calls `parseArgs` outside
  its `try`. So one bad number aborts the whole parse.

Files:

- `wrappers.dfy`: the `Option` type.
- `java_int.dfy` (module `JavaInt`): the decimal syntax `Integer.parseInt`
  accepts. This is an optional `+` or `-`, then at least one digit, with a
  value in [-2^31, 2^31-1]. `ParseInt` gives `None` where Java throws.
  `ToDecimal` renders an int so that `ParseInt` reads it back; it is a right
  inverse only, because `ParseInt` also reads `+7` and `007` as 7.
- `mini_cluster_args.dfy` (module `MiniClusterArgs`):
  - the `Config` class, whose three int fields are updated in place, and its
    value `Settings`;
  - the `Outcome` of a parse: `Parsed(config)`, `Help` (standing for
    `printHelp(); System.exit(0)`) or `BadNumber(token)` (the uncaught
    exception);
  - `Run`, a recursive specification of the loop from index `i`;
  - `ParseArgs`, the imperative loop itself. It fills a fresh `Config` object
    and is proved to return `Parse(args)`.
- `parse_lemmas.dfy` (module `ParseLemmas`): `Heads`, the exact list of indices
  the loop examines as options when nothing stops it. It goes on past
  `--help` and past a bad number, where the real loop ends; the lemmas below
  only use its entries up to the first option that stops the loop. Lemmas about it cover the index arithmetic.
  Further lemmas characterise each outcome in terms of it: when the parse gives
  a configuration, help or a bad number, and which value each field ends with
  (the last occurrence wins).
- `parse_properties.dfy` (module `ParseProperties`): the behaviour on
  particular argument shapes. It covers the defaults, one option, a dangling
  option, a value token that looks like an option, repeated options, negative
  and out-of-range numbers, and tokens after `--help`.

## Model

| member | source | states |
|---|---|---|
| `JavaInt.ReadDigitsValue` | flink-runtime/src/main/java/com/flink/notebooks/MiniClusterRunner.java:207 | The digit reader behind `ParseInt` accepts exactly the strings made only of ASCII digits, and yields their value `DigitsValue`. The two value definitions share the same recursion, so the value half only says they agree; `DigitsValue` is tied to arithmetic by `DigitsValueOfNatToDecimal`. |
| `JavaInt.DigitsValueOfNatToDecimal` | flink-runtime/src/main/java/com/flink/notebooks/MiniClusterRunner.java:207 | Reading back the decimal rendering of a natural number gives that number. |
| `JavaInt.ParseIntOfToDecimal` | flink-runtime/src/main/java/com/flink/notebooks/MiniClusterRunner.java:207-217 | `parseInt` of any rendered integer gives that integer when it is inside the int range, and throws (None) when it is outside. |
| `JavaInt.LeadingZeroIgnored` | flink-runtime/src/main/java/com/flink/notebooks/MiniClusterRunner.java:207 | A leading `0` digit does not change the value of a digit string. |
| `JavaInt.ParseIntLeadingZero` | flink-runtime/src/main/java/com/flink/notebooks/MiniClusterRunner.java:207 | `parseInt` accepts leading zeros, with or without a sign, and they do not change the result. |
| `JavaInt.ParseIntPlusSign` | flink-runtime/src/main/java/com/flink/notebooks/MiniClusterRunner.java:207 | An explicit `+` before the digits means the same as no sign. |
| `JavaInt.ParseIntRejectsEmpty` | flink-runtime/src/main/java/com/flink/notebooks/MiniClusterRunner.java:207 | The empty string, a lone `+` and a lone `-` make `parseInt` throw. |
| `JavaInt.ParseIntRejectsNonDigit` | flink-runtime/src/main/java/com/flink/notebooks/MiniClusterRunner.java:207 | Any character that is not a digit makes `parseInt` throw, unless it is a sign in the first position. |
| `MiniClusterArgs.FlagOf` | flink-runtime/src/main/java/com/flink/notebooks/MiniClusterRunner.java:204-216 | A token names a value option exactly when it equals that option's name. All other tokens name none. |
| `MiniClusterArgs.Settings.With` | flink-runtime/src/main/java/com/flink/notebooks/MiniClusterRunner.java:207-217 | Storing a parsed value sets exactly the named field and leaves the other two unchanged. |
| `MiniClusterArgs.Config.constructor` | flink-runtime/src/main/java/com/flink/notebooks/MiniClusterRunner.java:242-246 | A new `Config` holds parallelism 2, task slots 2 and gateway port 8083. |
| `MiniClusterArgs.ParseArgs` | flink-runtime/src/main/java/com/flink/notebooks/MiniClusterRunner.java:200-228 | The loop, with its double index advance and in-place field updates, returns the outcome of the specification `Parse` for every argument array. |
| `ParseLemmas.Next` | flink-runtime/src/main/java/com/flink/notebooks/MiniClusterRunner.java:203-217 | After examining a token, the index moves forward by one or two and stays within the array. |
| `ParseLemmas.Heads` | flink-runtime/src/main/java/com/flink/notebooks/MiniClusterRunner.java:203 | The indices the loop would examine as options if nothing stopped it (the list continues past `--help` and past a bad number) start at the entry index and lie within the array. There are none exactly when the entry index is at the end. |
| `ParseLemmas.HeadsSteps` | flink-runtime/src/main/java/com/flink/notebooks/MiniClusterRunner.java:203-217 | Each examined index follows the previous one by `Next`. The index after the last one is exactly the array length, so the loop terminates. |
| `ParseLemmas.HeadsCover` | flink-runtime/src/main/java/com/flink/notebooks/MiniClusterRunner.java:203-217 | Every token is either examined as an option or consumed as the value of the option just before it, never both. A value token is never read as an option. |
| `ParseLemmas.RunStep` | flink-runtime/src/main/java/com/flink/notebooks/MiniClusterRunner.java:203-225 | At a token that does not stop the loop, the outcome is that of the loop resumed at `Next` with the field (if any) updated. |
| `ParseLemmas.RunParsedIff` | flink-runtime/src/main/java/com/flink/notebooks/MiniClusterRunner.java:200-228 | The parse returns a configuration if and only if no examined option is `--help` or a value option followed by a token that is not an int. |
| `ParseLemmas.RunHelpIff` | flink-runtime/src/main/java/com/flink/notebooks/MiniClusterRunner.java:220-223 | The parse ends with help if and only if some examined option is `--help` and no examined option before it stopped the loop. |
| `ParseLemmas.RunBadNumberIff` | flink-runtime/src/main/java/com/flink/notebooks/MiniClusterRunner.java:205-219 | The parse aborts on token `tok` if and only if some examined value option is followed by `tok`, `tok` is not an int, and no examined option before it stopped the loop. |
| `ParseLemmas.RunKeepsUnassigned` | flink-runtime/src/main/java/com/flink/notebooks/MiniClusterRunner.java:203-225 | A field that no examined option sets keeps its starting value. |
| `ParseLemmas.RunLastWins` | flink-runtime/src/main/java/com/flink/notebooks/MiniClusterRunner.java:203-225 | A field holds the int value of the token after the last examined option that sets it. |
| `ParseProperties.RunShift` | flink-runtime/src/main/java/com/flink/notebooks/MiniClusterRunner.java:203-225 | The loop from an index never looks at the tokens before that index. |
| `ParseProperties.StopIsFinal` | flink-runtime/src/main/java/com/flink/notebooks/MiniClusterRunner.java:220-223 | Help or a bad number is decided by the tokens read so far. Tokens appended after them are never examined. |
| `ParseProperties.RunAppend` | flink-runtime/src/main/java/com/flink/notebooks/MiniClusterRunner.java:203-225 | If the loop reaches the first token of `b` as an option, parsing `a + b` is parsing `a` and then, if that gave a configuration, parsing `b` from it. |
| `ParseProperties.OnlyUnknownTokens` | flink-runtime/src/main/java/com/flink/notebooks/MiniClusterRunner.java:203-225 | An array with no recognised option leaves the starting configuration unchanged. |
| `ParseProperties.NoOptionsGivesDefaults` | flink-runtime/src/main/java/com/flink/notebooks/MiniClusterRunner.java:29-31 | With no recognised option (the empty array included), the result is parallelism 2, task slots 2, gateway port 8083. |
| `ParseProperties.UnknownTokenIgnored` | flink-runtime/src/main/java/com/flink/notebooks/MiniClusterRunner.java:204-224 | An unrecognised token is skipped with no effect, because the switch has no default branch. |
| `ParseProperties.HelpEndsParsing` | flink-runtime/src/main/java/com/flink/notebooks/MiniClusterRunner.java:220-223 | `--help` as the first token ends the parse with help, whatever follows. |
| `ParseProperties.FlagSetsField` | flink-runtime/src/main/java/com/flink/notebooks/MiniClusterRunner.java:205-219 | A value option and its token set that option's field to the token's int value. The other fields are unchanged and parsing resumes after the token. A token that is not an int aborts the parse. |
| `ParseProperties.OptionIsNotAnInt` | flink-runtime/src/main/java/com/flink/notebooks/MiniClusterRunner.java:207 | No option name parses as an int. |
| `ParseProperties.ValueTokenNotReadAsFlag` | flink-runtime/src/main/java/com/flink/notebooks/MiniClusterRunner.java:207-217 | A value option followed by an option name consumes that name as its value and aborts on it. For example, `--parallelism --taskslots` fails on `--taskslots`. |
| `ParseProperties.DanglingFlagIgnored` | flink-runtime/src/main/java/com/flink/notebooks/MiniClusterRunner.java:206-216 | A value option that is the last token, examined as an option, is ignored. The outcome is the same as without it. |
| `ParseProperties.WithTwice` | flink-runtime/src/main/java/com/flink/notebooks/MiniClusterRunner.java:207-217 | Storing into a field twice keeps the second value. |
| `ParseProperties.RepeatedFlagLastWins` | flink-runtime/src/main/java/com/flink/notebooks/MiniClusterRunner.java:203-225 | For the four-token array `[F, a, F, b]` with `a` and `b` both ints, the value of `b` is the one stored. `RunLastWins` states the general rule for any array. |
| `ParseProperties.AnyIntAccepted` | flink-runtime/src/main/java/com/flink/notebooks/MiniClusterRunner.java:207-217 | Every int, zero and negative ones included, is stored exactly as given. No range is checked. |
| `ParseProperties.OutOfRangeAborts` | flink-runtime/src/main/java/com/flink/notebooks/MiniClusterRunner.java:207-217 | A number outside the int range aborts the whole parse rather than falling back to the default. |

## Left out

- `MiniClusterRunner.start` (lines 75-158): builds Flink `Configuration`, `MiniCluster` and `SqlGatewayRestEndpoint` objects and patches private fields by reflection. These are calls into a library that is not part of this model.
- `MiniClusterRunner.stop` (lines 160-198): closes external resources and thread pools. This is resource handling over foreign calls.
- `MiniClusterRunner.main` (lines 38-73): shutdown hook, `CountDownLatch` and `System.exit`. This is process lifecycle and concurrency. It logs the parsed values and passes them to `start`, which applies `taskSlots` (line 86) and `gatewayPort` (lines 96, 109 and 156). Only `parallelism` is just logged (line 45).
- `printHelp` (lines 230-240): console output only. `--help` is the `Help` outcome, and `System.exit(0)` is the end of parsing.
- `OperationManagerDiagnostic.java` and `SerializerDiagnostic.java`: reflection and console output, with no logic of their own.
- `ParseArgs` returns the value of the `Config` object it fills in, not the object itself. Object identity plays no part in the source's use of the result.
- `ParseInt` accepts only the ASCII digits `0`-`9`. Java's `parseInt` uses `Character.digit`, which also accepts other Unicode decimal digits, such as Arabic-Indic or fullwidth digits. Modelling that table is out of scope.
- `ParseInt` checks the mathematical value against the int range. Java reaches the same verdict by accumulating negatively with overflow guards; that algorithm is not modelled step by step.
- `BadNumber` carries the offending token but not the exception's message text (`For input string: "…"`).
- Strings are sequences of Unicode characters, not of UTF-16 code units. A `null` array element, which the JVM never passes to `main`, is not modelled.
