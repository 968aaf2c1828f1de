# RabbitMQ producer benchmark and email preprocessor: a Dafny model

The repository holds two unrelated programs.

- `Main.java` benchmarks a RabbitMQ producer. It reads `key=value` arguments. It then runs, for every pair of
  a connection count and a channels-per-connection count, one timed test. Each test opens `connCount`
  connections and `connCount * channelsPerConn` channels, assigned round-robin. One publisher task per channel
  publishes until a deadline. A transport fault makes the task recreate its channel once. The test reports
  `totalMessages / durationSeconds` as the `tps_avg` column of a CSV row.
- `run.py` prepares a phishing-email data set. The model covers its list and string steps: whitespace
  normalisation of a cell, padding of tokenised rows to the longest row, and the three-way split of the
  shuffled frame.

The model keeps each piece in the form the source gives it:

- The argument loop, the two set-up loops of `runTest`, the publisher loop, the matrix loop and the
  max-length loop are methods with loop invariants.
- Each such method is proved against a specification function. The properties the program promises are
  proved about those functions as lemmas.
- The two run counters form a class, `Publisher.Metrics`. The connection and channel arrays are Dafny arrays.
  `random_split` reassigns the fields of `EmailPreprocessor.Preprocessor`.
- `parseIntList`, the throughput, `normalize_whitespace` and the padding comprehension are functions.

Files, one module each:

| file | module | models |
|---|---|---|
| `wrappers.dfy` | `Wrappers` | `Option`, standing for a value or a thrown exception, and the associativity of concatenation |
| `java_int.dfy` | `JavaInt` | Java's 32-bit `int` wrap-around, and `/` that truncates toward zero or throws on zero |
| `arguments.dfy` | `Arguments` | `parseArgs` and `parseIntList`, with the parts of `String.split` and `Integer.parseInt` they rely on |
| `provisioning.dfy` | `Provisioning` | the connection pool and the round-robin channel layout of `runTest` |
| `publisher.dfy` | `Publisher` | one publisher task as a state machine over scripted broker outcomes, and all tasks of one test |
| `benchmark.dfy` | `Benchmark` | settings and defaults, one `runTest`, and the matrix loop of `main` |
| `email_preprocessor.dfy` | `EmailPreprocessor` | `normalize_whitespace`, `encode_and_pad` over token lists, and `random_split` |

Behaviour of the code that the model follows:

- **The first fault of either kind ends a publisher task.** The `try` encloses the whole `while` loop
  (Main.java:92-106).
  - After a transport fault the task recreates its channel once, stores it in its own slot, and returns.
  - After any other exception it prints the trace and returns.
  - Publishing never resumes on the new channel, so a task that faults early publishes nothing more for the
    rest of the test. The model proves this (`Publisher.NothingAfterFirstFault`) instead of assuming that
    recovery continues the loop.
- **When `queueDeclare` fails after `createChannel` succeeded** (Main.java:110-111), the new channel exists
  but is never stored. The slot keeps the old channel.
- **`String.split(",")` drops empty pieces at the end** (Main.java:139).
  - `"4,8,"` parses like `"4,8"`.
  - `","` parses to an empty list, so the matrix has no rows.
  - `""` makes `Integer.parseInt` throw.
- **`totalChannels = connCount * channelPerConn` is an `int` product** (Main.java:33) and wraps on overflow.
  The `Thread.sleep` argument is computed in `long` (Main.java:127) and does not wrap. A negative sleep
  argument throws.
- **A duration that is not positive makes no attempt.** `endTime` (Main.java:87) is then not in the future, so
  every task's `while` condition (Main.java:93) is false at once and nothing is published.
  - For -1 and -2 the sleep (Main.java:127) is 1000 or 0 ms, which is legal, and the test reports `0 / d == 0`.
  - For -3 and below the sleep argument is negative and throws.
  - For 0 the division (Main.java:135) throws.
- **`runTest` ignores its `channelsPerConn` parameter.** `random_split` ignores `test_frac`: the test set is
  whatever follows the validation set.

## Model

| member | source | states |
|---|---|---|
| JavaInt.Wrap32 | src/main/java/org/example/Main.java:33 | the 32-bit result lies in `int` range, differs from the exact product by a multiple of 2^32, and equals it when the exact product fits |
| JavaInt.Div | src/main/java/org/example/Main.java:135 | integer division is defined exactly when the divisor is non-zero; a zero divisor is an ArithmeticException |
| JavaInt.DivTruncates | src/main/java/org/example/Main.java:135 | the remainder `a - q*b` has the sign of the dividend and is smaller than the divisor in magnitude, so the quotient is rounded toward zero |
| JavaInt.DivOfNonNegative | src/main/java/org/example/Main.java:135 | for a non-negative dividend and a positive divisor, Java's quotient is the floor quotient, between 0 and the dividend |
| Arguments.SplitFirst | src/main/java/org/example/Main.java:145 | `split("=", 2)` gives one piece (the whole string) exactly when there is no `=`, and otherwise the key before the first `=` and the rest after it |
| Arguments.SplitFirstAt | src/main/java/org/example/Main.java:145-146 | conversely, a string `k + "=" + v` whose `k` has no `=` splits into exactly `[k, v]` |
| Arguments.ParseArgs | src/main/java/org/example/Main.java:142-149 | the loop builds the map `ArgsMap(args)`, argument by argument in order |
| Arguments.ArgsMap | src/main/java/org/example/Main.java:144-147 | every key in the map is bound by some argument |
| Arguments.ArgsMapKeys | src/main/java/org/example/Main.java:144-147 | a key is in the map if and only if some argument contains `=` with that key before it |
| Arguments.ArgsMapLastWins | src/main/java/org/example/Main.java:146 | a key maps to the value of the last argument that binds it |
| Arguments.ArgsMapIgnoresPlain | src/main/java/org/example/Main.java:146 | an argument without `=` leaves the map as if it were absent, wherever it appears |
| Arguments.ParseInt | src/main/java/org/example/Main.java:20 | `Integer.parseInt` only ever yields a value in 32-bit range |
| Arguments.ParseIntNeedsDigits | src/main/java/org/example/Main.java:20 | an empty string or a lone sign throws |
| Arguments.ParseIntRejectsNonDigit | src/main/java/org/example/Main.java:139 | a character that is neither a leading sign nor a digit throws |
| Arguments.ParseIntRejectsOverflow | src/main/java/org/example/Main.java:139 | a decimal value above 2^31 - 1, or a negative one below -2^31, throws |
| Arguments.ParseShowInt | src/main/java/org/example/Main.java:139 | every `int`'s decimal notation parses back to the `int` itself |
| Arguments.Fields | src/main/java/org/example/Main.java:139 | the pieces between separators, none of which contains the separator; with no separator the piece is the whole string |
| Arguments.JoinFields | src/main/java/org/example/Main.java:139 | joining the pieces with the separator gives back the string |
| Arguments.FieldsJoin | src/main/java/org/example/Main.java:139 | splitting a join of separator-free pieces gives back the pieces |
| Arguments.DropTrailingEmpty | src/main/java/org/example/Main.java:139 | `split` with limit 0 keeps a prefix of the pieces, ending in a non-empty piece, and drops only empty pieces |
| Arguments.JavaSplit | src/main/java/org/example/Main.java:139 | a string without the separator is one piece; otherwise the result is the pieces between separators with the empty pieces at the end removed, and its last piece is non-empty |
| Arguments.JavaSplitJoin | src/main/java/org/example/Main.java:139 | splitting a join of non-empty pieces gives back exactly those pieces |
| Arguments.ParseAll | src/main/java/org/example/Main.java:139 | the list parses if and only if every piece parses, and then holds each piece's value in order |
| Arguments.ParseIntList | src/main/java/org/example/Main.java:138-140 | the list parses if and only if every piece of `csv.split(",")` parses; it then has one value per piece, each the value of its piece, in order |
| Arguments.ParseIntListRoundTrip | src/main/java/org/example/Main.java:138-140 | a non-empty list of `int`s written with `,` between them parses back to the same list in the same order |
| Arguments.TrailingCommaIgnored | src/main/java/org/example/Main.java:139 | a trailing `,` is accepted and changes nothing |
| Arguments.EmptyPieceRejected | src/main/java/org/example/Main.java:139 | `""` and `"4,,8"` make `parseIntList` throw |
| Arguments.NonNumericRejected | src/main/java/org/example/Main.java:139 | for every list of non-empty pieces without `,`, one piece that `Integer.parseInt` rejects makes `parseIntList` of their comma-joined text throw |
| Arguments.NonNumericExample | src/main/java/org/example/Main.java:139 | `"4,x"` makes `parseIntList` throw |
| Arguments.OnlySeparatorsGiveEmptyList | src/main/java/org/example/Main.java:139 | `","` parses to the empty list |
| Provisioning.Connections | src/main/java/org/example/Main.java:75-78 | the pool has `connCount` connections |
| Provisioning.InitialChannels | src/main/java/org/example/Main.java:80-85 | there are `threadCount` channels, and channel `i` is on connection `i % connCount` |
| Provisioning.Provision | src/main/java/org/example/Main.java:75-85 | the two set-up loops fill fresh arrays with the pool and the round-robin layout; channel `i` is on `connections[i % length]` |
| Provisioning.EvenShare | src/main/java/org/example/Main.java:80-83 | with `connCount * channelsPerConn` channels, every connection carries exactly `channelsPerConn` of them |
| Provisioning.CountPrefix | src/main/java/org/example/Main.java:81-82 | among the first `n*k + m` channels, connection `c` carries `k` of them, plus one when `c < m` |
| Publisher.Metrics.constructor | src/main/java/org/example/Main.java:52-53 | both counters start at zero with no samples |
| Publisher.Metrics.Record | src/main/java/org/example/Main.java:103-104 | one sample is added to the latency sum and counted once |
| Publisher.SuccessRun | src/main/java/org/example/Main.java:93-105 | the number of publishes before the first fault: all of those succeed, and the next one faults |
| Publisher.TaskEndOf | src/main/java/org/example/Main.java:92-123 | the task reaches the deadline exactly when every attempt publishes; it logs the exception exactly when the first fault is a non-transport one; it replaces its channel exactly when the first fault is a transport fault and the recovery succeeds; and it waits after a failed recovery exactly when the first fault is a transport fault and the recovery fails |
| Publisher.SlotAfter | src/main/java/org/example/Main.java:106-120 | the slot changes exactly when the channel is replaced, and then holds a new channel on connection `index % connections.length` |
| Publisher.FaultCapsSamples | src/main/java/org/example/Main.java:92-106 | a fault at attempt `i` caps the task at `i` samples, and, whatever the recovery does, the task does not reach the deadline |
| Publisher.NothingAfterFirstFault | src/main/java/org/example/Main.java:92-106 | what the broker would do after the first fault changes neither the samples nor how the task ends |
| Publisher.AllPublished | src/main/java/org/example/Main.java:93-105 | without a fault, every publish is recorded in order and the task ends at the deadline |
| Publisher.RunTask | src/main/java/org/example/Main.java:90-124 | the task records exactly the latencies before the first fault and ends as `TaskEndOf` says; on a recovered transport fault only its own slot holds a new channel on connection `index % length`, and every other slot is unchanged |
| Publisher.AllLatenciesCount | src/main/java/org/example/Main.java:104 | over all tasks, the number of samples equals the number of successful publishes, so none is lost or counted twice |
| Publisher.RunTasks | src/main/java/org/example/Main.java:88-125 | after all tasks, the counters hold every task's samples in task order, and each slot is what its own task left |
| Publisher.RecoveryKeepsConnection | src/main/java/org/example/Main.java:109-112 | a recreated channel stays on the connection the round-robin layout gave its slot |
| Benchmark.ReadSettings | src/main/java/org/example/Main.java:17-24 | the settings are read if and only if the duration and both option lists parse |
| Benchmark.DefaultNumbers | src/main/java/org/example/Main.java:20-22 | the numeric defaults parse to 10, [4, 8, 16] and [32, 64] |
| Benchmark.DefaultSettings | src/main/java/org/example/Main.java:17-24 | with no arguments every default applies |
| Benchmark.BadDurationIsFatal | src/main/java/org/example/Main.java:17-28 | when the last argument binding `TEST_DURATION_SECONDS` has a value `Integer.parseInt` rejects, the settings are not read and `main` throws before it opens the CSV file or runs any test |
| Benchmark.BadDurationExample | src/main/java/org/example/Main.java:20 | a last argument `TEST_DURATION_SECONDS=ten` makes `main` throw before any test |
| Benchmark.Throughput | src/main/java/org/example/Main.java:135 | defined exactly when the duration is non-zero; for a positive duration it is the floor of messages per second |
| Benchmark.RunTestSpec | src/main/java/org/example/Main.java:49-136 | a set-up fault or a zero duration throws; a result means non-negative sizes; a negative duration that does not throw reports 0; a positive one reports the successful publishes of all tasks per second, rounded down |
| Benchmark.Attempts | src/main/java/org/example/Main.java:87-93 | with a duration that is not positive, no task makes an attempt |
| Benchmark.NoAttemptsNoMessages | src/main/java/org/example/Main.java:87-104 | with a duration that is not positive, the tasks publish nothing in total |
| Benchmark.RunTest | src/main/java/org/example/Main.java:49-136 | provisioning, all tasks and the division give `RunTestSpec`; it throws on a set-up fault, a negative size, channels without connections, a negative sleep, or a zero duration |
| Benchmark.ShortNegativeDurationReportsZero | src/main/java/org/example/Main.java:87-135 | a duration of -1 or -2 seconds reports 0 messages per second |
| Benchmark.RunTestReportsRate | src/main/java/org/example/Main.java:127-135 | a test that sets up and lasts a positive time reports the successful publishes of all tasks per second, rounded down |
| Benchmark.Cells | src/main/java/org/example/Main.java:31-32 | every visited pair takes its connection count from `connOptions` and its channel count from `channelPerConnOptions` |
| Benchmark.CellsLength | src/main/java/org/example/Main.java:31-32 | the nested loops make `len(connOptions) * len(channelPerConnOptions)` visits |
| Benchmark.CellsOrder | src/main/java/org/example/Main.java:31-32 | visit number `i * len(ks) + j` is the pair `(connOptions[i], channelPerConnOptions[j])`, so every pair is visited once, with connections in the outer loop |
| Benchmark.CellRow | src/main/java/org/example/Main.java:33-41 | a test writes no row exactly when it throws; its row holds the pair, the `int` product twice, and the test's throughput |
| Benchmark.RunCells | src/main/java/org/example/Main.java:31-43 | row `n` is the result of the `n`-th test; a throwing test writes no row and ends the loop |
| Benchmark.RunCellsAfterAbort | src/main/java/org/example/Main.java:38 | after a test throws, no later configuration changes the output |
| Benchmark.RowColumns | src/main/java/org/example/Main.java:33-41 | each row holds its pair, `total_channels == total_threads ==` the `int` product (the exact product when it fits), and the test's throughput |
| Benchmark.ZeroDurationAbortsMatrix | src/main/java/org/example/Main.java:135 | with a zero duration the first test throws, so only the header is written |
| Benchmark.RunConfiguration | src/main/java/org/example/Main.java:33-41 | one pass of the inner loop body extends the rows exactly as `RunCells` does for one more visit: a row when the test returns, the end of the matrix when it throws |
| Benchmark.RunChannelOptions | src/main/java/org/example/Main.java:32-42 | the inner loop for one connection count extends the rows written so far exactly as `RunCells` does over its pairs |
| Benchmark.RunMatrix | src/main/java/org/example/Main.java:31-43 | the nested loops produce exactly the rows and the abort flag of `RunCells` over the visits in loop order |
| Benchmark.MainSpec | src/main/java/org/example/Main.java:15-44 | `main` opens the CSV file exactly when the settings are read, the payload file at `filepath` is readable and `output.csv` can be created; otherwise it throws with no row written; once the CSV is open, the rows and the exception are those of the matrix over the settings |
| Benchmark.RunBenchmark | src/main/java/org/example/Main.java:15-44 | reading the settings, checking the payload and the CSV file, and running the matrix give `MainSpec` |
| Benchmark.MissingPayloadIsFatal | src/main/java/org/example/Main.java:23-28 | an unreadable payload file makes `main` throw before it opens the CSV, so no configuration runs |
| EmailPreprocessor.LStrip | run.py:51 | removes exactly the leading whitespace |
| EmailPreprocessor.RStrip | run.py:51 | removes exactly the trailing whitespace |
| EmailPreprocessor.SubWhitespace | run.py:50 | the substitution never lengthens the text, empties only empty text, and keeps a non-space first character |
| EmailPreprocessor.NormalizeWhitespace | run.py:47-51 | a non-string cell gives `""`; a string gives `" ".join(s.split())`, keeps the string's words, and the output is clean: no whitespace at either end, no two whitespace characters in a row, and only plain spaces |
| EmailPreprocessor.StripSubIsJoinSplit | run.py:50-51 | substituting each whitespace run by one space and stripping gives `" ".join(s.split())` |
| EmailPreprocessor.NonStringIsEmpty | run.py:48-49 | a non-string cell gives `""`; a string gives `""` exactly when it has no words |
| EmailPreprocessor.NormalizeIdempotent | run.py:50-51 | normalising twice equals normalising once |
| EmailPreprocessor.FixpointIffClean | run.py:50-51 | a string is unchanged by normalisation if and only if it is clean |
| EmailPreprocessor.WordsJoin | run.py:50-51 | splitting words joined by single spaces gives back the words |
| EmailPreprocessor.Longest | run.py:121-125 | every row is at most the longest length, some row reaches it, and it is 0 for no rows |
| EmailPreprocessor.MaxLength | run.py:121-125 | the loop returns the longest row length, or 0 for no rows |
| EmailPreprocessor.Repeat | run.py:132 | `[x] * n` has `n` copies of `x`, and none for `n <= 0` |
| EmailPreprocessor.PadRow | run.py:131-134 | the padded row keeps the original tokens as its prefix, has length `max(len, max_length)`, and every added element is 50256 |
| EmailPreprocessor.PadAll | run.py:131-134 | same number of rows, each of the longest length, each starting with its own tokens, and padded only with 50256 |
| EmailPreprocessor.EncodeAndPad | run.py:111-136 | same rows in the same order, each of the longest length, each starting with its own tokens, and padded only with 50256 |
| EmailPreprocessor.FullRowUnchanged | run.py:132 | a row that already has `max_length` tokens is left unchanged |
| EmailPreprocessor.PadAllIdempotent | run.py:131-134 | padding an already padded batch changes nothing |
| EmailPreprocessor.ClampIndex | run.py:107-109 | the clamped bound lies in `0 .. len` |
| EmailPreprocessor.Slice | run.py:107-109 | the slice is no longer than the sequence; for bounds `0 <= lo <= hi` it is the run between the bounds cut at the length, and for `0 <= hi <= lo` it is empty |
| EmailPreprocessor.SliceElements | run.py:107-109 | for any bounds, the slice is the run that starts at the clamped lower bound, as long as the clamped bounds are apart, or empty when they cross |
| EmailPreprocessor.SplitPartition | run.py:103-109 | for cuts `0 <= train_end <= validation_end`, the three slices are the consecutive pieces cut at the clamped indices; they concatenate to the frame and hold every row as many times as the frame does |
| EmailPreprocessor.Preprocessor.constructor | run.py:25-28 | a preprocessor is created over a prepared frame, with no splits yet |
| EmailPreprocessor.Preprocessor.RandomSplit | run.py:98-109 | the frame becomes its shuffle, holding the same rows; the three splits are the Python slices `[:train_end]`, `[train_end:validation_end]`, `[validation_end:]`, and for non-negative cuts they partition the frame |

## Left out

- Network and broker I/O is not modelled: `ConnectionFactory`, `newConnection`, `createChannel`, `queueDeclare`,
  `queuePurge`, `basicPublish` and `close`.
  - Connections and channels are opaque values.
  - Whether the broker set-up succeeds is an input (`TestPlan.setupOk`).
  - What each publish and each recovery attempt does is a script (`TaskScript`).
- Benchmark.RunTest: the closing loops (Main.java:129-130) are not modelled. `channel.close()` on a slot
  left holding a dead channel (a transport fault followed by `CreateFailed` or `DeclareFailed`) throws
  `AlreadyClosedException`, which leaves `runTest` and ends the matrix; the model writes the row instead.
- Benchmark.RunTest: the virtual-thread executor, `shutdownNow` and the interleaving of tasks are concurrency.
  The tasks run one after another in index order, and the atomic counters are plain counters. Every task
  touches only its own slot, so the final state does not depend on the order.
- Publisher.RunTask: the clock is not modelled. `Instant.now()` and the deadline become the length of the
  task's script: the script lists the attempts made before the deadline. Latencies are inputs. The one-second
  sleep after a failed recovery, and its interrupt, are not modelled.
- `UUID.randomUUID` and `BasicProperties` are random and foreign, and the publish does not depend on them.
- `avgLatencyMs` (Main.java:134) is floating point, as are the `latency_avg_ms` CSV column and the `%.2f`
  format.
- File and console I/O are not modelled beyond their failures. Whether `Files.readAllBytes` can read the payload
  file and whether `new FileWriter("output.csv")` succeeds are inputs (`Benchmark.Environment`). The payload bytes,
  the CSV text written by `PrintWriter`, and the progress messages are not modelled.
- Arguments.ParseInt: accepts ASCII digits only. `Integer.parseInt` also accepts the decimal digits of other
  Unicode scripts.
- `Result.totalMessages` is a `long` and is not wrapped. No run can publish 2^63 messages.
- In run.py:
  - the pandas operations of `load_and_prepare` are not modelled: `read_csv`, `dropna`, `drop_duplicates`
    and `map`;
  - `create_balanced_dataset`, `fix_unicode` (`ftfy`), `strip_html` (`html`, BeautifulSoup) and
    `tiktoken.encode` are foreign libraries. `EncodeAndPad` therefore takes already tokenised rows;
  - `time.time` and the timing prints are not modelled.
- EmailPreprocessor.Preprocessor.RandomSplit: the shuffle is random, so the shuffled frame is an input
  required to be a permutation of the frame. `int(len(df) * frac)` is float arithmetic, so the two cut values
  are integer inputs.
- EmailPreprocessor.Preprocessor.constructor: `__init__` runs the whole preparation pipeline and the split. The
  model's constructor only takes a prepared frame, and the split is a separate call.
- Python strings are modelled as sequences of Unicode scalar values, Dafny's `char`. Lone surrogates, which a
  Python `str` can hold, are not represented; none of them is whitespace, so no modelled behaviour depends on them.
  The whitespace set is Python's for `str`.
