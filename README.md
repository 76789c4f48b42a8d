# Quadratic equation solver — a Dafny model of its sequential core

The solver reads coefficient triples `a b c` from its command line. For each
equation a*x^2 + b*x + c = 0 it prints the roots and the extremum. A group
that does not parse, or an incomplete last group, gets an error line instead.

The repository has two programs:

- **The threaded solver** (`src/`). `SolvingManager::run` splits `argv[1..argc)`
  into one contiguous bucket per pair of threads. For each bucket:
  - a `parse` thread reads the tokens three at a time;
  - it hands the valid triples to a `solve` thread through a `ConcurrentQueue`;
  - both threads print through a 4096-character local buffer, which they flush
    to the shared console past a high-water mark.
- **The single-threaded solver** (`SingleThreadSolution/main.cpp`). It uses the
  same grouping. It prints through one global 65536-character buffer and parses
  coefficients leniently.

This model covers the sequential logic inside both programs:

- `CharConv`: `std::from_chars` for `int`, and printf's `%d` and `%.20s`.
- `Printf`: formats, as sequences of conversions.
- `Console`: the console, as a ghost log of `print` chunks.
- `Queues`: the queue.
  - It is a class over a sequence and a done flag.
  - It also has a pure trace semantics, with FIFO and draining lemmas.
- `Grouping`: the grouping of tokens in threes.
- `Equation`: the equation.
  - It holds the exact discriminant and the case selection.
  - It proves what each printed case means over the reals.
  - It also models the discriminant as the source computes it: b^2 rounded to a double by pow, and the 64-bit wrap.
- `LineBuffers`: the threaded 4096-character buffer.
- `BucketPlan`: bucket planning.
  - It models the buckets `run` creates as written.
  - It also has a corrected plan, which the model uses.
- `SolvingManager`: `parse`, `solve` and `run`. The two threads of a bucket run one after the other.
- `SingleThread`: the single-threaded program.

Some things are parameters of the model:

- **Floating-point texts.** The `%g` texts of the floating-point roots and
  extremum are a parameter, `numbers`, of type `EquationCoefficients -> Numbers`.
- **Thread count.** The threaded `run` takes the thread count as a parameter.
- **Standard output.** It is the `ConsoleOutput` log passed in.

## Model

| member | source | states |
|---|---|---|
| CharConv.FromChars | src/SolvingManager.cpp:120-124 | from_chars consumes no more than the input; it reports invalid_argument exactly when it consumes nothing; on success the value fits in `int` |
| CharConv.FromCharsStopsAtNonDigit | src/SolvingManager.cpp:122 | from_chars stops only at the end of the input or at a character that is not a digit |
| CharConv.FromCharsWhole | src/SolvingManager.cpp:122-123 | from_chars succeeds and consumes the whole string exactly when the string is an optionally negative decimal numeral whose value fits in `int`; it then yields that value |
| CharConv.IntToStringLength | src/SolvingManager.cpp:84 | `%d` of an `int` is 1 to 11 characters long and has no newline |
| CharConv.FromCharsIntToString | src/SolvingManager.cpp:84 | from_chars reads back what `%d` printed: all of it is consumed, with the same value |
| CharConv.Truncated | src/SolvingManager.cpp:144 | `%.Ns` writes at most N characters |
| CharConv.TruncatedPrefix | src/SolvingManager.cpp:144 | `%.20s` writes a prefix of the token: the whole token if it is 20 characters or fewer, its first 20 otherwise |
| Printf.SprintfAppend | src/SolvingManager.cpp:84 | formatting two formats one after the other writes their texts one after the other |
| Console.ConsoleOutput.Print | src/ConsoleOutput.hpp:19-24 | each `print` call adds exactly one chunk at the end of the console log |
| Console.FlattenAppend | src/ConsoleOutput.hpp:19-24 | the text of a log split in two is the text of the first part followed by that of the second |
| Queues.ConcurrentQueue.constructor | src/ConcurrentQueue.hpp:42-45 | a new queue is empty and not done |
| Queues.ConcurrentQueue.Enqueue | src/ConcurrentQueue.hpp:13-18 | exactly one item is added at the back; the other items and the done flag are unchanged |
| Queues.ConcurrentQueue.Dequeue | src/ConcurrentQueue.hpp:20-33 | a precondition replaces the wait: the queue is not empty, or it is done; the result is None exactly when the queue is empty and done; otherwise it is the front item, and exactly that item is removed; the done flag is unchanged |
| Queues.ConcurrentQueue.SetDone | src/ConcurrentQueue.hpp:35-39 | sets the done flag and keeps the pending items |
| Queues.DequeueStep | src/ConcurrentQueue.hpp:27-32 | the trace semantics of one `dequeue`: None exactly when the queue is empty and done; otherwise the front item, with the rest left pending |
| Queues.StepConservation | src/ConcurrentQueue.hpp:13-39 | one call moves items between delivered and pending, and loses or reorders none |
| Queues.Conservation | src/ConcurrentQueue.hpp:13-39 | FIFO over any sequence of calls that does not block: the items delivered, then those still pending, are the initial items followed by everything enqueued, in order |
| Queues.DoneIsMonotonic | src/ConcurrentQueue.hpp:35-39 | the done flag never goes back to false, and it is set after any `setDone` |
| Queues.SetDoneIdempotent | src/ConcurrentQueue.hpp:35-39 | a second `setDone` changes nothing, and `setDone` keeps the items |
| Queues.DrainAfterDone | src/ConcurrentQueue.hpp:20-39 | once the queue is done, repeated dequeues never wait; they deliver the pending items in order, then None as often as they are called |
| Grouping.UngroupGroups | src/SolvingManager.cpp:132-162 | grouping the tokens in threes loses, duplicates and reorders no token |
| Grouping.GroupsAppend | src/SolvingManager.cpp:132 | a prefix whose length is a multiple of 3 is grouped on its own |
| Grouping.GroupsShape | src/SolvingManager.cpp:132-148 | there is one group per started three tokens; group g of the full groups is tokens 3g, 3g+1 and 3g+2; one or two leftover tokens form the last, short group |
| Equation.AnyRootsMeansEveryX | src/SolvingManager.cpp:58-60 | "(any)" is chosen exactly when every real x solves the equation |
| Equation.NoRootsMeansNoX | src/SolvingManager.cpp:86-94 | "(no roots)" is chosen only when no real x solves the equation |
| Equation.LinearOneRoot | src/SolvingManager.cpp:64-66 | for a == 0 != b, -c/b solves the equation and no other x does |
| Equation.DoubleRoot | src/SolvingManager.cpp:99-102 | for a != 0 and a zero discriminant, -b/2a solves the equation and no other x does |
| Equation.OneRootMeansUniqueRoot | src/SolvingManager.cpp:86-102 | when one root is printed, -c/b (a line) or -b/2a (a parabola) solves the equation and nothing else does |
| Equation.TwoRootsMeansCrossing | src/SolvingManager.cpp:107-108 | two roots are printed only when a*f(-b/2a) < 0, so the parabola crosses the axis twice |
| Equation.WrapLongLong | src/SolvingManager.cpp:92 | a `long long` result wraps modulo 2^64 into the `long long` range, and is unchanged when it is already in range |
| Equation.FindRoots | src/SolvingManager.cpp:56-108 | definition of the case `solve` prints, from the exact discriminant; its properties: Equation.AnyRootsMeansEveryX, NoRootsMeansNoX, LinearOneRoot, DoubleRoot, OneRootMeansUniqueRoot, TwoRootsMeansCrossing |
| Equation.DiscriminantAsWritten | src/SolvingManager.cpp:92 | definition of the discriminant as written (pow rounded by RoundToDouble, then the `long long` wraps); its properties: Equation.DiscriminantAsWrittenExact, DiscriminantOverflowExample, PowRoundingExample |
| Equation.FindRootsAsWritten | src/SolvingManager.cpp:86-108 | definition of the case selection on the written discriminant; its properties: Equation.DiscriminantAsWrittenExact, DiscriminantOverflowExample, PowRoundingExample |
| Equation.DiscriminantOverflowExample | src/SolvingManager.cpp:92 | for a = c = INT_MAX and b = 0, 4LL*a*c wraps: the written code reports two roots for an equation that has none |
| Equation.RoundToDouble | src/SolvingManager.cpp:92 | `std::pow(b, 2)` yields the double nearest to b^2, rounding ties to even: a multiple of the spacing of the doubles (Ulp, pinned to the binade of b^2), so a double; never more than half a spacing from b^2; on a tie, the even multiple; and b^2 itself below 2^53 |
| Equation.PowRoundingExample | src/SolvingManager.cpp:92 | for a = c = 2^30 - 1 and b = 2^31 - 2 the exact discriminant is 0 and -b/2a is a root; pow rounds b^2 down by 4, so the written code sees -4 and reports no roots |
| Equation.DiscriminantAsWrittenExact | src/SolvingManager.cpp:92 | where b^2 is below 2^53 and 4ac and b^2 - 4ac stay in the `long long` range, the written discriminant and case selection are exact |
| LineBuffers.LineBuffer.constructor | src/SolvingManager.cpp:130-131 | a zero-filled buffer with offset 0 |
| LineBuffers.LineBuffer.FlushIfFull | src/SolvingManager.cpp:134-138 | past the high-water mark, the contents are printed as one chunk, cleared by the memset loop, and the offset is reset to 0; afterwards the offset is at most BUFFER_SIZE - MAX_LENGTH_ONE_LINE; the printed text plus the buffered text is unchanged |
| LineBuffers.LineBuffer.Write | src/SolvingManager.cpp:142-146 | `sprintf` at `buffer + i`: the text is stored at the offset and followed by a NUL, and the offset moves past it |
| LineBuffers.LineBuffer.Print | src/SolvingManager.cpp:164 | `output.print(buffer)` prints the contents as one chunk |
| BucketPlan.ArgsPerOneBucket | src/SolvingManager.cpp:177-185 | the bucket size is a multiple of 3 and at least 3; it is the largest such value not above max(3, argc / (numOfThreads / 2)) |
| BucketPlan.GetArgsPerOneBucket | src/SolvingManager.cpp:177-185 | the decrement loop computes ArgsPerOneBucket |
| BucketPlan.BucketsAsWritten | src/SolvingManager.cpp:189-203 | definition of the buckets the loop of `run` creates; its properties: BucketPlan.OddThreadCountOverrunsQueues, BucketsPastArgcExample, AsWrittenInArgvIff |
| BucketPlan.Buckets | src/SolvingManager.cpp:189-203 | definition of the corrected plan; its properties: BucketPlan.BucketsPartition, BucketsContiguous, BucketsAgreeWhenInArgv, SolvingManager.BucketsCoverArguments |
| BucketPlan.OddThreadCountOverrunsQueues | src/SolvingManager.cpp:196-203 | with an odd thread count, the loop creates numOfThreads / 2 + 1 buckets, one more than there are queues; each takes exactly argsPerOneBucket arguments, so no bucket takes the remainder |
| BucketPlan.BucketsPastArgcExample | src/SolvingManager.cpp:177-203 | argc = 4 with 8 threads: the bucket size is 3, and the second bucket is [4, 7), past the end of argv |
| BucketPlan.AsWrittenInArgvIff | src/SolvingManager.cpp:196-203 | with an even thread count, the buckets as written stay inside argv exactly when (numOfThreads/2 - 1) * argsPerOneBucket <= argc - 1 |
| BucketPlan.BucketsPartition | src/SolvingManager.cpp:196-203 | the corrected buckets: one per queue, the first starting at 1 and the last ending at argc; all lie within [1, argc), and each that does not start at argc starts on a triple boundary |
| BucketPlan.BucketsContiguous | src/SolvingManager.cpp:199-201 | each corrected bucket starts where the previous one ends |
| BucketPlan.BucketsAgreeWhenInArgv | src/SolvingManager.cpp:196-203 | with an even thread count and buckets that fit, the corrected buckets are exactly those `run` creates |
| SolvingManager.ParseToInt | src/SolvingManager.cpp:120-124 | definition of `parseToInt`; its properties: SolvingManager.ParseToIntMeaning, ParseToIntRoundTrip |
| SolvingManager.ParseToIntMeaning | src/SolvingManager.cpp:120-124 | `parseToInt` accepts a token exactly when it is a numeral whose value fits in `int` (no trailing characters, not empty), and yields that value |
| SolvingManager.ParseToIntRoundTrip | src/SolvingManager.cpp:120-124 | every `int` printed with `%d` is parsed back as itself |
| SolvingManager.CoefficientsWidth | src/SolvingManager.cpp:84 | `(%d, %d, %d) => ` is 11 to 43 characters long, with no newline |
| SolvingManager.ResultLineShape | src/SolvingManager.cpp:84-110 | every result line is shorter than MAX_LENGTH_ONE_LINE and ends with a newline, so it fits in the room the flush check keeps free |
| SolvingManager.NotCorrectWidth | src/SolvingManager.cpp:155-159 | a "not correct" line is at most 115 characters long and ends with a newline |
| SolvingManager.ExtremumWidth | src/SolvingManager.cpp:43-48 | the extremum text, or "(no extremum)", is at most 49 characters long and ends the line |
| SolvingManager.StepOutcome | src/SolvingManager.cpp:150-162 | one full step consumes exactly three tokens; the triple is enqueued, after the earlier ones, exactly when all three tokens parse; otherwise exactly one "not correct" line is reported and nothing is enqueued |
| SolvingManager.TailOutcome | src/SolvingManager.cpp:141-148 | with one or two tokens left, the reports grow by exactly one "not enough" line that names them, and nothing is enqueued |
| SolvingManager.FindRootsNonParabola | src/SolvingManager.cpp:56-67 | for a == 0: "(any) " when b == c == 0, "(no roots) " when b == 0 != c, and the root otherwise |
| SolvingManager.FindExtremum | src/SolvingManager.cpp:43-48 | writes the extremum text, which ends the line |
| SolvingManager.WriteParabolaRoots | src/SolvingManager.cpp:92-108 | for a != 0, the case follows the sign of the discriminant: no roots, one root or two roots |
| SolvingManager.WriteResult | src/SolvingManager.cpp:84-110 | appends exactly the result line of the equation |
| SolvingManager.SolveStep | src/SolvingManager.cpp:73-110 | one iteration: the flush check, the k-th triple's result line, and the next dequeue; printed plus buffered text grows by exactly that line |
| SolvingManager.Solve | src/SolvingManager.cpp:69-113 | with the queue done, `solve` drains it; it prints the result line of every pending triple, in queue order, and nothing else |
| SolvingManager.BucketTokens | src/SolvingManager.cpp:140 | the tokens of a bucket are argv[start + k] for k < amount, and there are none for a bucket with no positive amount |
| SolvingManager.ReportNotEnough | src/SolvingManager.cpp:141-147 | writes `(%.20s`, then `, %.20s` when there is a second token, then the "not enough" suffix |
| SolvingManager.ParseTriple | src/SolvingManager.cpp:150-162 | enqueues the triple when all three tokens parse; otherwise it writes the "not correct" line and enqueues nothing |
| SolvingManager.ParseAdvance | src/SolvingManager.cpp:132-162 | each pass of the loop moves the parse state from tokens [0, j) to [0, j + 3), or to the end for a short tail |
| SolvingManager.ParseStep | src/SolvingManager.cpp:132-162 | one pass at offset j: the loop stops exactly when fewer than three tokens are left; printed plus buffered text grows by the group's report, and the queue by its triple |
| SolvingManager.ParseLoop | src/SolvingManager.cpp:132-163 | after the loop, printed plus buffered text has grown by the reports of all the bucket's groups, in order, and the queue by their valid triples, in order |
| SolvingManager.ParsedAll | src/SolvingManager.cpp:132-163 | once every token of a bucket has been read, the text has grown by the reports of the bucket's groups and the queue by their valid triples, both in order |
| SolvingManager.Parse | src/SolvingManager.cpp:126-170 | afterwards the queue is empty and done; the console shows the bucket's reports, then the result lines of the pending and newly enqueued triples, in order |
| SolvingManager.BucketsCoverArguments | src/SolvingManager.cpp:196-203 | nothing is lost or read twice: the groups of the corrected buckets, in bucket order, are exactly the groups of argv[1..argc) |
| SolvingManager.RunBucket | src/SolvingManager.cpp:205-209 | a bucket's two threads, run one after the other, print the bucket's reports followed by its result lines |
| SolvingManager.Run | src/SolvingManager.cpp:189-215 | every corrected bucket stays inside argv; the console shows the buckets' texts, bucket after bucket |
| SingleThread.OutputBuffer.constructor | SingleThreadSolution/main.cpp:13-14 | the static buffer starts zero-filled, with offset 0 |
| SingleThread.OutputBuffer.Print | SingleThreadSolution/main.cpp:16-21 | `print` writes the contents as one chunk and clears them with memset; the offset goes back to 0 |
| SingleThread.OutputBuffer.Store | SingleThreadSolution/main.cpp:28-29 | vsnprintf of a text that fits: the text and its NUL are stored at the offset |
| SingleThread.OutputBuffer.Append | SingleThreadSolution/main.cpp:24-38 | an empty piece changes nothing; a piece that fits is stored, with a flush once the offset reaches BUFFER_SIZE - MAX_LENGTH_ONE_LINE; a piece too long for the room left flushes the buffer and is then printed as a chunk of its own; afterwards the offset is always below the mark; the printed text plus the buffered text grows by exactly the piece |
| SingleThread.AppendAsWritten | SingleThreadSolution/main.cpp:24-38 | as written, vsnprintf never writes past the array (fewer than BUFFER_SIZE characters held), keeps the old contents and adds a prefix of the piece, while the offset moves by the piece's full length; further properties: SingleThread.AppendAsWrittenExactIff, ExactFitLosesLastCharacter, LongTokenOverrunsBuffer |
| SingleThread.ExactFitLosesLastCharacter | SingleThreadSolution/main.cpp:24-38 | a piece that ends exactly at the end of the array, e.g. a 301-character "not correct" line at offset 65235, is stored without its last character (the newline), the offset becomes BUFFER_SIZE and a flush follows: the line reaches the output without its newline |
| SingleThread.AppendAsWrittenExactIff | SingleThreadSolution/main.cpp:28-34 | as written, one append keeps the buffer consistent (the whole piece stored, the offset at its end and inside the array) exactly when the piece is shorter than the room left |
| SingleThread.LongTokenOverrunsBuffer | SingleThreadSolution/main.cpp:16-38 | a 65536-character argument appended after the "(" that always precedes it (any non-empty contents): only 65535 characters are held in all, part of the token is lost, the offset moves beyond BUFFER_SIZE, and a flush follows, whose memset of `offset` bytes clears past the array |
| SingleThread.LongTokenAfterParenthesis | SingleThreadSolution/main.cpp:95-97 | from contents "(" alone, 65534 characters of the token are kept and the offset becomes 65537 |
| SingleThread.LenientParseToInt | SingleThreadSolution/main.cpp:41-44 | definition of the lenient `parseToInt`; its properties: SingleThread.LenientReadsLeadingNumeral, StrictImpliesLenient, LenientAcceptsTrailingText |
| SingleThread.LenientReadsLeadingNumeral | SingleThreadSolution/main.cpp:41-44 | an accepted token starts with a numeral of the returned value, and the character after it, if any, is not a digit |
| SingleThread.StrictImpliesLenient | SingleThreadSolution/main.cpp:41-44 | every token the threaded `parseToInt` accepts is accepted here with the same value |
| SingleThread.LenientAcceptsTrailingText | SingleThreadSolution/main.cpp:41-44 | "12abc" is read as 12 here and rejected by the threaded solver |
| SingleThread.SolveOutcome | SingleThreadSolution/main.cpp:47-72 | definition of the case `solve` prints here; its properties: SingleThread.SolveOutcomeAgreesWithThreaded, DegenerateMeansAllOrNothing |
| SingleThread.SolveOutcomeAgreesWithThreaded | SingleThreadSolution/main.cpp:47-72 | the result is "degenerate" exactly when a == b == 0; in every other case the roots are those the threaded solver chooses |
| SingleThread.DegenerateMeansAllOrNothing | SingleThreadSolution/main.cpp:53-54 | a degenerate equation is solved by every real number when c == 0, and by none otherwise |
| SingleThread.SolveTextEndsLine | SingleThreadSolution/main.cpp:47-77 | whatever the case, `solve` ends the line |
| SingleThread.Solve | SingleThreadSolution/main.cpp:47-77 | printed plus buffered text grows by exactly the text of the equation's case |
| SingleThread.NotEnoughShape | SingleThreadSolution/main.cpp:95-99 | the "not enough" line lists the one or two leftover tokens in parentheses, separated by a space |
| SingleThread.StrictTripleSolvedHere | SingleThreadSolution/main.cpp:106-107 | every triple the threaded solver enqueues is solved here with the same coefficients |
| SingleThread.GroupTextEndsLine | SingleThreadSolution/main.cpp:94-114 | every group's text, whether a report or a solved equation, ends with a newline |
| SingleThread.TranscriptEndsLine | SingleThreadSolution/main.cpp:93-115 | whatever groups the loop saw, its output ends with a newline |
| SingleThread.ReportNotEnough | SingleThreadSolution/main.cpp:95-99 | "(", then each leftover token followed by a space unless it is the last, then the suffix; one append each |
| SingleThread.RunStep | SingleThreadSolution/main.cpp:94-114 | one pass at argument i: the loop stops exactly when i + 2 >= argc; printed plus buffered text grows by the group's text |
| SingleThread.EmitAdvance | SingleThreadSolution/main.cpp:93-115 | each pass moves the emitted text from the groups of argv[1..i) to those of argv[1..i+3), or to the end for a short tail |
| SingleThread.EmittedAll | SingleThreadSolution/main.cpp:93-115 | once every argument has been read, the text has grown by the texts of all groups, in order |
| SingleThread.Run | SingleThreadSolution/main.cpp:79-117 | fewer than four arguments print the usage line and give exit code 1; otherwise the output is the text of every group of argv[1..argc), in order, and the exit code is 0; this holds for the corrected append (see SingleThread.OutputBuffer.Append under Left out) |

## Left out

- Threads, the mutex and condition variable of the queue, `std::atomic`,
  `hardware_concurrency` and `join`.
  - The two threads of a bucket, and the buckets themselves, run one after the other.
  - The model does not cover interleavings: the real console may show chunks from different buckets interleaved.
- The floating-point roots, the extremum and their `%g` texts. They are the
  `numbers` parameter; only the choice of case is modelled.
  - The case is decided on the exact integer discriminant (see the next two lines).
- SolvingManager.WriteParabolaRoots: it picks the case from the exact
  b*b - 4*a*c for every `int` input.
  - It does not follow `static_cast<long long>(std::pow(b, 2)) - 4LL * a * c`
    where that line differs: when `4LL * a * c` or the difference wraps, and
    when b^2 needs more than 53 bits and pow rounds it.
  - WriteResult, SolveStep, Solve, Parse, RunBucket and Run inherit this.
  - Both differences are only exhibited on values, by Equation.FindRootsAsWritten
    (Equation.DiscriminantOverflowExample, Equation.PowRoundingExample); no
    method uses that function.
- SingleThread.Solve: it decides on the exact discriminant.
  - `std::pow(b, 2) - 4LL * a * c` there wraps `4LL * a * c`, subtracts in
    double precision and truncates to `long long`; none of this is modelled.
  - It has the same two kinds of difference as the threaded line above.
- `printf` stops at the first NUL of the buffer.
  - Arguments are C strings, so no formatted text holds a NUL.
  - LineBuffers.LineBuffer.Print and SingleThread.OutputBuffer.Print print the
    contents up to the offset.
- vsnprintf's negative return value for an encoding error. The pieces here
  are plain text.
- The "Time elapsed" line, and the clock behind it.
- The start-up code of `src/main.cpp`.
- The test-data generator under `data/`.
- SolvingManager.Run: it models the corrected bucket plan, not the loop as
  written. Where the two differ, the written loop indexes past the queue
  vector or past argv. The model has no meaning for that, so it only exhibits
  the difference (see Findings).
- SingleThread.OutputBuffer.Append: it is the corrected append. Appending as
  written is modelled on values by SingleThread.AppendAsWritten.
  - SingleThread.Solve, ReportNotEnough, RunStep and Run inherit this: their
    output contracts hold for the corrected append only.
  - Two behaviours of the written append are therefore not in those methods.
    A piece longer than the room left overruns the buffer (Findings).
    A piece that ends exactly at the end of the array loses its last
    character, even though nothing is written out of bounds. For example, a
    301-character "not correct" line written at offset 65235 is stored without
    its newline. The offset becomes 65536 and the flush prints the line
    without it (SingleThread.ExactFitLosesLastCharacter).
- Bytes and characters: a Dafny `char` stands for one byte of a C string.
  `%.20s`, the buffer sizes and the 300-character margin all count bytes, so
  a multi-byte UTF-8 character counts as several and can be cut between its
  bytes.

## Findings

| source | as written | input that shows it | evidently intended | confidence | as-written member | corrected member |
|---|---|---|---|---|---|---|
| src/SolvingManager.cpp:196-203 | `for (int i = 0; i * 2 < numOfThreads; ++i)` runs (numOfThreads + 1) / 2 times, over only numOfThreads / 2 queues | an odd thread count, e.g. 3: the second iteration indexes `equationCoefQueues[1]` in a vector of size 1, and no bucket takes the remaining arguments | one bucket per queue, the last one taking the remainder | not executed | BucketPlan.OddThreadCountOverrunsQueues | BucketPlan.BucketsPartition |
| src/SolvingManager.cpp:177-203 | bucket i starts at 1 + i * argsPerOneBucket even past argc, and takes argsPerOneBucket arguments | argc = 4 with 8 threads: bucket 1 is [4, 7), and `parse` reads argv[4..6] past the end | buckets clamped to [1, argc), empty when nothing is left | not executed | BucketPlan.BucketsPastArgcExample | BucketPlan.BucketsPartition |
| src/SolvingManager.cpp:92 | `4LL * a * c` overflows `long long` | a = c = 2147483647, b = 0: the product wraps negative, and two roots are printed for an equation with none | the sign of the exact b^2 - 4ac | not executed | Equation.DiscriminantOverflowExample | Equation.NoRootsMeansNoX |
| SingleThreadSolution/main.cpp:16-38 | the offset moves by vsnprintf's return value, the untruncated length, even when the piece was cut to fit | argv = [prog, "1", "2", "3", T] with T 65536 characters long: T is appended after the first result line and the "(" of the "not enough" line, so only part of T is kept, the offset passes 65536, and `print`'s memset clears past the 65536-byte buffer; with just "(" in front, 65534 characters of T are kept and the offset is 65537; a piece ending exactly at 65536 (a 301-character "not correct" line at offset 65235) loses its newline without any out-of-bounds write | every appended character reaches the output in order, and the offset stays inside the buffer | not executed | SingleThread.LongTokenOverrunsBuffer | SingleThread.OutputBuffer.Append |
| src/SolvingManager.cpp:92 | `static_cast<long long>(std::pow(b, 2))` rounds b^2 to a double, which is inexact once b^2 needs more than 53 bits | a = c = 1073741823, b = 2147483646: exactly b^2 - 4ac = 0, but pow gives b^2 - 4, so the discriminant is -4 and "(no roots) " is printed for an equation with the root -b/2a | the sign of the exact b^2 - 4ac, computed in integers | not executed | Equation.PowRoundingExample | Equation.DoubleRoot |
