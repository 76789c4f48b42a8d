/**
 * SolvingManager.cpp: how `run` splits argv[1..argc) into one bucket per
 * pair of threads, what the `parse` thread of a bucket does with its tokens
 * (enqueue valid triples, report bad or incomplete groups), and what the
 * `solve` thread prints for each dequeued triple.  Both buffer their output
 * in a LineBuffer.  The two threads of a bucket are run one after the
 * other: `parse` to the end (it then drains the queue itself, as the source
 * does), then the bucket's own `solve` thread, which finds the queue done.
 */
module SolvingManager {
  import opened Wrappers
  import opened CharConv
  import opened Console
  import opened Queues
  import opened Grouping
  import opened Equation
  import opened LineBuffers
  import opened Printf
  import opened BucketPlan

  // ---------------------------------------------------------------------
  // parseToInt

  /** parseToInt: from_chars must succeed AND consume the whole string. */
  function ParseToInt(s: string): Option<Int32> {
    var res := FromChars(s);
    if res.ec == Ok && res.consumed == |s| then Some(res.value) else None
  }

  /**
   * A token is accepted exactly when it is a numeral (optional '-', then
   * digits only) whose value fits in `int`, and it then yields that value.
   */
  lemma ParseToIntMeaning(s: string)
    ensures ParseToInt(s).Some? <==> IsNumeral(s) && INT_MIN <= NumeralValue(s) <= INT_MAX
    ensures ParseToInt(s).Some? ==> ParseToInt(s).value == NumeralValue(s)
  {
    FromCharsWhole(s);
  }

  /** Every `int` printed with `%d` is read back as itself. */
  lemma ParseToIntRoundTrip(n: Int32)
    ensures ParseToInt(IntToString(n)) == Some(n)
  {
    FromCharsIntToString(n);
  }

  // ---------------------------------------------------------------------
  // The formats written to the buffers

  const NOT_ENOUGH_SUFFIX: string := ") => not enough arguments for quadratic equation\n"
  const NOT_CORRECT_SUFFIX: string := ") => not correct arguments for quadratic equation\n"

  /** `(%.20s` and, for a second token, `, %.20s`, then the "not enough" suffix. */
  function NotEnoughFormat(rest: seq<string>): seq<Conversion>
    requires 1 <= |rest| <= 2
  {
    [Text("("), Precision(rest[0], 20)]
    + (if |rest| == 2 then [Text(", "), Precision(rest[1], 20)] else [])
    + [Text(NOT_ENOUGH_SUFFIX)]
  }

  /** `(%.20s, %.20s, %.20s) => not correct arguments for quadratic equation\n` */
  function NotCorrectFormat(first: string, second: string, third: string): seq<Conversion> {
    [Text("("), Precision(first, 20), Text(", "), Precision(second, 20), Text(", "), Precision(third, 20),
     Text(NOT_CORRECT_SUFFIX)]
  }

  /** `(%d, %d, %d) => ` */
  function CoefficientsFormat(eq: EquationCoefficients): seq<Conversion> {
    [Text("("), Decimal(eq.a), Text(", "), Decimal(eq.b), Text(", "), Decimal(eq.c), Text(") => ")]
  }

  /** The root description, chosen by FindRoots; the roots are `%g` texts. */
  function RootsFormat(eq: EquationCoefficients, n: Numbers): seq<Conversion> {
    match FindRoots(eq)
    case AnyRoots => [Text("(any) ")]
    case NoRoots => [Text("(no roots) ")]
    case OneRoot => [Text("(["), Text(n.root1), Text("]) ")]
    case TwoRoots => [Text("(["), Text(n.root1), Text("], ["), Text(n.root2), Text("]) ")]
  }

  /** findExtremum's text for a parabola, "(no extremum)" for a line; it ends the line. */
  function ExtremumFormat(eq: EquationCoefficients, n: Numbers): seq<Conversion> {
    if eq.a == 0 then [Text("(no extremum)\n")]
    else [Text("(extremum: X=["), Text(n.x), Text("], Y=["), Text(n.y), Text("])\n")]
  }

  /** The whole line `solve` prints for one equation. */
  function ResultLine(eq: EquationCoefficients, n: Numbers): string {
    Sprintf(CoefficientsFormat(eq) + RootsFormat(eq, n) + ExtremumFormat(eq, n))
  }

  /** The coefficients are printed with `%d`, and so read back by ParseToInt. */
  lemma CoefficientsWidth(eq: EquationCoefficients)
    ensures var t := Sprintf(CoefficientsFormat(eq));
            && t == "(" + IntToString(eq.a) + ", " + IntToString(eq.b) + ", " + IntToString(eq.c) + ") => "
            && 11 <= |t| <= 43 && '\n' !in t
  {
    SprintfSeven(Text("("), Decimal(eq.a), Text(", "), Decimal(eq.b), Text(", "), Decimal(eq.c), Text(") => "));
    IntToStringLength(eq.a);
    IntToStringLength(eq.b);
    IntToStringLength(eq.c);
  }

  lemma RootsWidth(eq: EquationCoefficients, n: Numbers)
    ensures |Sprintf(RootsFormat(eq, n))| <= 35
  {
    match FindRoots(eq)
    case AnyRoots => SprintfOne(Text("(any) "));
    case NoRoots => SprintfOne(Text("(no roots) "));
    case OneRoot => SprintfThree(Text("(["), Text(n.root1), Text("]) "));
    case TwoRoots => SprintfFive(Text("(["), Text(n.root1), Text("], ["), Text(n.root2), Text("]) "));
  }

  lemma ExtremumWidth(eq: EquationCoefficients, n: Numbers)
    ensures |Sprintf(ExtremumFormat(eq, n))| <= 49 && EndsLine(Sprintf(ExtremumFormat(eq, n)))
  {
    if eq.a == 0 {
      SprintfOne(Text("(no extremum)\n"));
    } else {
      var head := [Text("(extremum: X=["), Text(n.x), Text("], Y=["), Text(n.y)];
      assert ExtremumFormat(eq, n) == head + [Text("])\n")];
      SprintfSnoc(head, Text("])\n"));
      SprintfFour(Text("(extremum: X=["), Text(n.x), Text("], Y=["), Text(n.y));
    }
  }

  /** Every result line ends the line and is short enough for the room kept free in the buffer. */
  lemma ResultLineShape(eq: EquationCoefficients, n: Numbers)
    ensures |ResultLine(eq, n)| < MAX_LENGTH_ONE_LINE
    ensures EndsLine(ResultLine(eq, n))
  {
    var cf, rf, ef := CoefficientsFormat(eq), RootsFormat(eq, n), ExtremumFormat(eq, n);
    SprintfAppend(cf + rf, ef);
    SprintfAppend(cf, rf);
    CoefficientsWidth(eq);
    RootsWidth(eq, n);
    ExtremumWidth(eq, n);
    EndsLineAfter(Sprintf(cf) + Sprintf(rf), Sprintf(ef));
  }

  /** A "not correct" report ends the line and takes at most 115 characters. */
  lemma NotCorrectWidth(first: string, second: string, third: string)
    ensures |Sprintf(NotCorrectFormat(first, second, third))| <= 115
    ensures EndsLine(Sprintf(NotCorrectFormat(first, second, third)))
  {
    var x, y, z := Truncated(first, 20), Truncated(second, 20), Truncated(third, 20);
    SprintfSeven(Text("("), Precision(first, 20), Text(", "), Precision(second, 20), Text(", "),
                 Precision(third, 20), Text(NOT_CORRECT_SUFFIX));
    assert Sprintf(NotCorrectFormat(first, second, third))
           == ("(" + x + ", " + y + ", " + z) + NOT_CORRECT_SUFFIX;
  }

  // ---------------------------------------------------------------------
  // What the parse loop makes of each group of tokens

  /** The triple a group is enqueued as: a full group whose three tokens all parse. */
  function ParsedTriple(g: Group): Option<EquationCoefficients> {
    match g
    case Tail(_) => None
    case Triple(x, y, z) =>
      var a, b, c := ParseToInt(x), ParseToInt(y), ParseToInt(z);
      if a.Some? && b.Some? && c.Some? then Some(EquationCoefficients(a.value, b.value, c.value)) else None
  }

  /** The report a group produces: nothing for an enqueued triple. */
  function Report(g: Group): string {
    match g
    case Tail(rest) => if 1 <= |rest| <= 2 then Sprintf(NotEnoughFormat(rest)) else ""
    case Triple(x, y, z) => if ParsedTriple(g).Some? then "" else Sprintf(NotCorrectFormat(x, y, z))
  }

  /** The triples enqueued for a sequence of groups, in order. */
  function ValidTriples(gs: seq<Group>): seq<EquationCoefficients>
    decreases |gs|
  {
    if |gs| == 0 then []
    else
      var last := ParsedTriple(gs[|gs| - 1]);
      ValidTriples(gs[..|gs| - 1]) + (if last.Some? then [last.value] else [])
  }

  /** The reports for a sequence of groups, in order. */
  function Reports(gs: seq<Group>): string
    decreases |gs|
  {
    if |gs| == 0 then [] else Reports(gs[..|gs| - 1]) + Report(gs[|gs| - 1])
  }

  lemma ValidTriplesSnoc(gs: seq<Group>, g: Group)
    ensures ValidTriples(gs + [g]) == ValidTriples(gs) + ValidTriples([g])
  {
    assert (gs + [g])[..|gs|] == gs;
    assert [g][..0] == [];
  }

  lemma {:induction false} ValidTriplesAppend(a: seq<Group>, b: seq<Group>)
    ensures ValidTriples(a + b) == ValidTriples(a) + ValidTriples(b)
    decreases |b|
  {
    if |b| == 0 {
      assert a + b == a;
    } else {
      var init, last := b[..|b| - 1], b[|b| - 1];
      assert b == init + [last];
      assert a + b == (a + init) + [last];
      ValidTriplesSnoc(a + init, last);
      ValidTriplesSnoc(init, last);
      ValidTriplesAppend(a, init);
      assert ValidTriples(a) + ValidTriples(init) + ValidTriples([last]) == ValidTriples(a) + (ValidTriples(init) + ValidTriples([last]));
    }
  }

  lemma ReportsSnoc(gs: seq<Group>, g: Group)
    ensures Reports(gs + [g]) == Reports(gs) + Report(g)
  {
    assert (gs + [g])[..|gs|] == gs;
  }

  lemma {:induction false} ReportsAppend(a: seq<Group>, b: seq<Group>)
    ensures Reports(a + b) == Reports(a) + Reports(b)
    decreases |b|
  {
    if |b| == 0 {
      assert a + b == a;
    } else {
      var init, last := b[..|b| - 1], b[|b| - 1];
      assert b == init + [last];
      assert a + b == (a + init) + [last];
      ReportsSnoc(a + init, last);
      ReportsSnoc(init, last);
      ReportsAppend(a, init);
      AppendAssociative3(Reports(a), Reports(init), Report(last));
    }
  }

  /**
   * One full step of the parse loop consumes exactly three tokens: the triple
   * is enqueued, in order after the earlier ones, when all three parse, and
   * otherwise exactly one "not correct" line is reported and nothing is
   * enqueued.
   */
  lemma StepOutcome(tokens: seq<string>, j: nat)
    requires j % 3 == 0 && j + 3 <= |tokens|
    ensures var a, b, c := ParseToInt(tokens[j]), ParseToInt(tokens[j + 1]), ParseToInt(tokens[j + 2]);
            var ok := a.Some? && b.Some? && c.Some?;
            && ValidTriples(Groups(tokens[..j + 3]))
               == ValidTriples(Groups(tokens[..j])) + (if ok then [EquationCoefficients(a.value, b.value, c.value)] else [])
            && Reports(Groups(tokens[..j + 3]))
               == Reports(Groups(tokens[..j])) + (if ok then "" else Sprintf(NotCorrectFormat(tokens[j], tokens[j + 1], tokens[j + 2])))
  {
    GroupsExtend(tokens, j);
    var gs := Groups(tokens[..j + 3]);
    assert gs[..|gs| - 1] == Groups(tokens[..j]);
  }

  /**
   * One or two tokens left: exactly one "not enough" line naming them, no
   * triple, and the loop stops with every token accounted for.
   */
  lemma TailOutcome(tokens: seq<string>, j: nat)
    requires j % 3 == 0 && j < |tokens| < j + 3
    ensures ValidTriples(Groups(tokens)) == ValidTriples(Groups(tokens[..j]))
    ensures Reports(Groups(tokens)) == Reports(Groups(tokens[..j])) + Sprintf(NotEnoughFormat(tokens[j..]))
  {
    GroupsFinish(tokens, j);
    var gs := Groups(tokens);
    assert gs[..|gs| - 1] == Groups(tokens[..j]);
  }

  // ---------------------------------------------------------------------
  // solve

  /** The lines printed for the given equations, in order. */
  function ResultsText(eqs: seq<EquationCoefficients>, numbers: EquationCoefficients -> Numbers): string
    decreases |eqs|
  {
    if |eqs| == 0 then []
    else ResultsText(eqs[..|eqs| - 1], numbers) + ResultLine(eqs[|eqs| - 1], numbers(eqs[|eqs| - 1]))
  }


  lemma AppendAssociative3<T>(a: seq<T>, b: seq<T>, c: seq<T>)
    ensures a + b + c == a + (b + c)
  {
  }

  /** findRootsNonParabola: the root text of a linear (or constant) equation. */
  method FindRootsNonParabola(buf: LineBuffer, eq: EquationCoefficients, n: Numbers)
    requires eq.a == 0
    requires buf.Valid() && buf.i + 35 < BUFFER_SIZE
    modifies buf, buf.buffer
    ensures buf.Valid() && buf.buffer == old(buf.buffer)
    ensures buf.Contents() == old(buf.Contents()) + Sprintf(RootsFormat(eq, n)) && buf.i <= old(buf.i) + 35
  {
    RootsWidth(eq, n);
    if eq.b == 0 {
      if eq.c == 0 {
        buf.Write(Sprintf([Text("(any) ")]));
      } else {
        buf.Write(Sprintf([Text("(no roots) ")]));
      }
    } else {
      buf.Write(Sprintf([Text("(["), Text(n.root1), Text("]) ")]));
    }
  }

  /** findExtremum: the vertex text that ends a parabola's line. */
  method FindExtremum(buf: LineBuffer, eq: EquationCoefficients, n: Numbers)
    requires eq.a != 0
    requires buf.Valid() && buf.i + 49 < BUFFER_SIZE
    modifies buf, buf.buffer
    ensures buf.Valid() && buf.buffer == old(buf.buffer)
    ensures buf.Contents() == old(buf.Contents()) + Sprintf(ExtremumFormat(eq, n)) && buf.i <= old(buf.i) + 49
  {
    ExtremumWidth(eq, n);
    buf.Write(Sprintf([Text("(extremum: X=["), Text(n.x), Text("], Y=["), Text(n.y), Text("])\n")]));
  }

  /** The three parts of a result line, as `solve` writes them one after the other. */
  lemma ResultLineParts(eq: EquationCoefficients, n: Numbers)
    ensures ResultLine(eq, n)
            == Sprintf(CoefficientsFormat(eq)) + Sprintf(RootsFormat(eq, n)) + Sprintf(ExtremumFormat(eq, n))
  {
    var cf, rf, ef := CoefficientsFormat(eq), RootsFormat(eq, n), ExtremumFormat(eq, n);
    SprintfAppend(cf + rf, ef);
    SprintfAppend(cf, rf);
  }

  /** The case selection of `solve` for a parabola, on the sign of the discriminant. */
  method WriteParabolaRoots(buf: LineBuffer, eq: EquationCoefficients, n: Numbers)
    requires eq.a != 0
    requires buf.Valid() && buf.i + 35 < BUFFER_SIZE
    modifies buf, buf.buffer
    ensures buf.Valid() && buf.buffer == old(buf.buffer)
    ensures buf.Contents() == old(buf.Contents()) + Sprintf(RootsFormat(eq, n)) && buf.i <= old(buf.i) + 35
  {
    RootsWidth(eq, n);
    var discriminant := eq.b * eq.b - 4 * eq.a * eq.c;
    assert discriminant == Discriminant(eq);
    if discriminant < 0 {
      buf.Write(Sprintf([Text("(no roots) ")]));
    } else if discriminant == 0 {
      buf.Write(Sprintf([Text("(["), Text(n.root1), Text("]) ")]));
    } else {
      buf.Write(Sprintf([Text("(["), Text(n.root1), Text("], ["), Text(n.root2), Text("]) ")]));
    }
  }

  /** The body of `solve`'s loop for one dequeued triple, after the flush check. */
  method WriteResult(buf: LineBuffer, eq: EquationCoefficients, n: Numbers)
    requires buf.Valid() && buf.i <= BUFFER_SIZE - MAX_LENGTH_ONE_LINE
    modifies buf, buf.buffer
    ensures buf.Valid() && buf.buffer == old(buf.buffer)
    ensures buf.Contents() == old(buf.Contents()) + ResultLine(eq, n)
  {
    ghost var start := buf.Contents();
    ghost var cf, rf, ef := Sprintf(CoefficientsFormat(eq)), Sprintf(RootsFormat(eq, n)), Sprintf(ExtremumFormat(eq, n));
    CoefficientsWidth(eq);
    ExtremumWidth(eq, n);
    buf.Write(Sprintf(CoefficientsFormat(eq)));
    if eq.a == 0 {
      FindRootsNonParabola(buf, eq, n);
      buf.Write(Sprintf([Text("(no extremum)\n")]));
    } else {
      WriteParabolaRoots(buf, eq, n);
      FindExtremum(buf, eq, n);
    }
    ResultLineParts(eq, n);
    ConcatAssociative4(start, cf, rf, ef);
  }

  /**
   * One iteration of `solve`'s loop on the k-th pending triple: the flush
   * check, the result line, and the next dequeue.
   */
  method SolveStep(queue: ConcurrentQueue<EquationCoefficients>, buf: LineBuffer, output: ConsoleOutput,
                   numbers: EquationCoefficients -> Numbers, eq: EquationCoefficients,
                   ghost text0: string, ghost pending: seq<EquationCoefficients>, ghost k: nat)
                   returns (next: Option<EquationCoefficients>)
    requires queue.isDone && buf.Valid()
    requires k < |pending| && eq == pending[k] && queue.queue == pending[k + 1..]
    requires Flatten(output.log) + buf.Contents() == text0 + ResultsText(pending[..k], numbers)
    modifies queue, buf, buf.buffer, output
    ensures queue.isDone && buf.Valid() && buf.buffer == old(buf.buffer)
    ensures Flatten(output.log) + buf.Contents() == text0 + ResultsText(pending[..k + 1], numbers)
    ensures next.Some? ==> k + 1 < |pending| && next.value == pending[k + 1] && queue.queue == pending[k + 2..]
    ensures next.None? ==> k + 1 == |pending| && queue.queue == []
  {
    ghost var before := Flatten(output.log) + buf.Contents();
    buf.FlushIfFull(output);
    ghost var mark := Flatten(output.log);
    ghost var kept := buf.Contents();
    WriteResult(buf, eq, numbers(eq));
    AppendAssociative3(mark, kept, ResultLine(eq, numbers(eq)));
    ResultsTextPrefix(pending, k, numbers);
    AppendAssociative3(text0, ResultsText(pending[..k], numbers), ResultLine(eq, numbers(eq)));
    next := queue.Dequeue();
  }

  /** The lines for the first k + 1 triples are those for the first k, then the k-th triple's line. */
  lemma ResultsTextPrefix(eqs: seq<EquationCoefficients>, k: nat, numbers: EquationCoefficients -> Numbers)
    requires k < |eqs|
    ensures ResultsText(eqs[..k + 1], numbers) == ResultsText(eqs[..k], numbers) + ResultLine(eqs[k], numbers(eqs[k]))
  {
    assert eqs[..k + 1][..k] == eqs[..k];
  }

  /**
   * The `solve` thread: dequeue until None, printing one result line per
   * triple through a LineBuffer, then print what is left in the buffer.
   * Run sequentially, the queue must already be done, or the final dequeue
   * would wait forever.  `numbers` stands for the floating-point root and
   * extremum computation and its `%g` texts.
   */
  method Solve(queue: ConcurrentQueue<EquationCoefficients>, output: ConsoleOutput,
               numbers: EquationCoefficients -> Numbers)
    requires queue.isDone
    modifies queue, output
    ensures queue.State() == QueueState([], true)
    ensures Flatten(output.log) == old(Flatten(output.log)) + ResultsText(old(queue.queue), numbers)
  {
    ghost var pending := queue.queue;
    ghost var text0 := Flatten(output.log);
    ghost var k := 0;
    var buf := new LineBuffer();
    var opt := queue.Dequeue();
    while opt.Some?
      invariant queue.isDone && 0 <= k <= |pending|
      invariant opt.Some? ==> k < |pending| && opt.value == pending[k] && queue.queue == pending[k + 1..]
      invariant opt.None? ==> k == |pending| && queue.queue == []
      invariant buf.Valid() && fresh(buf) && fresh(buf.buffer)
      invariant Flatten(output.log) + buf.Contents() == text0 + ResultsText(pending[..k], numbers)
      decreases |pending| - k
    {
      opt := SolveStep(queue, buf, output, numbers, opt.value, text0, pending, k);
      k := k + 1;
    }
    assert pending[..k] == pending;
    buf.Print(output);
  }

  // ---------------------------------------------------------------------
  // parse

  function BucketTokens(argv: seq<string>, b: Bucket): (tokens: seq<string>)
    requires InArgv(|argv|, b)
    ensures |tokens| == if b.amount > 0 then b.amount else 0
    ensures forall k :: 0 <= k < |tokens| ==> tokens[k] == argv[b.start + k]
  {
    if b.amount <= 0 then [] else argv[b.start..b.start + b.amount]
  }

  /** Everything a bucket's threads print: first its reports, then its results. */
  function BucketText(argv: seq<string>, b: Bucket, numbers: EquationCoefficients -> Numbers): string
    requires InArgv(|argv|, b)
  {
    var gs := Groups(BucketTokens(argv, b));
    Reports(gs) + ResultsText(ValidTriples(gs), numbers)
  }

  /**
   * The branch of `parse` for one or two leftover tokens: `(%.20s`, then
   * `, %.20s` when there is a second one, then the "not enough" suffix.
   */
  method ReportNotEnough(buf: LineBuffer, rest: seq<string>)
    requires 1 <= |rest| <= 2
    requires buf.Valid() && buf.i <= BUFFER_SIZE - MAX_LENGTH_ONE_LINE
    modifies buf, buf.buffer
    ensures buf.Valid() && buf.buffer == old(buf.buffer)
    ensures buf.Contents() == old(buf.Contents()) + Sprintf(NotEnoughFormat(rest))
  {
    ghost var start := buf.Contents();
    var first := [Text("("), Precision(rest[0], 20)];
    var second := if |rest| == 2 then [Text(", "), Precision(rest[1], 20)] else [];
    var suffix := [Text(NOT_ENOUGH_SUFFIX)];
    SprintfTwo(Text("("), Precision(rest[0], 20));
    buf.Write(Sprintf(first));
    if 1 < |rest| {
      SprintfTwo(Text(", "), Precision(rest[1], 20));
      buf.Write(Sprintf(second));
    }
    SprintfOne(Text(NOT_ENOUGH_SUFFIX));
    buf.Write(Sprintf(suffix));
    SprintfAppend(first + second, suffix);
    SprintfAppend(first, second);
    ConcatAssociative4(start, Sprintf(first), Sprintf(second), Sprintf(suffix));
  }

  /**
   * The body of `parse`'s loop for a full group, after the flush check:
   * parse the three tokens; enqueue the triple if all three parse,
   * otherwise write the "not correct" line.
   */
  method ParseTriple(queue: ConcurrentQueue<EquationCoefficients>, buf: LineBuffer, x: string, y: string, z: string)
    requires buf.Valid() && buf.i <= BUFFER_SIZE - MAX_LENGTH_ONE_LINE
    modifies queue, buf, buf.buffer
    ensures buf.Valid() && buf.buffer == old(buf.buffer) && queue.isDone == old(queue.isDone)
    ensures var p := ParsedTriple(Triple(x, y, z));
            queue.queue == old(queue.queue) + (if p.Some? then [p.value] else [])
    ensures buf.Contents() == old(buf.Contents()) + Report(Triple(x, y, z))
  {
    var a := ParseToInt(x);
    var b := ParseToInt(y);
    var c := ParseToInt(z);
    if a.None? || b.None? || c.None? {
      NotCorrectWidth(x, y, z);
      buf.Write(Sprintf(NotCorrectFormat(x, y, z)));
    } else {
      queue.Enqueue(EquationCoefficients(a.value, b.value, c.value));
    }
  }

  /** What `parse` has printed or buffered, and enqueued, after the first j tokens. */
  ghost predicate ParsedUpTo(tokens: seq<string>, j: nat, text0: string, pending: seq<EquationCoefficients>,
                             text: string, queued: seq<EquationCoefficients>)
  {
    && j <= |tokens|
    && text == text0 + Reports(Groups(tokens[..j]))
    && queued == pending + ValidTriples(Groups(tokens[..j]))
  }

  /** A group on its own enqueues its triple when all three tokens parse, and nothing otherwise. */
  lemma ValidTriplesOne(g: Group)
    ensures var p := ParsedTriple(g);
            ValidTriples([g]) == if p.Some? then [p.value] else []
  {
    assert [g][..0] == [];
  }

  /** A full group handled by ParseTriple moves the parse state three tokens on. */
  lemma TripleStep(tokens: seq<string>, j: nat, text0: string, pending: seq<EquationCoefficients>,
                   text: string, queued: seq<EquationCoefficients>)
    requires j % 3 == 0 && j + 3 <= |tokens|
    requires ParsedUpTo(tokens, j, text0, pending, text, queued)
    ensures var g := Triple(tokens[j], tokens[j + 1], tokens[j + 2]);
            ParsedUpTo(tokens, j + 3, text0, pending, text + Report(g), queued + ValidTriples([g]))
  {
    var g := Triple(tokens[j], tokens[j + 1], tokens[j + 2]);
    var before := Groups(tokens[..j]);
    GroupsExtend(tokens, j);
    ReportsSnoc(before, g);
    ValidTriplesSnoc(before, g);
    AppendAssociative3(text0, Reports(before), Report(g));
    AppendAssociative3(pending, ValidTriples(before), ValidTriples([g]));
  }

  lemma NextGroupStart(j: int)
    requires j % 3 == 0
    ensures (j + 3) % 3 == 0
  {
  }

  /** A short tail reported by ReportNotEnough leaves the parse state at the end of the tokens. */
  lemma TailStep(tokens: seq<string>, j: nat, text0: string, pending: seq<EquationCoefficients>,
                 text: string, queued: seq<EquationCoefficients>)
    requires j % 3 == 0 && j < |tokens| < j + 3
    requires ParsedUpTo(tokens, j, text0, pending, text, queued)
    ensures var g := Tail(tokens[j..]);
            ParsedUpTo(tokens, |tokens|, text0, pending, text + Report(g), queued + ValidTriples([g]))
  {
    var g := Tail(tokens[j..]);
    var before := Groups(tokens[..j]);
    GroupsFinish(tokens, j);
    assert tokens[..|tokens|] == tokens;
    ReportsSnoc(before, g);
    ValidTriplesSnoc(before, g);
    AppendAssociative3(text0, Reports(before), Report(g));
    AppendAssociative3(pending, ValidTriples(before), ValidTriples([g]));
  }

  lemma SliceTriple(s: seq<string>, lo: int, hi: int, j: int)
    requires 0 <= lo <= hi <= |s| && 0 <= j && lo + j + 3 <= hi
    ensures var t := s[lo..hi];
            t[j] == s[lo + j] && t[j + 1] == s[lo + j + 1] && t[j + 2] == s[lo + j + 2]
  {
  }

  /** The group `parse` handles at offset j of a bucket: a full triple, or the one or two tokens left. */
  function GroupAt(argv: seq<string>, startIndex: int, amount: int, j: int): Group
    requires 0 <= startIndex && 0 <= j < amount && startIndex + amount <= |argv|
  {
    var pos := startIndex + j;
    if j + 3 > amount then Tail(argv[pos..startIndex + amount]) else Triple(argv[pos], argv[pos + 1], argv[pos + 2])
  }

  /** One pass of `parse`'s loop moves the parse state past the group it handled. */
  lemma ParseAdvance(argv: seq<string>, startIndex: int, amount: int, j: nat, text0: string,
                     pending: seq<EquationCoefficients>, text: string, queued: seq<EquationCoefficients>)
    requires InArgv(|argv|, Bucket(startIndex, amount)) && j < amount && j % 3 == 0
    requires ParsedUpTo(BucketTokens(argv, Bucket(startIndex, amount)), j, text0, pending, text, queued)
    ensures var g := GroupAt(argv, startIndex, amount, j);
            ParsedUpTo(BucketTokens(argv, Bucket(startIndex, amount)), if j + 3 > amount then amount else j + 3,
                       text0, pending, text + Report(g), queued + ValidTriples([g]))
  {
    var tokens := BucketTokens(argv, Bucket(startIndex, amount));
    assert tokens == argv[startIndex..startIndex + amount];
    if j + 3 > amount {
      assert tokens[j..] == argv[startIndex + j..startIndex + amount];
      assert GroupAt(argv, startIndex, amount, j) == Tail(tokens[j..]);
      TailStep(tokens, j, text0, pending, text, queued);
    } else {
      SliceTriple(argv, startIndex, startIndex + amount, j);
      assert GroupAt(argv, startIndex, amount, j) == Triple(tokens[j], tokens[j + 1], tokens[j + 2]);
      TripleStep(tokens, j, text0, pending, text, queued);
    }
  }

  /**
   * One pass of `parse`'s loop at offset j: the flush check, then either
   * the "not enough" line for a short tail (after which the loop stops) or
   * a full group of three.  What is printed or buffered grows by the
   * group's report, the queue by its triple.
   */
  method ParseStep(queue: ConcurrentQueue<EquationCoefficients>, buf: LineBuffer, output: ConsoleOutput,
                   argv: seq<string>, startIndex: int, amount: int, j: int)
                   returns (stop: bool)
    requires 0 <= startIndex && 0 <= j < amount && startIndex + amount <= |argv|
    requires buf.Valid()
    modifies queue, buf, buf.buffer, output
    ensures buf.Valid() && buf.buffer == old(buf.buffer) && queue.isDone == old(queue.isDone)
    ensures stop <==> j + 3 > amount
    ensures var g := GroupAt(argv, startIndex, amount, j);
            && Flatten(output.log) + buf.Contents() == old(Flatten(output.log) + buf.Contents()) + Report(g)
            && queue.queue == old(queue.queue) + ValidTriples([g])
  {
    buf.FlushIfFull(output);
    var pos := startIndex + j;
    ghost var flushed, kept := Flatten(output.log), buf.Contents();
    if j + 3 > amount {
      var rest := argv[pos..startIndex + amount];
      ReportNotEnough(buf, rest);
      ValidTriplesOne(Tail(rest));
      AppendAssociative3(flushed, kept, Report(Tail(rest)));
      return true;
    }
    ParseTriple(queue, buf, argv[pos], argv[pos + 1], argv[pos + 2]);
    ValidTriplesOne(Triple(argv[pos], argv[pos + 1], argv[pos + 2]));
    AppendAssociative3(flushed, kept, Report(Triple(argv[pos], argv[pos + 1], argv[pos + 2])));
    return false;
  }

  /**
   * The loop of `parse`: walk the bucket's tokens three at a time, enqueue
   * the triples that parse, report the others, stop at a short tail.
   * Printed and buffered text grows by the reports of all the bucket's
   * groups, the queue by their triples.
   */
  method ParseLoop(queue: ConcurrentQueue<EquationCoefficients>, buf: LineBuffer, output: ConsoleOutput,
                   argv: seq<string>, startIndex: int, amount: int)
    requires InArgv(|argv|, Bucket(startIndex, amount))
    requires buf.Valid()
    modifies queue, buf, buf.buffer, output
    ensures buf.Valid() && buf.buffer == old(buf.buffer) && queue.isDone == old(queue.isDone)
    ensures ParsedUpTo(BucketTokens(argv, Bucket(startIndex, amount)), |BucketTokens(argv, Bucket(startIndex, amount))|,
                       old(Flatten(output.log) + buf.Contents()), old(queue.queue),
                       Flatten(output.log) + buf.Contents(), queue.queue)
  {
    ghost var tokens := BucketTokens(argv, Bucket(startIndex, amount));
    ghost var text0 := Flatten(output.log) + buf.Contents();
    ghost var pending := queue.queue;
    ghost var consumed := 0;
    assert tokens[..0] == [];
    var j := 0;
    while j < amount
      invariant 0 <= j && j % 3 == 0 && consumed == j
      invariant buf.Valid() && buf.buffer == old(buf.buffer) && queue.isDone == old(queue.isDone)
      invariant ParsedUpTo(tokens, consumed, text0, pending, Flatten(output.log) + buf.Contents(), queue.queue)
    {
      ParseAdvance(argv, startIndex, amount, j, text0, pending, Flatten(output.log) + buf.Contents(), queue.queue);
      var stop := ParseStep(queue, buf, output, argv, startIndex, amount, j);
      if stop {
        consumed := amount;
        break;
      }
      NextGroupStart(j);
      j := j + 3;
      consumed := j;
    }
    assert consumed == |tokens|;
  }

  /** After the whole bucket, the parse state covers all of its groups. */
  lemma ParsedAll(tokens: seq<string>, text0: string, pending: seq<EquationCoefficients>,
                  text: string, queued: seq<EquationCoefficients>)
    requires ParsedUpTo(tokens, |tokens|, text0, pending, text, queued)
    ensures text == text0 + Reports(Groups(tokens)) && queued == pending + ValidTriples(Groups(tokens))
  {
    assert tokens[..|tokens|] == tokens;
  }

  /**
   * The `parse` thread of one bucket: the loop, then print the buffer, set
   * the queue done, and drain the queue as a `solve` thread.
   */
  method Parse(queue: ConcurrentQueue<EquationCoefficients>, startIndex: int, amount: int,
               argv: seq<string>, output: ConsoleOutput, numbers: EquationCoefficients -> Numbers)
    requires InArgv(|argv|, Bucket(startIndex, amount))
    modifies queue, output
    ensures queue.State() == QueueState([], true)
    ensures var gs := Groups(BucketTokens(argv, Bucket(startIndex, amount)));
            Flatten(output.log)
            == old(Flatten(output.log)) + Reports(gs) + ResultsText(old(queue.queue) + ValidTriples(gs), numbers)
  {
    ghost var tokens := BucketTokens(argv, Bucket(startIndex, amount));
    var buf := new LineBuffer();
    assert Flatten(output.log) + buf.Contents() == Flatten(output.log);
    ParseLoop(queue, buf, output, argv, startIndex, amount);
    ParsedAll(tokens, old(Flatten(output.log)), old(queue.queue), Flatten(output.log) + buf.Contents(), queue.queue);
    buf.Print(output);
    queue.SetDone();
    Solve(queue, output, numbers);
  }

  // ---------------------------------------------------------------------
  // run

  /** The groups the parse threads of the given buckets see, bucket after bucket. */
  function BucketGroups(argv: seq<string>, bs: seq<Bucket>): seq<Group>
    requires forall k :: 0 <= k < |bs| ==> InArgv(|argv|, bs[k])
    decreases |bs|
  {
    if |bs| == 0 then []
    else BucketGroups(argv, bs[..|bs| - 1]) + Groups(BucketTokens(argv, bs[|bs| - 1]))
  }

  /** Where the first k buckets end (1 for none). */
  function BucketsEnd(bs: seq<Bucket>, k: nat): int
    requires k <= |bs|
  {
    if k == 0 then 1 else bs[k - 1].start + bs[k - 1].amount
  }

  lemma PrefixOfPrefix<T>(s: seq<T>, k: nat)
    requires k < |s|
    ensures s[..k + 1][..k] == s[..k] && s[..k + 1][k] == s[k] && |s[..k + 1]| == k + 1
  {
  }

  lemma SliceSplit(s: seq<string>, lo: int, mid: int, hi: int)
    requires 0 <= lo <= mid <= hi <= |s|
    ensures s[lo..hi] == s[lo..mid] + s[mid..hi]
  {
  }

  /** Where the first k buckets end: inside argv, on a triple boundary, and where bucket k starts. */
  lemma BucketsEndFacts(argc: int, numOfThreads: int, per: int, k: nat)
    requires 1 <= argc && 2 <= numOfThreads && 3 <= per && per % 3 == 0
    requires k <= numOfThreads / 2
    ensures var bs := Buckets(argc, numOfThreads, per);
            && 1 <= BucketsEnd(bs, k) <= argc
            && (BucketsEnd(bs, k) == argc || (BucketsEnd(bs, k) - 1) % 3 == 0)
            && (k < |bs| ==> bs[k].start == BucketsEnd(bs, k))
  {
    var bs := Buckets(argc, numOfThreads, per);
    BucketsPartition(argc, numOfThreads, per);
    if 0 < k < |bs| {
      BucketsContiguous(argc, numOfThreads, per, k - 1);
    }
  }

  /** Splitting argv[1..end) at a triple boundary splits its groups there. */
  lemma GroupsSplitAt(argv: seq<string>, before: int, end: int)
    requires 1 <= before <= end <= |argv| && (before - 1) % 3 == 0
    ensures Groups(argv[1..end]) == Groups(argv[1..before]) + Groups(argv[before..end])
  {
    SliceSplit(argv, 1, before, end);
    GroupsAppend(argv[1..before], argv[before..end]);
  }

  /**
   * Buckets laid end to end from index 1 inside [1, argc), each starting on
   * a triple boundary unless it starts at argc.
   */
  ghost predicate Chained(argc: int, bs: seq<Bucket>) {
    && (forall m :: 0 <= m < |bs| ==> InArgv(argc, bs[m]))
    && forall m {:trigger BucketsEnd(bs, m)} :: 0 <= m < |bs| ==>
         && bs[m].start == BucketsEnd(bs, m)
         && 1 <= bs[m].start && 0 <= bs[m].amount && bs[m].start + bs[m].amount <= argc
         && (bs[m].start == argc || (bs[m].start - 1) % 3 == 0)
  }

  lemma BucketsChained(argc: int, numOfThreads: int, per: int)
    requires 1 <= argc && 2 <= numOfThreads && 3 <= per && per % 3 == 0
    ensures Chained(argc, Buckets(argc, numOfThreads, per))
  {
    var bs := Buckets(argc, numOfThreads, per);
    BucketsPartition(argc, numOfThreads, per);
    forall m | 0 <= m < |bs|
      ensures bs[m].start == BucketsEnd(bs, m)
      ensures 1 <= bs[m].start && 0 <= bs[m].amount && bs[m].start + bs[m].amount <= argc
      ensures bs[m].start == argc || (bs[m].start - 1) % 3 == 0
    {
      BucketsEndFacts(argc, numOfThreads, per, m);
    }
  }

  lemma {:induction false} BucketGroupsPrefix(argv: seq<string>, bs: seq<Bucket>, k: nat)
    requires 1 <= |argv| && Chained(|argv|, bs) && k <= |bs|
    ensures 1 <= BucketsEnd(bs, k) <= |argv|
    ensures BucketGroups(argv, bs[..k]) == Groups(argv[1..BucketsEnd(bs, k)])
    decreases k
  {
    if k == 0 {
      assert argv[1..1] == [];
    } else {
      BucketGroupsPrefix(argv, bs, k - 1);
      var before := BucketsEnd(bs, k - 1);
      assert bs[k - 1].start == before;
      assert bs[..k] == bs[..k - 1] + [bs[k - 1]];
      BucketGroupsStep(argv, bs[..k - 1], bs[k - 1], before);
    }
  }

  /** One more bucket, starting where the others end, adds the groups of its tokens. */
  lemma BucketGroupsStep(argv: seq<string>, prev: seq<Bucket>, b: Bucket, before: int)
    requires forall m :: 0 <= m < |prev| ==> InArgv(|argv|, prev[m])
    requires 1 <= before && b.start == before && 0 <= b.amount && before + b.amount <= |argv|
    requires before == |argv| || (before - 1) % 3 == 0
    requires BucketGroups(argv, prev) == Groups(argv[1..before])
    ensures forall m :: 0 <= m < |prev + [b]| ==> InArgv(|argv|, (prev + [b])[m])
    ensures BucketGroups(argv, prev + [b]) == Groups(argv[1..before + b.amount])
  {
    BucketGroupsSnoc(argv, prev, b);
    BucketTokensContinue(argv, b, before);
  }

  /** The groups of buckets with one more at the end: those of the others, then its own. */
  lemma BucketGroupsSnoc(argv: seq<string>, prev: seq<Bucket>, b: Bucket)
    requires forall m :: 0 <= m < |prev| ==> InArgv(|argv|, prev[m])
    requires InArgv(|argv|, b)
    ensures forall m :: 0 <= m < |prev + [b]| ==> InArgv(|argv|, (prev + [b])[m])
    ensures BucketGroups(argv, prev + [b]) == BucketGroups(argv, prev) + Groups(BucketTokens(argv, b))
  {
    var bs := prev + [b];
    forall m | 0 <= m < |bs|
      ensures InArgv(|argv|, bs[m])
    {
      if m < |prev| {
        assert bs[m] == prev[m];
      }
    }
    assert bs[..|bs| - 1] == prev && bs[|bs| - 1] == b;
  }

  /** The groups of argv[1..before], then those of a bucket starting at before, are those of argv[1..end]. */
  lemma BucketTokensContinue(argv: seq<string>, b: Bucket, before: int)
    requires 1 <= before && b.start == before && 0 <= b.amount && before + b.amount <= |argv|
    requires before == |argv| || (before - 1) % 3 == 0
    ensures Groups(argv[1..before]) + Groups(BucketTokens(argv, b)) == Groups(argv[1..before + b.amount])
  {
    if b.amount > 0 {
      assert BucketTokens(argv, b) == argv[before..before + b.amount];
      GroupsSplitAt(argv, before, before + b.amount);
    } else {
      assert Groups(argv[1..before]) + Groups([]) == Groups(argv[1..before]);
    }
  }

  /**
   * Nothing lost, nothing read twice: the buckets' groups, in bucket order,
   * are exactly the groups of argv[1..argc) taken as one sequence.
   */
  lemma BucketsCoverArguments(argv: seq<string>, numOfThreads: int, per: int)
    requires 1 <= |argv| && 2 <= numOfThreads && 3 <= per && per % 3 == 0
    ensures var bs := Buckets(|argv|, numOfThreads, per);
            (forall k :: 0 <= k < |bs| ==> InArgv(|argv|, bs[k]))
            && BucketGroups(argv, bs) == Groups(argv[1..])
  {
    var bs := Buckets(|argv|, numOfThreads, per);
    BucketsChained(|argv|, numOfThreads, per);
    BucketGroupsPrefix(argv, bs, |bs|);
    BucketsEndFacts(|argv|, numOfThreads, per, |bs|);
    assert bs[..|bs|] == bs;
    assert argv[1..|argv|] == argv[1..];
  }

  /** What the threads of each bucket print, bucket by bucket. */
  function BucketTexts(argv: seq<string>, bs: seq<Bucket>, numbers: EquationCoefficients -> Numbers): seq<string>
    requires forall k :: 0 <= k < |bs| ==> InArgv(|argv|, bs[k])
  {
    seq(|bs|, k requires 0 <= k < |bs| => BucketText(argv, bs[k], numbers))
  }

  /** Everything the threads of the given buckets print, bucket after bucket. */
  function RunText(argv: seq<string>, bs: seq<Bucket>, numbers: EquationCoefficients -> Numbers): string
    requires forall k :: 0 <= k < |bs| ==> InArgv(|argv|, bs[k])
  {
    Flatten(BucketTexts(argv, bs, numbers))
  }

  /**
   * The threads of the first |texts| buckets have run: texts[k] is what
   * those of bucket k printed.
   */
  ghost predicate BucketsPrinted(argv: seq<string>, bs: seq<Bucket>, numbers: EquationCoefficients -> Numbers,
                                 texts: seq<string>)
  {
    && |texts| <= |bs|
    && (forall k :: 0 <= k < |bs| ==> InArgv(|argv|, bs[k]))
    && forall k {:trigger BucketText(argv, bs[k], numbers)} :: 0 <= k < |texts| ==>
         texts[k] == BucketText(argv, bs[k], numbers)
  }

  /**
   * The bucket `run` hands to its threads in pass |texts| is bucket |texts|
   * of the corrected plan, so what those threads print extends the texts.
   */
  lemma RunStep(argv: seq<string>, numOfThreads: int, per: int, numbers: EquationCoefficients -> Numbers,
                texts: seq<string>, start: int, amount: int)
    requires 2 <= numOfThreads && |texts| < numOfThreads / 2
    requires BucketsPrinted(argv, Buckets(|argv|, numOfThreads, per), numbers, texts)
    requires start == Min(1 + |texts| * per, |argv|)
    requires amount == if |texts| + 1 == numOfThreads / 2 then |argv| - start else Min(per, |argv| - start)
    ensures InArgv(|argv|, Bucket(start, amount))
    ensures BucketsPrinted(argv, Buckets(|argv|, numOfThreads, per), numbers,
                           texts + [BucketText(argv, Bucket(start, amount), numbers)])
  {
    var bs := Buckets(|argv|, numOfThreads, per);
    BucketAt(|argv|, numOfThreads, per, |texts|);
    PrintedSnoc(argv, bs, numbers, texts, Bucket(start, amount));
  }

  /** Running the next bucket of the plan extends the texts by its text. */
  lemma PrintedSnoc(argv: seq<string>, bs: seq<Bucket>, numbers: EquationCoefficients -> Numbers,
                    texts: seq<string>, b: Bucket)
    requires BucketsPrinted(argv, bs, numbers, texts) && |texts| < |bs| && bs[|texts|] == b
    ensures InArgv(|argv|, b)
    ensures BucketsPrinted(argv, bs, numbers, texts + [BucketText(argv, b, numbers)])
  {
    var ts := texts + [BucketText(argv, b, numbers)];
    forall k | 0 <= k < |ts|
      ensures ts[k] == BucketText(argv, bs[k], numbers)
    {
      if k < |texts| {
        assert ts[k] == texts[k];
      }
    }
  }

  /** Once every bucket has run, the texts are the run's text bucket by bucket. */
  lemma AllBucketsPrinted(argv: seq<string>, bs: seq<Bucket>, numbers: EquationCoefficients -> Numbers,
                          texts: seq<string>)
    requires BucketsPrinted(argv, bs, numbers, texts) && |texts| == |bs|
    ensures forall k :: 0 <= k < |bs| ==> InArgv(|argv|, bs[k])
    ensures texts == BucketTexts(argv, bs, numbers)
  {
    var all := BucketTexts(argv, bs, numbers);
    forall k | 0 <= k < |bs|
      ensures texts[k] == all[k]
    {
      assert all[k] == BucketText(argv, bs[k], numbers);
    }
  }

  /**
   * The two threads of one bucket, run one after the other: `parse` (which
   * ends by draining the queue itself), then `solve`, which finds the queue
   * done and empty and prints an empty buffer.
   */
  method RunBucket(argv: seq<string>, startIndex: int, argsInBucket: int, output: ConsoleOutput,
                   numbers: EquationCoefficients -> Numbers)
    requires InArgv(|argv|, Bucket(startIndex, argsInBucket))
    modifies output
    ensures Flatten(output.log) == old(Flatten(output.log)) + BucketText(argv, Bucket(startIndex, argsInBucket), numbers)
  {
    ghost var text0 := Flatten(output.log);
    var queue := new ConcurrentQueue<EquationCoefficients>();
    Parse(queue, startIndex, argsInBucket, argv, output, numbers);
    ghost var parsed := Flatten(output.log);
    Solve(queue, output, numbers);
    BucketTextSplit(argv, Bucket(startIndex, argsInBucket), numbers, text0, parsed, Flatten(output.log));
  }

  /** The parse thread prints the whole of the bucket's text; the solve thread after it, nothing. */
  lemma BucketTextSplit(argv: seq<string>, b: Bucket, numbers: EquationCoefficients -> Numbers,
                        text0: string, parsed: string, solved: string)
    requires InArgv(|argv|, b)
    requires var gs := Groups(BucketTokens(argv, b));
             parsed == text0 + Reports(gs) + ResultsText([] + ValidTriples(gs), numbers)
    requires solved == parsed + ResultsText([], numbers)
    ensures solved == text0 + BucketText(argv, b, numbers)
  {
    var gs := Groups(BucketTokens(argv, b));
    assert [] + ValidTriples(gs) == ValidTriples(gs);
    AppendAssociative3(text0, Reports(gs), ResultsText(ValidTriples(gs), numbers));
  }

  /**
   * `run` with the bucket bounds kept inside argv and one bucket per queue:
   * the bucket size from getArgsPerOneBucket, then the threads of each
   * bucket in turn.  The thread count is a parameter (at least 2, as the
   * source ensures).
   */
  method Run(argv: seq<string>, numOfThreads: int, output: ConsoleOutput, numbers: EquationCoefficients -> Numbers)
    requires 1 <= |argv| && 2 <= numOfThreads
    modifies output
    ensures var bs := Buckets(|argv|, numOfThreads, ArgsPerOneBucket(|argv|, numOfThreads));
            (forall k :: 0 <= k < |bs| ==> InArgv(|argv|, bs[k]))
            && Flatten(output.log) == old(Flatten(output.log)) + RunText(argv, bs, numbers)
  {
    var argc := |argv|;
    var argsPerOneBucket := GetArgsPerOneBucket(argc, numOfThreads);
    ghost var bs := Buckets(argc, numOfThreads, argsPerOneBucket);
    BucketsPartition(argc, numOfThreads, argsPerOneBucket);
    ghost var text0 := Flatten(output.log);
    ghost var texts: seq<string> := [];
    var i := 0;
    while i < numOfThreads / 2
      invariant 0 <= i <= numOfThreads / 2 && |texts| == i
      invariant BucketsPrinted(argv, bs, numbers, texts)
      invariant Flatten(output.log) == text0 + Flatten(texts)
    {
      var startIndex := Min(1 + i * argsPerOneBucket, argc);
      var argsInBucket := if i + 1 == numOfThreads / 2 then argc - startIndex else Min(argsPerOneBucket, argc - startIndex);
      RunStep(argv, numOfThreads, argsPerOneBucket, numbers, texts, startIndex, argsInBucket);
      ghost var text := BucketText(argv, Bucket(startIndex, argsInBucket), numbers);
      RunBucket(argv, startIndex, argsInBucket, output, numbers);
      FlattenSnoc(texts, text);
      AppendAssociative3(text0, Flatten(texts), text);
      texts := texts + [text];
      i := i + 1;
    }
    AllBucketsPrinted(argv, bs, numbers, texts);
  }
}
