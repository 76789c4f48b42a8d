/**
 * SingleThreadSolution/main.cpp: the same command-line solver without
 * threads.  Everything goes through one global output buffer of 65536
 * characters that is flushed to standard output once its offset reaches
 * the high-water mark; tokens are parsed leniently (a numeric prefix is
 * enough); an equation with a == b == 0 is reported as degenerate.
 */
module SingleThread {
  import opened Wrappers
  import opened CharConv
  import opened Console
  import opened Grouping
  import opened Equation
  import opened Printf
  import SolvingManager

  const BUFFER_SIZE: int := 65536
  /** Room kept free for one more line; most lines written are shorter than this. */
  const MAX_LENGTH_ONE_LINE: int := 300

  const USAGE: string := "Usage: ./se_solver [a1] [b1] [c1] [a2] [b2] [c2] ...\n"
  const NOT_ENOUGH_SUFFIX: string := ") => not enough arguments for quadratic equation\n"
  const NOT_CORRECT_SUFFIX: string := ") => not correct arguments for quadratic equation\n"
  const DEGENERATE: string := " => no roots (degenerate equation)\n"

  // ---------------------------------------------------------------------
  // The global output buffer

  /**
   * `output_buffer` and `buffer_offset`: text is appended at the offset,
   * the rest of the array stays NUL, and the offset is kept below the
   * high-water mark BUFFER_SIZE - MAX_LENGTH_ONE_LINE between appends.
   */
  class OutputBuffer {
    var buffer: array<char>
    var offset: int

    /** The text ends at the offset and is followed by NULs only. */
    ghost predicate Terminated()
      reads this, buffer
    {
      && buffer.Length == BUFFER_SIZE
      && 0 <= offset < BUFFER_SIZE
      && forall k :: offset <= k < BUFFER_SIZE ==> buffer[k] == '\0'
    }

    ghost predicate Valid()
      reads this, buffer
    {
      Terminated() && offset < BUFFER_SIZE - MAX_LENGTH_ONE_LINE
    }

    /** The text appended since the last flush. */
    function Contents(): string
      reads this, buffer
      requires Terminated()
    {
      buffer[..offset]
    }

    /** The zero-initialised static buffer. */
    constructor ()
      ensures Valid() && fresh(buffer) && Contents() == []
    {
      buffer := new char[BUFFER_SIZE](_ => '\0');
      offset := 0;
    }

    /**
     * `print`: write the contents to standard output, clear them with
     * memset, and set the offset back to 0.
     */
    method Print(output: ConsoleOutput)
      requires Terminated()
      modifies this, buffer, output
      ensures Valid() && buffer == old(buffer) && Contents() == []
      ensures output.log == old(output.log) + [old(Contents())]
      ensures Flatten(output.log) == old(Flatten(output.log)) + old(Contents())
    {
      ghost var log0 := output.log;
      output.Print(buffer[..offset]);
      assert output.log[..|output.log| - 1] == log0;
      // std::memset(output_buffer, '\0', buffer_offset)
      var k := 0;
      while k < offset
        invariant 0 <= k <= offset
        invariant forall m :: 0 <= m < k ==> buffer[m] == '\0'
        invariant forall m :: offset <= m < BUFFER_SIZE ==> buffer[m] == '\0'
        modifies buffer
      {
        buffer[k] := '\0';
        k := k + 1;
      }
      offset := 0;
    }

    /** vsnprintf of a text that fits: the text and its NUL go at the offset. */
    method Store(piece: string)
      requires Terminated() && offset + |piece| < BUFFER_SIZE
      modifies this, buffer
      ensures Terminated() && buffer == old(buffer)
      ensures Contents() == old(Contents()) + piece && offset == old(offset) + |piece|
    {
      var k := 0;
      while k < |piece|
        invariant 0 <= k <= |piece|
        invariant buffer[..offset] == old(buffer[..offset])
        invariant buffer[offset..offset + k] == piece[..k]
        invariant forall m :: offset + |piece| <= m < BUFFER_SIZE ==> buffer[m] == '\0'
        modifies buffer
      {
        buffer[offset + k] := piece[k];
        k := k + 1;
      }
      buffer[offset + |piece|] := '\0';
      assert buffer[offset..offset + |piece|] == piece;
      assert buffer[..offset + |piece|] == buffer[..offset] + buffer[offset..offset + |piece|];
      offset := offset + |piece|;
    }

    /**
     * `appendToBuffer` with `piece` the formatted text, corrected for a
     * piece that does not fit in the room left: the contents are flushed
     * and the piece goes to standard output whole.  A piece that fits is
     * stored as the source stores it, followed by the flush once the
     * offset reaches the high-water mark.  Nothing is lost or reordered.
     */
    method Append(piece: string, output: ConsoleOutput)
      requires Valid()
      modifies this, buffer, output
      ensures Valid() && buffer == old(buffer)
      ensures Flatten(output.log) + Contents() == old(Flatten(output.log) + Contents()) + piece
      ensures |piece| == 0 ==> output.log == old(output.log) && Contents() == old(Contents())
      ensures 0 < |piece| && old(offset) + |piece| < BUFFER_SIZE - MAX_LENGTH_ONE_LINE ==>
                output.log == old(output.log) && Contents() == old(Contents()) + piece
      ensures BUFFER_SIZE - MAX_LENGTH_ONE_LINE <= old(offset) + |piece| < BUFFER_SIZE ==>
                output.log == old(output.log) + [old(Contents()) + piece] && Contents() == []
      ensures old(offset) + |piece| >= BUFFER_SIZE ==>
                output.log == old(output.log) + [old(Contents()), piece] && Contents() == []
    {
      if |piece| == 0 {
        return;
      }
      ghost var flushed, kept := Flatten(output.log), Contents();
      if offset + |piece| < BUFFER_SIZE {
        Store(piece);
        if offset >= BUFFER_SIZE - MAX_LENGTH_ONE_LINE {
          Print(output);
        }
        ConcatAssociative(flushed, kept, piece);
      } else {
        Print(output);
        ghost var log1 := output.log;
        output.Print(piece);
        assert output.log[..|output.log| - 1] == log1;
        FlattenSnoc(log1, piece);
        ConcatAssociative(flushed, kept, piece);
      }
    }
  }

  // ---------------------------------------------------------------------
  // appendToBuffer as written

  /** The buffer's text and offset after one appendToBuffer as written, and whether it flushes. */
  datatype AppendOutcome = AppendOutcome(stored: string, offset: int, flushes: bool)

  /**
   * appendToBuffer as written, starting from `contents` at offsets
   * 0..|contents|: vsnprintf stores at most room - 1 characters but
   * returns the full length, and the offset moves by that length.
   */
  function AppendAsWritten(contents: string, piece: string): (r: AppendOutcome)
    requires |contents| < BUFFER_SIZE
    ensures |contents| <= |r.stored| < BUFFER_SIZE && r.stored[..|contents|] == contents
    ensures r.stored[|contents|..] <= piece
    ensures r.offset == |contents| + |piece|
  {
    var room := BUFFER_SIZE - |contents|;
    if |piece| == 0 then AppendOutcome(contents, |contents|, false)
    else
      var stored := contents + (if |piece| < room then piece else piece[..room - 1]);
      var offset := |contents| + |piece|;
      AppendOutcome(stored, offset, offset >= BUFFER_SIZE - MAX_LENGTH_ONE_LINE)
  }

  /**
   * The written code keeps the buffer consistent (the whole piece stored,
   * the offset at its end and inside the array) exactly when the piece is
   * shorter than the room left.
   */
  lemma AppendAsWrittenExactIff(contents: string, piece: string)
    requires |contents| < BUFFER_SIZE - MAX_LENGTH_ONE_LINE
    ensures var r := AppendAsWritten(contents, piece);
            (r.stored == contents + piece && r.offset == |r.stored| && r.offset < BUFFER_SIZE)
            <==> |piece| < BUFFER_SIZE - |contents|
  {
    var r := AppendAsWritten(contents, piece);
    if |piece| >= BUFFER_SIZE - |contents| {
      assert |r.stored| == BUFFER_SIZE - 1;
    }
  }

  /**
   * A single leftover argument of 65536 characters, reported in the "not
   * enough" line: the buffer already holds at least the "(" written before
   * it, so vsnprintf keeps only 65535 - |contents| of its characters while
   * the offset moves past BUFFER_SIZE; the flush that follows clears
   * `offset` bytes from the start of the array, past its end, and the rest
   * of the token never reaches the output.  From contents "(" alone, 65534
   * characters are kept and the offset becomes 65537.
   */
  lemma LongTokenOverrunsBuffer(contents: string)
    requires 1 <= |contents| < BUFFER_SIZE - MAX_LENGTH_ONE_LINE
    ensures var piece := seq(BUFFER_SIZE, _ => '7');
            var r := AppendAsWritten(contents, piece);
            && r.flushes && r.offset > BUFFER_SIZE
            && |r.stored| == BUFFER_SIZE - 1 && r.stored[..|contents|] == contents
            && |r.stored| - |contents| < |piece|
  {
  }

  /**
   * A piece that ends exactly at the end of the array, such as a "not
   * correct" line of 301 characters written at offset 65235: vsnprintf
   * keeps all of it but its last character (the newline) for the NUL, the
   * offset becomes BUFFER_SIZE, and the flush that follows prints the
   * stored text without that character.  No write leaves the array here.
   */
  lemma ExactFitLosesLastCharacter(contents: string, piece: string)
    requires |contents| < BUFFER_SIZE - MAX_LENGTH_ONE_LINE
    requires |contents| + |piece| == BUFFER_SIZE
    ensures var r := AppendAsWritten(contents, piece);
            && r.flushes && r.offset == BUFFER_SIZE
            && r.stored == contents + piece[..|piece| - 1]
  {
  }

  /** The smallest case: the "(" alone before the token. */
  lemma LongTokenAfterParenthesis()
    ensures var r := AppendAsWritten("(", seq(BUFFER_SIZE, _ => '7'));
            r.offset == BUFFER_SIZE + 1 && |r.stored| == BUFFER_SIZE - 1
  {
    LongTokenOverrunsBuffer("(");
  }

  // ---------------------------------------------------------------------
  // parseToInt, lenient

  /** parseToInt here accepts any token from_chars can read a number from, even partly. */
  function LenientParseToInt(s: string): Option<Int32> {
    var res := FromChars(s);
    if res.ec == Ok then Some(res.value) else None
  }

  /**
   * A token accepted here yields the value of the numeral it starts with:
   * the characters from_chars consumed form a numeral of that value, and
   * the next character, if any, is not a digit.
   */
  lemma LenientReadsLeadingNumeral(s: string)
    requires LenientParseToInt(s).Some?
    ensures var k := FromChars(s).consumed;
            && IsNumeral(s[..k]) && NumeralValue(s[..k]) == LenientParseToInt(s).value
            && (k < |s| ==> !IsDigit(s[k]))
  {
    var sign := if |s| > 0 && s[0] == '-' then 1 else 0;
    var n := DigitPrefixLength(s[sign..]);
    var k := sign + n;
    assert s[..k][sign..] == s[sign..sign + n] == s[sign..][..n];
    FromCharsStopsAtNonDigit(s);
  }

  /** Every token the threaded solver's strict parseToInt accepts is accepted here with the same value. */
  lemma StrictImpliesLenient(s: string)
    ensures SolvingManager.ParseToInt(s).Some? ==> LenientParseToInt(s) == SolvingManager.ParseToInt(s)
  {
  }

  /** "12abc" is read as 12 here and rejected by the threaded solver. */
  lemma LenientAcceptsTrailingText()
    ensures LenientParseToInt("12abc") == Some(12)
    ensures SolvingManager.ParseToInt("12abc") == None
  {
    var s := "12abc";
    assert DigitPrefixLength(s[2..]) == 0;
    assert DigitPrefixLength(s[1..]) == 1;
    assert DigitPrefixLength(s) == 2;
    assert s[0..2] == "12";
    assert DigitsValue("12"[..1]) == 1;
  }

  // ---------------------------------------------------------------------
  // solve

  /** What `solve` reports: a degenerate equation, or the roots. */
  datatype Outcome = Degenerate | Solved(roots: Roots)

  /**
   * The case selection of `solve`: for a == 0 a root when b != 0 and
   * "degenerate" otherwise; for a != 0 the sign of the discriminant.
   */
  function SolveOutcome(eq: EquationCoefficients): Outcome {
    if eq.a == 0 then (if eq.b != 0 then Solved(OneRoot) else Degenerate)
    else if Discriminant(eq) > 0 then Solved(TwoRoots)
    else if Discriminant(eq) == 0 then Solved(OneRoot)
    else Solved(NoRoots)
  }

  /**
   * The two solvers agree on every equation except a == b == 0, which the
   * threaded one splits into "(any)" and "(no roots)" and this one calls
   * degenerate.
   */
  lemma SolveOutcomeAgreesWithThreaded(eq: EquationCoefficients)
    ensures SolveOutcome(eq) == Degenerate <==> eq.a == 0 && eq.b == 0
    ensures SolveOutcome(eq).Solved? ==> SolveOutcome(eq).roots == FindRoots(eq)
  {
  }

  /**
   * A degenerate equation is solved by every real number when c == 0 and
   * by none otherwise.
   */
  lemma DegenerateMeansAllOrNothing(eq: EquationCoefficients)
    requires SolveOutcome(eq) == Degenerate
    ensures (forall x: real :: Poly(eq, x) == 0.0) <==> eq.c == 0
    ensures eq.c != 0 ==> forall x: real :: Poly(eq, x) != 0.0
  {
    AnyRootsMeansEveryX(eq);
    if eq.c != 0 {
      NoRootsMeansNoX(eq);
    }
  }

  function RootsText(roots: Roots, n: Numbers): string {
    match roots
    case TwoRoots => " => ([" + n.root1 + "], [" + n.root2 + "])"
    case OneRoot => " => ([" + n.root1 + "])"
    case _ => " => (no roots)"
  }

  function ExtremumText(n: Numbers): string {
    " (extremum: X=[" + n.x + "], Y=[" + n.y + "])\n"
  }

  /** Everything `solve` appends for one equation, with `n` the `%g` texts of its numbers. */
  function SolveText(eq: EquationCoefficients, n: Numbers): string {
    match SolveOutcome(eq)
    case Degenerate => DEGENERATE
    case Solved(roots) =>
      if eq.a == 0 then " => ([" + n.root1 + "]) (no extremum)\n"
      else RootsText(roots, n) + ExtremumText(n)
  }

  /** Whatever the case, `solve` ends the line it continues. */
  lemma SolveTextEndsLine(eq: EquationCoefficients, n: Numbers)
    ensures EndsLine(SolveText(eq, n))
  {
  }

  /**
   * `solve(a, b, c)`: the case of a line or of a degenerate equation in
   * one append, otherwise the roots and then the extremum.
   */
  method Solve(buf: OutputBuffer, output: ConsoleOutput, eq: EquationCoefficients, n: Numbers)
    requires buf.Valid()
    modifies buf, buf.buffer, output
    ensures buf.Valid() && buf.buffer == old(buf.buffer)
    ensures Flatten(output.log) + buf.Contents() == old(Flatten(output.log) + buf.Contents()) + SolveText(eq, n)
  {
    if eq.a == 0 {
      if eq.b != 0 {
        buf.Append(" => ([" + n.root1 + "]) (no extremum)\n", output);
      } else {
        buf.Append(DEGENERATE, output);
      }
      return;
    }
    var discriminant := eq.b * eq.b - 4 * eq.a * eq.c;
    ghost var start := Flatten(output.log) + buf.Contents();
    var roots;
    if discriminant > 0 {
      roots := " => ([" + n.root1 + "], [" + n.root2 + "])";
    } else if discriminant == 0 {
      roots := " => ([" + n.root1 + "])";
    } else {
      roots := " => (no roots)";
    }
    var extremum := ExtremumText(n);
    assert roots == RootsText(SolveOutcome(eq).roots, n);
    buf.Append(roots, output);
    buf.Append(extremum, output);
    ConcatAssociative(start, roots, extremum);
  }

  // ---------------------------------------------------------------------
  // main

  /** `%s%s` of leftover token m: the token, then a space unless it is the last one. */
  function TailPiece(rest: seq<string>, m: nat): string
    requires m < |rest|
  {
    rest[m] + (if m < |rest| - 1 then " " else "")
  }

  /** The pieces of the first k leftover tokens. */
  function TailPieces(rest: seq<string>, k: nat): string
    requires k <= |rest|
  {
    if k == 0 then "" else TailPieces(rest, k - 1) + TailPiece(rest, k - 1)
  }

  /** The "not enough" line: the leftover tokens in parentheses, separated by spaces. */
  lemma NotEnoughShape(rest: seq<string>)
    requires 1 <= |rest| <= 2
    ensures |rest| == 1 ==> "(" + TailPieces(rest, 1) + NOT_ENOUGH_SUFFIX == "(" + rest[0] + NOT_ENOUGH_SUFFIX
    ensures |rest| == 2 ==>
              "(" + TailPieces(rest, 2) + NOT_ENOUGH_SUFFIX == "(" + rest[0] + " " + rest[1] + NOT_ENOUGH_SUFFIX
  {
    if |rest| == 2 {
      assert TailPieces(rest, 2) == rest[0] + " " + rest[1];
    }
  }

  /** The triple a full group is solved as: one whose three tokens parse leniently. */
  function LenientTriple(x: string, y: string, z: string): Option<EquationCoefficients> {
    var a, b, c := LenientParseToInt(x), LenientParseToInt(y), LenientParseToInt(z);
    if a.Some? && b.Some? && c.Some? then Some(EquationCoefficients(a.value, b.value, c.value)) else None
  }

  /** Every triple the threaded solver enqueues is solved here with the same coefficients. */
  lemma StrictTripleSolvedHere(x: string, y: string, z: string)
    requires SolvingManager.ParsedTriple(Triple(x, y, z)).Some?
    ensures LenientTriple(x, y, z) == SolvingManager.ParsedTriple(Triple(x, y, z))
  {
    StrictImpliesLenient(x);
    StrictImpliesLenient(y);
    StrictImpliesLenient(z);
  }

  /** `(%d, %d, %d)`. */
  function CoefficientsText(eq: EquationCoefficients): string {
    "(" + IntToString(eq.a) + ", " + IntToString(eq.b) + ", " + IntToString(eq.c) + ")"
  }

  /** Everything `main`'s loop appends for one group of tokens. */
  function GroupText(g: Group, numbers: EquationCoefficients -> Numbers): string {
    match g
    case Tail(rest) => "(" + TailPieces(rest, |rest|) + NOT_ENOUGH_SUFFIX
    case Triple(x, y, z) =>
      match LenientTriple(x, y, z)
      case None => "(" + x + ", " + y + ", " + z + NOT_CORRECT_SUFFIX
      case Some(eq) => CoefficientsText(eq) + SolveText(eq, numbers(eq))
  }

  /** Every group's text is one line, ended by a newline. */
  lemma GroupTextEndsLine(g: Group, numbers: EquationCoefficients -> Numbers)
    ensures EndsLine(GroupText(g, numbers))
  {
    match g
    case Tail(rest) =>
      EndsLineAfter("(" + TailPieces(rest, |rest|), NOT_ENOUGH_SUFFIX);
    case Triple(x, y, z) =>
      match LenientTriple(x, y, z)
      case None =>
        EndsLineAfter("(" + x + ", " + y + ", " + z, NOT_CORRECT_SUFFIX);
      case Some(eq) =>
        SolveTextEndsLine(eq, numbers(eq));
        EndsLineAfter(CoefficientsText(eq), SolveText(eq, numbers(eq)));
  }

  /** The text of a sequence of groups, in order. */
  function Transcript(gs: seq<Group>, numbers: EquationCoefficients -> Numbers): string
    decreases |gs|
  {
    if |gs| == 0 then "" else Transcript(gs[..|gs| - 1], numbers) + GroupText(gs[|gs| - 1], numbers)
  }

  lemma TranscriptSnoc(gs: seq<Group>, g: Group, numbers: EquationCoefficients -> Numbers)
    ensures Transcript(gs + [g], numbers) == Transcript(gs, numbers) + GroupText(g, numbers)
  {
    assert (gs + [g])[..|gs|] == gs;
  }

  /** Whatever precedes it, a non-empty transcript ends a line. */
  lemma TranscriptEndsLine(gs: seq<Group>, numbers: EquationCoefficients -> Numbers)
    requires |gs| > 0
    ensures EndsLine(Transcript(gs, numbers))
  {
    GroupTextEndsLine(gs[|gs| - 1], numbers);
    EndsLineAfter(Transcript(gs[..|gs| - 1], numbers), GroupText(gs[|gs| - 1], numbers));
  }

  /** The group `main`'s loop handles at argument i: a full triple, or the one or two arguments left. */
  function GroupAt(argv: seq<string>, i: int): Group
    requires 1 <= i < |argv|
  {
    if i + 2 >= |argv| then Tail(argv[i..]) else Triple(argv[i], argv[i + 1], argv[i + 2])
  }


  /**
   * The branch for one or two leftover arguments: "(", then each argument
   * followed by a space but the last, one append each, then the suffix.
   */
  method ReportNotEnough(buf: OutputBuffer, output: ConsoleOutput, argv: seq<string>, i: int)
    requires 1 <= i < |argv| && buf.Valid()
    modifies buf, buf.buffer, output
    ensures buf.Valid() && buf.buffer == old(buf.buffer)
    ensures Flatten(output.log) + buf.Contents()
            == old(Flatten(output.log) + buf.Contents()) + ("(" + TailPieces(argv[i..], |argv| - i) + NOT_ENOUGH_SUFFIX)
  {
    ghost var start := Flatten(output.log) + buf.Contents();
    buf.Append("(", output);
    var j := i;
    while j < |argv|
      invariant i <= j <= |argv|
      invariant buf.Valid() && buf.buffer == old(buf.buffer)
      invariant Flatten(output.log) + buf.Contents() == start + "(" + TailPieces(argv[i..], j - i)
    {
      var piece := argv[j] + (if j < |argv| - 1 then " " else "");
      assert piece == TailPiece(argv[i..], j - i);
      buf.Append(piece, output);
      ConcatAssociative(start + "(", TailPieces(argv[i..], j - i), piece);
      j := j + 1;
    }
    buf.Append(NOT_ENOUGH_SUFFIX, output);
    ConcatAssociative4(start, "(", TailPieces(argv[i..], j - i), NOT_ENOUGH_SUFFIX);
  }

  /**
   * One pass of `main`'s loop at argument i: the "not enough" line for a
   * short tail (after which the loop stops), the "not correct" line for a
   * triple with a token that does not parse, or the coefficients followed
   * by what `solve` appends.
   */
  method RunStep(buf: OutputBuffer, output: ConsoleOutput, argv: seq<string>, i: int,
                 numbers: EquationCoefficients -> Numbers)
                 returns (stop: bool)
    requires 1 <= i < |argv| && buf.Valid()
    modifies buf, buf.buffer, output
    ensures buf.Valid() && buf.buffer == old(buf.buffer)
    ensures stop <==> i + 2 >= |argv|
    ensures Flatten(output.log) + buf.Contents()
            == old(Flatten(output.log) + buf.Contents()) + GroupText(GroupAt(argv, i), numbers)
  {
    ghost var start := Flatten(output.log) + buf.Contents();
    if i + 2 >= |argv| {
      assert GroupAt(argv, i) == Tail(argv[i..]);
      ReportNotEnough(buf, output, argv, i);
      return true;
    }
    var a := LenientParseToInt(argv[i]);
    var b := LenientParseToInt(argv[i + 1]);
    var c := LenientParseToInt(argv[i + 2]);
    assert GroupAt(argv, i) == Triple(argv[i], argv[i + 1], argv[i + 2]);
    if a.None? || b.None? || c.None? {
      assert LenientTriple(argv[i], argv[i + 1], argv[i + 2]).None?;
      buf.Append("(" + argv[i] + ", " + argv[i + 1] + ", " + argv[i + 2] + NOT_CORRECT_SUFFIX, output);
      return false;
    }
    var eq := EquationCoefficients(a.value, b.value, c.value);
    assert LenientTriple(argv[i], argv[i + 1], argv[i + 2]) == Some(eq);
    buf.Append(CoefficientsText(eq), output);
    Solve(buf, output, eq, numbers(eq));
    ConcatAssociative(start, CoefficientsText(eq), SolveText(eq, numbers(eq)));
    return false;
  }

  /** What `main` has printed or buffered after the first j argument tokens. */
  ghost predicate EmittedUpTo(tokens: seq<string>, j: nat, text0: string, text: string,
                              numbers: EquationCoefficients -> Numbers)
  {
    j <= |tokens| && text == text0 + Transcript(Groups(tokens[..j]), numbers)
  }

  /** One pass of `main`'s loop moves the emitted text past the group it handled. */
  lemma EmitAdvance(argv: seq<string>, i: int, text0: string, text: string, numbers: EquationCoefficients -> Numbers)
    requires 1 <= i < |argv| && (i - 1) % 3 == 0
    requires EmittedUpTo(argv[1..], i - 1, text0, text, numbers)
    ensures EmittedUpTo(argv[1..], if i + 2 >= |argv| then |argv| - 1 else i + 2, text0,
                        text + GroupText(GroupAt(argv, i), numbers), numbers)
  {
    var tokens := argv[1..];
    var j := i - 1;
    var before := Groups(tokens[..j]);
    if i + 2 >= |argv| {
      assert tokens[j..] == argv[i..];
      GroupsFinish(tokens, j);
      assert tokens[..|tokens|] == tokens;
    } else {
      assert tokens[j] == argv[i] && tokens[j + 1] == argv[i + 1] && tokens[j + 2] == argv[i + 2];
      GroupsExtend(tokens, j);
    }
    TranscriptSnoc(before, GroupAt(argv, i), numbers);
    ConcatAssociative(text0, Transcript(before, numbers), GroupText(GroupAt(argv, i), numbers));
  }

  lemma NextTriple(i: int)
    requires (i - 1) % 3 == 0
    ensures (i + 3 - 1) % 3 == 0
  {
  }

  /** After the last argument, the emitted text covers all the groups. */
  lemma EmittedAll(tokens: seq<string>, text0: string, text: string, numbers: EquationCoefficients -> Numbers)
    requires EmittedUpTo(tokens, |tokens|, text0, text, numbers)
    ensures text == text0 + Transcript(Groups(tokens), numbers)
  {
    assert tokens[..|tokens|] == tokens;
  }

  /**
   * `main` without its timing line: fewer than three coefficients give the
   * usage line and exit code 1; otherwise every group of arguments is
   * reported or solved in order, the buffer is printed, and the exit code
   * is 0.  `numbers` gives the `%g` texts of each equation's roots and
   * extremum.
   */
  method Run(argv: seq<string>, output: ConsoleOutput, numbers: EquationCoefficients -> Numbers)
    returns (exitCode: int)
    modifies output
    ensures |argv| < 4 ==> exitCode == 1 && output.log == old(output.log) + [USAGE]
    ensures |argv| >= 4 ==>
              exitCode == 0 && Flatten(output.log) == old(Flatten(output.log)) + Transcript(Groups(argv[1..]), numbers)
  {
    if |argv| < 4 {
      output.Print(USAGE);
      return 1;
    }
    var buf := new OutputBuffer();
    ghost var tokens := argv[1..];
    ghost var text0 := Flatten(output.log);
    ghost var consumed := 0;
    assert tokens[..0] == [];
    var i := 1;
    while i < |argv|
      invariant 1 <= i && (i - 1) % 3 == 0 && consumed == i - 1
      invariant buf.Valid() && fresh(buf) && fresh(buf.buffer)
      invariant EmittedUpTo(tokens, consumed, text0, Flatten(output.log) + buf.Contents(), numbers)
    {
      EmitAdvance(argv, i, text0, Flatten(output.log) + buf.Contents(), numbers);
      var stop := RunStep(buf, output, argv, i, numbers);
      if stop {
        consumed := |tokens|;
        break;
      }
      NextTriple(i);
      i := i + 3;
      consumed := i - 1;
    }
    assert consumed == |tokens|;
    EmittedAll(tokens, text0, Flatten(output.log) + buf.Contents(), numbers);
    buf.Print(output);
    return 0;
  }
}
