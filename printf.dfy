/**
 * The part of printf-style formatting both programs use.  A format string
 * applied to its arguments is written as the sequence of its pieces:
 * literal text (or a `%s`/`%g` argument whose text is given), `%.Ns` of a
 * token, and `%d` of an `int`.  Sprintf is the text `sprintf` writes for it.
 */
module Printf {
  import opened CharConv

  datatype Conversion =
    | Text(text: string)
    | Precision(token: string, precision: nat)
    | Decimal(value: Int32)

  function ConversionText(c: Conversion): string {
    match c
    case Text(t) => t
    case Precision(t, p) => Truncated(t, p)
    case Decimal(v) => IntToString(v)
  }

  /** The text of the pieces, in order. */
  function Sprintf(cs: seq<Conversion>): string
    decreases |cs|
  {
    if |cs| == 0 then "" else Sprintf(cs[..|cs| - 1]) + ConversionText(cs[|cs| - 1])
  }

  lemma SprintfSnoc(cs: seq<Conversion>, c: Conversion)
    ensures Sprintf(cs + [c]) == Sprintf(cs) + ConversionText(c)
  {
    assert (cs + [c])[..|cs|] == cs;
  }

  /** Formatting two formats one after the other writes their texts one after the other. */
  lemma {:induction false} SprintfAppend(a: seq<Conversion>, b: seq<Conversion>)
    ensures Sprintf(a + b) == Sprintf(a) + Sprintf(b)
    decreases |b|
  {
    if |b| == 0 {
      assert a + b == a;
    } else {
      var init := b[..|b| - 1];
      assert a + b == (a + init) + [b[|b| - 1]];
      assert b == init + [b[|b| - 1]];
      SprintfSnoc(a + init, b[|b| - 1]);
      SprintfSnoc(init, b[|b| - 1]);
      SprintfAppend(a, init);
      ConcatAssociative(Sprintf(a), Sprintf(init), ConversionText(b[|b| - 1]));
    }
  }

  lemma ConcatAssociative(x: string, y: string, z: string)
    ensures (x + y) + z == x + (y + z)
  {
  }

  lemma ConcatAssociative4(a: string, b: string, c: string, d: string)
    ensures a + b + c + d == a + (b + c + d)
  {
  }

  lemma SprintfOne(c: Conversion)
    ensures Sprintf([c]) == ConversionText(c)
  {
    SprintfSnoc([], c);
  }

  lemma SprintfTwo(c0: Conversion, c1: Conversion)
    ensures Sprintf([c0, c1]) == ConversionText(c0) + ConversionText(c1)
  {
    SprintfOne(c0);
    SprintfSnoc([c0], c1);
  }

  lemma SprintfThree(c0: Conversion, c1: Conversion, c2: Conversion)
    ensures Sprintf([c0, c1, c2]) == ConversionText(c0) + ConversionText(c1) + ConversionText(c2)
  {
    SprintfTwo(c0, c1);
    assert [c0, c1] + [c2] == [c0, c1, c2];
    SprintfSnoc([c0, c1], c2);
  }

  lemma SprintfFour(c0: Conversion, c1: Conversion, c2: Conversion, c3: Conversion)
    ensures Sprintf([c0, c1, c2, c3]) == ConversionText(c0) + ConversionText(c1) + ConversionText(c2) + ConversionText(c3)
  {
    SprintfThree(c0, c1, c2);
    assert [c0, c1, c2] + [c3] == [c0, c1, c2, c3];
    SprintfSnoc([c0, c1, c2], c3);
  }

  lemma SprintfFive(c0: Conversion, c1: Conversion, c2: Conversion, c3: Conversion, c4: Conversion)
    ensures Sprintf([c0, c1, c2, c3, c4])
            == ConversionText(c0) + ConversionText(c1) + ConversionText(c2) + ConversionText(c3) + ConversionText(c4)
  {
    SprintfThree(c0, c1, c2);
    assert [c0, c1, c2] + [c3] == [c0, c1, c2, c3];
    SprintfSnoc([c0, c1, c2], c3);
    assert [c0, c1, c2, c3] + [c4] == [c0, c1, c2, c3, c4];
    SprintfSnoc([c0, c1, c2, c3], c4);
  }

  lemma SprintfSeven(c0: Conversion, c1: Conversion, c2: Conversion, c3: Conversion, c4: Conversion,
                     c5: Conversion, c6: Conversion)
    ensures Sprintf([c0, c1, c2, c3, c4, c5, c6])
            == ConversionText(c0) + ConversionText(c1) + ConversionText(c2) + ConversionText(c3)
               + ConversionText(c4) + ConversionText(c5) + ConversionText(c6)
  {
    SprintfFive(c0, c1, c2, c3, c4);
    assert [c0, c1, c2, c3, c4] + [c5] == [c0, c1, c2, c3, c4, c5];
    SprintfSnoc([c0, c1, c2, c3, c4], c5);
    assert [c0, c1, c2, c3, c4, c5] + [c6] == [c0, c1, c2, c3, c4, c5, c6];
    SprintfSnoc([c0, c1, c2, c3, c4, c5], c6);
  }

  /** Text whose last character is a newline. */
  predicate EndsLine(s: string) {
    |s| > 0 && s[|s| - 1] == '\n'
  }

  /** Whatever precedes it, text that ends a line still ends it. */
  lemma EndsLineAfter(head: string, tail: string)
    requires EndsLine(tail)
    ensures EndsLine(head + tail)
  {
  }
}
