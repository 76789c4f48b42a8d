/**
 * The shared output sink (ConsoleOutput).  Each `print` call is written as
 * one uninterrupted chunk; the model keeps the chunks, in call order, as a
 * ghost log.  The mutex that serialises the calls is not modelled.
 */
module Console {

  class ConsoleOutput {
    /** Every text passed to `print`, one entry per call. */
    ghost var log: seq<string>

    constructor ()
      ensures log == []
    {
      log := [];
    }

    method Print(text: string)
      modifies this
      ensures log == old(log) + [text]
    {
      log := log + [text];
    }
  }

  /** The characters the chunks put on standard output, in order. */
  function Flatten(chunks: seq<string>): string
    decreases |chunks|
  {
    if |chunks| == 0 then [] else Flatten(chunks[..|chunks| - 1]) + chunks[|chunks| - 1]
  }

  lemma {:induction false} FlattenAppend(a: seq<string>, b: seq<string>)
    ensures Flatten(a + b) == Flatten(a) + Flatten(b)
    decreases |b|
  {
    if |b| == 0 {
      assert a + b == a;
    } else {
      var init, last := b[..|b| - 1], b[|b| - 1];
      assert b == init + [last];
      assert a + b == (a + init) + [last];
      FlattenSnoc(a + init, last);
      FlattenSnoc(init, last);
      FlattenAppend(a, init);
      assert Flatten(a) + Flatten(init) + last == Flatten(a) + (Flatten(init) + last);
    }
  }

  lemma FlattenSnoc(chunks: seq<string>, chunk: string)
    ensures Flatten(chunks + [chunk]) == Flatten(chunks) + chunk
  {
    assert (chunks + [chunk])[..|chunks|] == chunks;
  }
}
