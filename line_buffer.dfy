/**
 * The local output buffer of `parse` and `solve` in SolvingManager.cpp:
 * `char buffer[BUFFER_SIZE]` zero-filled, an offset `i`, `sprintf` at
 * `buffer + i`, and a flush to the console once `i` passes the high-water
 * mark BUFFER_SIZE - MAX_LENGTH_ONE_LINE.
 */
module LineBuffers {
  import opened Console

  const BUFFER_SIZE: int := 4096
  /** Room kept free for one more line; every line written is shorter than this. */
  const MAX_LENGTH_ONE_LINE: int := 300

  class LineBuffer {
    var buffer: array<char>
    /** The offset of the next write, which is also where the terminating NUL sits. */
    var i: int

    ghost predicate Valid()
      reads this, buffer
    {
      && buffer.Length == BUFFER_SIZE
      && 0 <= i < BUFFER_SIZE
      && forall k :: i <= k < BUFFER_SIZE ==> buffer[k] == '\0'
    }

    /** The text written since the last flush. */
    function Contents(): string
      reads this, buffer
      requires Valid()
    {
      buffer[..i]
    }

    /** `char buffer[BUFFER_SIZE] = {'\0'}; int i{0};` */
    constructor ()
      ensures Valid() && fresh(buffer) && Contents() == []
    {
      buffer := new char[BUFFER_SIZE](_ => '\0');
      i := 0;
    }

    /**
     * The check made before each line: past the high-water mark, hand the
     * contents to the console, clear them with memset and start over.
     * Afterwards there is room for one more line.
     */
    method FlushIfFull(output: ConsoleOutput)
      requires Valid()
      modifies this, buffer, output
      ensures Valid() && buffer == old(buffer)
      ensures i <= BUFFER_SIZE - MAX_LENGTH_ONE_LINE
      ensures old(i) > BUFFER_SIZE - MAX_LENGTH_ONE_LINE ==>
                output.log == old(output.log) + [old(Contents())] && Contents() == []
      ensures old(i) <= BUFFER_SIZE - MAX_LENGTH_ONE_LINE ==>
                output.log == old(output.log) && Contents() == old(Contents())
      ensures Flatten(output.log) + Contents() == old(Flatten(output.log)) + old(Contents())
    {
      if i > BUFFER_SIZE - MAX_LENGTH_ONE_LINE {
        ghost var log0 := output.log;
        output.Print(buffer[..i]);
        assert output.log[..|output.log| - 1] == log0;
        // std::memset(buffer, '\0', i)
        var k := 0;
        while k < i
          invariant 0 <= k <= i
          invariant forall m :: 0 <= m < k ==> buffer[m] == '\0'
          invariant forall m :: i <= m < BUFFER_SIZE ==> buffer[m] == '\0'
          modifies buffer
        {
          buffer[k] := '\0';
          k := k + 1;
        }
        i := 0;
      }
    }

    /**
     * `i += std::sprintf(buffer + i, ...)` with `text` the formatted
     * result: the text goes at the offset, followed by its NUL, and the
     * offset moves past the text.
     */
    method Write(text: string)
      requires Valid()
      requires i + |text| < BUFFER_SIZE
      modifies this, buffer
      ensures Valid() && buffer == old(buffer)
      ensures Contents() == old(Contents()) + text && i == old(i) + |text|
    {
      var k := 0;
      while k < |text|
        invariant 0 <= k <= |text|
        invariant buffer[..i] == old(buffer[..i])
        invariant buffer[i..i + k] == text[..k]
        invariant forall m :: i + |text| <= m < BUFFER_SIZE ==> buffer[m] == '\0'
        modifies buffer
      {
        buffer[i + k] := text[k];
        k := k + 1;
      }
      buffer[i + |text|] := '\0';
      assert buffer[i..i + |text|] == text;
      assert buffer[..i + |text|] == buffer[..i] + buffer[i..i + |text|];
      i := i + |text|;
    }

    /** `output.print(buffer)`: the contents go to the console as one chunk. */
    method Print(output: ConsoleOutput)
      requires Valid()
      modifies output
      ensures output.log == old(output.log) + [Contents()]
      ensures Flatten(output.log) == old(Flatten(output.log)) + Contents()
    {
      ghost var log0 := output.log;
      output.Print(buffer[..i]);
      assert output.log[..|output.log| - 1] == log0;
    }
  }
}
