/**
 * The line framer of a connection's `'data'` handler: the new chunk is
 * appended to the buffered partial line, the whole is split on newlines, and
 * the last piece (the text after the final newline) becomes the new buffer.
 */
module Framing {
  import opened JsString

  /** The complete lines a chunk releases, and the partial line kept back. */
  datatype Framed = Framed(lines: seq<string>, rest: string)

  /** The buffer grows by the chunk and is cut at every newline; all pieces
      but the last are complete lines, and the last becomes the new buffer.
      Nothing is lost: the lines and the kept-back rest, joined by newlines,
      give back exactly the old buffer followed by the chunk. */
  function Frame(buffer: string, chunk: string): (f: Framed)
    ensures Join(f.lines + [f.rest], '\n') == buffer + chunk
    ensures '\n' !in f.rest
    ensures NoneContains(f.lines, '\n')
  {
    var parts := Split(buffer + chunk, '\n');
    assert parts == parts[..|parts| - 1] + [parts[|parts| - 1]];
    Framed(parts[..|parts| - 1], parts[|parts| - 1])
  }

  /** The framing of a text is determined by the text: any decomposition into
      newline-free lines and a newline-free rest that joins back to it is the
      one `Frame` yields. */
  lemma FrameUnique(buffer: string, chunk: string, lines: seq<string>, rest: string)
    requires NoneContains(lines, '\n') && '\n' !in rest
    requires Join(lines + [rest], '\n') == buffer + chunk
    ensures Frame(buffer, chunk) == Framed(lines, rest)
  {
    var parts := lines + [rest];
    assert NoneContains(parts, '\n');
    SplitJoin(parts, '\n');
    assert parts[..|parts| - 1] == lines;
  }

  /** Chunk boundaries do not matter: feeding `c1` and then `c2` releases the
      same lines, in the same order, and keeps the same rest as feeding
      `c1 + c2` at once. */
  lemma FrameChunking(buffer: string, c1: string, c2: string)
    ensures var f1 := Frame(buffer, c1);
            var f2 := Frame(f1.rest, c2);
            Frame(buffer, c1 + c2) == Framed(f1.lines + f2.lines, f2.rest)
  {
    var f1 := Frame(buffer, c1);
    var f2 := Frame(f1.rest, c2);
    JoinShifted(f1.lines, f1.rest, f2.lines + [f2.rest], buffer + c1, c2);
    assert f1.lines + (f2.lines + [f2.rest]) == (f1.lines + f2.lines) + [f2.rest];
    NoneContainsConcat(f1.lines, f2.lines, '\n');
    FrameUnique(buffer, c1 + c2, f1.lines + f2.lines, f2.rest);
  }

  /** Replacing the last piece `rest` by pieces that join to `rest + more`
      appends `more` to the whole. */
  lemma JoinShifted(lines: seq<string>, rest: string, tail: seq<string>, whole: string, more: string)
    requires Join(lines + [rest], '\n') == whole
    requires tail != [] && Join(tail, '\n') == rest + more
    ensures Join(lines + tail, '\n') == whole + more
  {
    if lines == [] {
      assert lines + tail == tail;
      assert lines + [rest] == [rest];
    } else {
      var j := Join(lines, '\n');
      assert whole == j + ['\n'] + rest by {
        JoinConcat(lines, [rest], '\n');
        assert Join([rest], '\n') == rest;
      }
      assert Join(lines + tail, '\n') == j + ['\n'] + (rest + more) by {
        JoinConcat(lines, tail, '\n');
      }
      assert j + ['\n'] + (rest + more) == (j + ['\n'] + rest) + more;
    }
  }
}
