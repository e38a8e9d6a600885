/** The bounded trace writer of platform/backtrace.c: lines are printed one by one into a buffer of fixed size
    until one does not fit; after that an error flag keeps everything else out. */
module TraceWriter {
  import opened Sequences

  const NUL: char := '\0'
  const MAX_FRAMES: nat := 50
  const FRAME_LIMIT := "<frame limit reached, possible truncation>"

  function Min(a: int, b: int): int { if a < b then a else b }

  /** The memory after `snprintf(b + at, n, "%s", text)`: as much of the text as fits before the
      terminating NUL, and nothing at all when n is 0. */
  function Printed(b: seq<char>, at: nat, n: nat, text: seq<char>): (p: seq<char>)
    requires at + n <= |b|
    ensures |p| == |b|
  {
    if n == 0 then b
    else
      var m := Min(|text|, n - 1);
      b[..at] + text[..m] + [NUL] + b[at + m + 1..]
  }

  /** A print of limited size: the first characters of the text, a NUL, and the old memory everywhere else;
      in particular no position from n on is written. */
  lemma PrintedMeans(b: seq<char>, n: nat, text: seq<char>)
    requires 0 < n <= |b|
    ensures var p, m := Printed(b, 0, n, text), Min(|text|, n - 1);
            p[..m] == text[..m] && p[m] == NUL && p[m + 1..] == b[m + 1..] && p[n..] == b[n..]
  {
  }

  /** Two prints in a row, the second starting at the NUL of the first, are one print of the whole text. */
  lemma PrintTwice(b: seq<char>, n: nat, s: seq<char>, t: seq<char>)
    requires |s| < n <= |b|
    ensures Printed(Printed(b, 0, n, s), |s|, n - |s|, t) == Printed(b, 0, n, s + t)
  {
    var p := Printed(b, 0, n, s);
    assert p == s + [NUL] + b[|s| + 1..];
    var m := Min(|t|, n - |s| - 1);
    assert p[..|s|] == s;
    assert p[|s| + m + 1..] == b[|s| + m + 1..];
    assert (s + t)[..|s| + m] == s + t[..m];
  }

  /** Once a text is cut off, what follows it makes no difference. */
  lemma PrintCutOff(b: seq<char>, n: nat, s: seq<char>, t: seq<char>)
    requires n <= |b| && n <= |s|
    ensures Printed(b, 0, n, s) == Printed(b, 0, n, s + t)
  {
    if n > 0 { assert (s + t)[..n - 1] == s[..n - 1]; }
  }

  /** A print, place by place. */
  lemma PrintedAt(b: seq<char>, p: seq<char>, at: nat, n: nat, text: seq<char>)
    requires 0 < n && at + n <= |b| == |p|
    requires var m := Min(|text|, n - 1);
             && (forall k :: 0 <= k < m ==> p[at + k] == text[k])
             && p[at + m] == NUL
             && forall k :: 0 <= k < |b| && !(at <= k <= at + m) ==> p[k] == b[k]
    ensures p == Printed(b, at, n, text)
  {
    var m := Min(|text|, n - 1);
    assert p[at..at + m] == text[..m];
    assert p[..at] == b[..at];
    assert p[at + m + 1..] == b[at + m + 1..];
    assert p == p[..at] + p[at..at + m] + [NUL] + p[at + m + 1..];
  }

  /** `snprintf` with a format that cannot fail; it returns the length of the whole text. */
  method Snprintf(buffer: array<char>, at: nat, n: nat, text: seq<char>) returns (length: nat)
    requires at + n <= buffer.Length
    modifies buffer
    ensures length == |text|
    ensures buffer[..] == Printed(old(buffer[..]), at, n, text)
  {
    length := |text|;
    if n > 0 {
      var i := 0;
      while i < |text| && i < n - 1
        invariant 0 <= i <= |text| && i <= n - 1
        invariant forall k :: 0 <= k < i ==> buffer[at + k] == text[k]
        invariant forall k :: 0 <= k < buffer.Length && !(at <= k < at + i) ==> buffer[k] == old(buffer[k])
      {
        buffer[at + i] := text[i];
        i := i + 1;
      }
      buffer[at + i] := NUL;
      PrintedAt(old(buffer[..]), buffer[..], at, n, text);
    }
  }

  // ----- the writer as a value

  /** Memory, offset and error flag. */
  datatype Writer = Writer(memory: seq<char>, offset: nat, error: bool) {
    predicate Fits(size: nat) { size <= |memory| && (!error ==> offset <= size) }
  }

  /** One chunk, as `memory_cb` treats it. */
  function Write(w: Writer, size: nat, chunk: seq<char>): (w': Writer)
    requires w.Fits(size)
    ensures w'.Fits(size)
  {
    if w.error then w
    else
      var memory := Printed(w.memory, w.offset, size - w.offset, chunk);
      if |chunk| >= size - w.offset then Writer(memory, w.offset, true)
      else Writer(memory, w.offset + |chunk|, false)
  }

  function WriteAll(w: Writer, size: nat, chunks: seq<seq<char>>): (w': Writer)
    requires w.Fits(size)
    ensures w'.Fits(size)
    decreases chunks
  {
    if chunks == [] then w else WriteAll(Write(w, size, chunks[0]), size, chunks[1..])
  }

  lemma {:induction false} WriteAllAppend(w: Writer, size: nat, chunks: seq<seq<char>>, last: seq<char>)
    requires w.Fits(size)
    ensures WriteAll(w, size, chunks + [last]) == Write(WriteAll(w, size, chunks), size, last)
    decreases |chunks|
  {
    hide Write;
    if chunks == [] {
      assert chunks + [last] == [last] && [last][1..] == [];
    } else {
      assert (chunks + [last])[1..] == chunks[1..] + [last];
      WriteAllAppend(Write(w, size, chunks[0]), size, chunks[1..], last);
    }
  }

  /** The writer is where one bounded print of `text` would have left it. */
  ghost predicate After(w: Writer, before: seq<char>, size: nat, text: seq<char>)
    requires size <= |before|
  {
    && w.memory == Printed(before, 0, size, text)
    && w.error == (|text| >= size)
    && (!w.error ==> w.offset == |text|)
  }

  lemma WriteOne(w: Writer, before: seq<char>, size: nat, text: seq<char>, chunk: seq<char>)
    requires size <= |before| && After(w, before, size, text)
    ensures After(Write(w, size, chunk), before, size, text + chunk)
  {
    hide Printed;
    if w.error {
      PrintCutOff(before, size, text, chunk);
    } else {
      PrintTwice(before, size, text, chunk);
    }
  }

  lemma {:induction false} WriteRest(w: Writer, before: seq<char>, size: nat, text: seq<char>, chunks: seq<seq<char>>)
    requires size <= |before| && After(w, before, size, text)
    ensures After(WriteAll(w, size, chunks), before, size, text + Concat(chunks))
    decreases |chunks|
  {
    hide Write, Printed;
    if chunks == [] {
      assert text + Concat(chunks) == text;
    } else {
      WriteOne(w, before, size, text, chunks[0]);
      WriteRest(Write(w, size, chunks[0]), before, size, text + chunks[0], chunks[1..]);
      assert text + chunks[0] + Concat(chunks[1..]) == text + Concat(chunks);
    }
  }

  lemma FirstWrite(before: seq<char>, size: nat, chunk: seq<char>)
    requires size <= |before|
    ensures After(Write(Writer(before, 0, false), size, chunk), before, size, chunk)
  {
    hide Printed;
  }

  /** Written chunk by chunk, a text leaves the memory as one bounded print of all of it would, and the flag is
      raised exactly when the text and its NUL do not fit. */
  lemma WriterRefinesTake(before: seq<char>, size: nat, chunks: seq<seq<char>>)
    requires size <= |before| && chunks != []
    ensures var w, text := WriteAll(Writer(before, 0, false), size, chunks), Concat(chunks);
            && w.memory == Printed(before, 0, size, text)
            && (w.error <==> |text| >= size)
            && (size > 0 ==>
                  var m := Min(|text|, size - 1);
                  w.memory[..m] == text[..m] && w.memory[m] == NUL && w.memory[m + 1..] == before[m + 1..])
  {
    hide Printed;
    if size > 0 { PrintedMeans(before, size, Concat(chunks)); }
    FirstWrite(before, size, chunks[0]);
    WriteRest(Write(Writer(before, 0, false), size, chunks[0]), before, size, chunks[0], chunks[1..]);
  }

  /** However a text is cut into chunks, writing them leaves the same memory and the same verdict. */
  lemma ChunkingIsInvisible(before: seq<char>, size: nat, cs: seq<seq<char>>, ds: seq<seq<char>>)
    requires size <= |before| && cs != [] && ds != [] && Concat(cs) == Concat(ds)
    ensures var c, d := WriteAll(Writer(before, 0, false), size, cs), WriteAll(Writer(before, 0, false), size, ds);
            c.memory == d.memory && c.error == d.error
  {
    hide WriteAll, Concat;
    WriterRefinesTake(before, size, cs);
    WriterRefinesTake(before, size, ds);
  }

  // ----- the C code

  function Line(indent: seq<char>, frame: seq<char>): seq<char> {
    indent + frame + ['\n']
  }

  /** Each line with the indent before it and a newline after it. */
  function Indented(indent: seq<char>, lines: seq<seq<char>>): seq<seq<char>> {
    seq(|lines|, i requires 0 <= i < |lines| => Line(indent, lines[i]))
  }

  /** The lines a backtrace prints: all frames but the first, and a notice when the limit was reached. */
  function Lines(frames: seq<seq<char>>): seq<seq<char>> {
    (if frames == [] then [] else frames[1..]) + (if |frames| == MAX_FRAMES then [FRAME_LIMIT] else [])
  }

  /** What a backtrace consists of: one indented line for each frame but the first and, when there are 50 of them, a notice. */
  ghost predicate IsTrace(indent: seq<char>, frames: seq<seq<char>>, lines: seq<seq<char>>) {
    var n := if |frames| > 1 then |frames| - 1 else 0;
    && |lines| == n + (if |frames| == 50 then 1 else 0)
    && (forall i :: 0 <= i < n ==> lines[i] == indent + frames[i + 1] + "\n")
    && (|frames| == 50 ==> lines[49] == indent + "<frame limit reached, possible truncation>" + "\n")
  }

  lemma LinesAreTrace(indent: seq<char>, frames: seq<seq<char>>)
    ensures IsTrace(indent, frames, Indented(indent, Lines(frames)))
  {
  }

  /** There is only one such list of lines. */
  lemma TraceIsUnique(indent: seq<char>, frames: seq<seq<char>>, lines: seq<seq<char>>)
    requires IsTrace(indent, frames, lines)
    ensures lines == Indented(indent, Lines(frames))
  {
    LinesAreTrace(indent, frames);
  }

  /** The buffer holds as much of the text of these lines as fits before a NUL, and its old contents everywhere else; it is
      left alone when there is no line or no room even for the NUL. */
  ghost predicate Holds(before: seq<char>, after: seq<char>, size: nat, lines: seq<seq<char>>)
    requires size <= |before| == |after|
  {
    if lines == [] || size == 0 then after == before
    else
      var text := Concat(lines);
      var m := if |text| < size then |text| else size - 1;
      after[..m] == text[..m] && after[m] == '\0' && after[m + 1..] == before[m + 1..]
  }

  /** `struct context`. */
  class Context {
    const indent: seq<char>
    const buffer: array<char>
    const size: nat
    var offset: nat
    var error: bool

    constructor (indent: seq<char>, buffer: array<char>, size: nat)
      requires size <= buffer.Length
      ensures this.indent == indent && this.buffer == buffer && this.size == size
      ensures Valid() && State() == Writer(buffer[..], 0, false)
    {
      this.indent, this.buffer, this.size := indent, buffer, size;
      offset, error := 0, false;
    }

    function State(): Writer
      reads this, buffer
    {
      Writer(buffer[..], offset, error)
    }

    ghost predicate Valid()
      reads this, buffer
    {
      State().Fits(size)
    }

    /** `memory_cb`. */
    method MemoryCb(frame: seq<char>)
      requires Valid()
      modifies this, buffer
      ensures Valid() && State() == Write(old(State()), size, Line(indent, frame))
    {
      hide Printed;
      if !error {
        var length := Snprintf(buffer, offset, size - offset, indent + frame + ['\n']);
        if length >= size - offset {
          error := true;
        } else {
          offset := offset + length;
        }
      }
    }

    /** `print_backtrace`, called with `memory_cb`: `frames` are the descriptions of the captured addresses,
        the first being this function's own. */
    method PrintBacktrace(frames: seq<seq<char>>)
      requires |frames| <= 50
      requires Valid()
      modifies this, buffer
      ensures Valid() && State() == WriteAll(old(State()), size, Indented(indent, Lines(frames)))
      ensures IsTrace(indent, frames, Indented(indent, Lines(frames)))
    {
      hide Write, Line;
      ghost var start := State();
      ghost var done: seq<seq<char>> := [];
      var ii := 1;
      while ii < |frames|
        invariant ii >= 1 && Valid()
        invariant done == if frames == [] then [] else frames[1..Min(ii, |frames|)]
        invariant State() == WriteAll(start, size, Indented(indent, done))
      {
        MemoryCb(frames[ii]);
        WriteAllAppend(start, size, Indented(indent, done), Line(indent, frames[ii]));
        assert Indented(indent, done + [frames[ii]]) == Indented(indent, done) + [Line(indent, frames[ii])];
        done := done + [frames[ii]];
        ii := ii + 1;
      }
      if |frames| == MAX_FRAMES {
        MemoryCb(FRAME_LIMIT);
        WriteAllAppend(start, size, Indented(indent, done), Line(indent, FRAME_LIMIT));
        assert Indented(indent, done + [FRAME_LIMIT]) == Indented(indent, done) + [Line(indent, FRAME_LIMIT)];
        done := done + [FRAME_LIMIT];
      }
      assert done == Lines(frames);
      LinesAreTrace(indent, frames);
    }
  }

  /** `print_backtrace_to_buffer`: the buffer ends up as one bounded print of the whole backtrace would have left it, and the
      result says whether all of it fitted. */
  method PrintBacktraceToBuffer(indent: seq<char>, buffer: array<char>, size: nat, frames: seq<seq<char>>) returns (ok: bool)
    requires size <= buffer.Length && |frames| <= 50
    modifies buffer
    ensures exists lines ::
              && IsTrace(indent, frames, lines)
              && Holds(old(buffer[..]), buffer[..], size, lines)
              && ok == (lines == [] || |Concat(lines)| < size)
  {
    hide Printed, IsTrace, Concat, Write;
    ghost var lines := Indented(indent, Lines(frames));
    if lines != [] { WriterRefinesTake(buffer[..], size, lines); }
    PrintNothing(buffer[..], Concat(lines));
    var c := new Context(indent, buffer, size);
    c.PrintBacktrace(frames);
    ok := !c.error;
  }

  lemma PrintNothing(b: seq<char>, text: seq<char>)
    ensures Printed(b, 0, 0, text) == b
  {
  }
}
