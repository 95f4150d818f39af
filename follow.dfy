/**
 * The follow loop of logknife (cmd_follow), one iteration at a time.
 *
 * The file is given by its current content and by whether fstat succeeds
 * on it; the size file_size reports is then |file| or -1. The stream
 * position and last_size are the state of the loop, and stdout is the text
 * written so far. One iteration either reads a line with fgets into an
 * 8192-byte buffer, filters it and highlights it, or, at end of data,
 * checks for truncation and records the size.
 */
module Follow {
  import opened Filter
  import opened Highlight

  /** sizeof(buf) in cmd_follow; fgets stores at most BufSize - 1 bytes of a line. */
  const BufSize: nat := 8192

  /** The number of bytes fgets takes from `file` at `pos` when it has room for `room` bytes. */
  function LineLen(file: string, pos: nat, room: nat): (k: nat)
    requires pos <= |file|
    ensures k <= room && pos + k <= |file|
    ensures room > 0 && pos < |file| ==> k > 0
    ensures k == room || pos + k == |file| || file[pos + k - 1] == '\n'
    decreases room
  {
    if room == 0 || pos == |file| then 0
    else if file[pos] == '\n' then 1
    else 1 + LineLen(file, pos + 1, room - 1)
  }

  /** fgets stops at the first newline: none comes before the last byte it takes. */
  lemma {:induction false} LineLenStopsAtNewline(file: string, pos: nat, room: nat)
    requires pos <= |file|
    ensures forall i :: pos <= i < pos + LineLen(file, pos, room) - 1 ==> file[i] != '\n'
    decreases room
  {
    if room > 0 && pos < |file| && file[pos] != '\n' {
      LineLenStopsAtNewline(file, pos + 1, room - 1);
    }
  }

  /** The line fgets(buf, BufSize, fp) reads at `pos`. */
  function Chunk(file: string, pos: nat): (chunk: string)
    requires pos < |file|
    ensures 1 <= |chunk| <= BufSize - 1 && pos + |chunk| <= |file|
  {
    file[pos..pos + LineLen(file, pos, BufSize - 1)]
  }

  /** A line as fgets returns it: 1 to 8191 bytes, with a newline at most as its last byte. */
  predicate LineShaped(chunk: string) {
    1 <= |chunk| <= BufSize - 1 && forall i :: 0 <= i < |chunk| - 1 ==> chunk[i] != '\n'
  }

  /** A line that fgets ended at a newline or at a full buffer rather than at end of data. */
  predicate Complete(chunk: string) {
    |chunk| > 0 && (chunk[|chunk| - 1] == '\n' || |chunk| == BufSize - 1)
  }

  /** The shape of one line read, and why fgets stopped where it did. */
  lemma ChunkShape(file: string, pos: nat)
    requires pos < |file|
    ensures Chunk(file, pos) == file[pos..pos + |Chunk(file, pos)|]
    ensures LineShaped(Chunk(file, pos))
    ensures pos + |Chunk(file, pos)| < |file| ==> Complete(Chunk(file, pos))
  {
    var chunk := Chunk(file, pos);
    var n := |chunk|;
    LineLenStopsAtNewline(file, pos, BufSize - 1);
    forall i | 0 <= i < n - 1
      ensures chunk[i] != '\n'
    {
      assert chunk[i] == file[pos + i];
    }
    assert chunk[n - 1] == file[pos + n - 1];
  }

  /** What strlen and the other string functions see of a buffer: the bytes before its first NUL. */
  function CStr(buf: string): (s: string)
    ensures |s| <= |buf|
    ensures |s| == |buf| || buf[|s|] == '\0'
  {
    if buf == [] || buf[0] == '\0' then [] else [buf[0]] + CStr(buf[1..])
  }

  predicate NulFree(s: string) {
    forall i :: 0 <= i < |s| ==> s[i] != '\0'
  }

  /** The C string of a buffer is a NUL-free prefix of it, all of it when it holds no NUL. */
  lemma {:induction false} CStrPrefix(buf: string)
    ensures CStr(buf) == buf[..|CStr(buf)|]
    ensures NulFree(CStr(buf))
    ensures NulFree(buf) ==> CStr(buf) == buf
  {
    if buf != [] && buf[0] != '\0' {
      var tail := buf[1..];
      CStrPrefix(tail);
      assert CStr(buf) == [buf[0]] + CStr(tail);
      assert tail[..|CStr(tail)|] == buf[1..1 + |CStr(tail)|];
      assert NulFree(CStr(buf)) by {
        forall i | 0 <= i < |CStr(buf)| ensures CStr(buf)[i] != '\0' {
          if i > 0 {
            assert CStr(buf)[i] == CStr(tail)[i - 1];
          }
        }
      }
      if NulFree(buf) {
        assert NulFree(tail) by {
          forall i | 0 <= i < |tail| ensures tail[i] != '\0' {
            assert tail[i] == buf[i + 1];
          }
        }
      }
    }
  }

  /** file_size: the size fstat reports, or -1 when it fails. */
  function FileSize(file: string, statOk: bool): int {
    if statOk then |file| else -1
  }

  /** The truncation test of cmd_follow: both sizes known and the new one smaller. */
  predicate Shrunk(size: int, lastSize: int) {
    size >= 0 && lastSize >= 0 && size < lastSize
  }

  /** The stream position and last_size. */
  datatype Cursor = Cursor(pos: nat, lastSize: int)

  /** The state after some iterations, and the buffers fgets filled in them, in order. */
  datatype Update = Update(next: Cursor, read: seq<string>)

  /**
   * A condition under which print_highlighted returns for `line` whenever
   * cmd_follow calls it: the line is dropped by should_print, or it is
   * empty, or no highlight word is empty. It is stronger than necessary: an
   * empty word is found at the cursor and stops it advancing only when no
   * lower-indexed word occurs there as well.
   */
  predicate Printable(o: Options, line: string) {
    Keeps(o, line) ==> line == [] || NonEmptyWords(o.highlights)
  }

  /** Every buffer in `bufs` is printable as strlen sees it. */
  predicate AllPrintable(o: Options, bufs: seq<string>) {
    forall k :: 0 <= k < |bufs| ==> Printable(o, CStr(bufs[k]))
  }

  /** should_print, then print_highlighted, on a line. */
  function Emit(o: Options, line: string): string
    requires Printable(o, line)
  {
    if Keeps(o, line) then Highlighted(line, o.highlights) else []
  }

  /** One iteration of the for (;;) loop of cmd_follow, as far as the stream is concerned. */
  function Transition(c: Cursor, file: string, statOk: bool): Update {
    if c.pos >= |file| then
      var size := FileSize(file, statOk);
      Update(Cursor(if Shrunk(size, c.lastSize) then 0 else c.pos, size), [])
    else
      var chunk := Chunk(file, c.pos);
      Update(Cursor(c.pos + |chunk|, c.lastSize), [chunk])
  }

  /** The bytes left to read. */
  function Unread(pos: nat, file: string): nat {
    if pos <= |file| then |file| - pos else 0
  }

  /** A poll: iterations that read lines until end of data, then the end-of-data one. */
  function Cycle(c: Cursor, file: string, statOk: bool): Update
    decreases Unread(c.pos, file)
  {
    var u := Transition(c, file, statOk);
    if c.pos >= |file| then u
    else
      var rest := Cycle(u.next, file, statOk);
      Update(rest.next, u.read + rest.read)
  }

  /** The successive lines fgets reads from `pos` to the end of data. */
  function Chunks(file: string, pos: nat): seq<string>
    decreases Unread(pos, file)
  {
    if pos >= |file| then [] else [Chunk(file, pos)] + Chunks(file, pos + |Chunk(file, pos)|)
  }

  function Concat(chunks: seq<string>): string {
    if chunks == [] then [] else chunks[0] + Concat(chunks[1..])
  }

  /** What the loop writes for the buffers it read: should_print and print_highlighted on each in turn. */
  function EmitAll(o: Options, chunks: seq<string>): string
    requires AllPrintable(o, chunks)
  {
    if chunks == [] then [] else Emit(o, CStr(chunks[0])) + EmitAll(o, chunks[1..])
  }

  /** cmd_follow's state: the stream position, last_size and what stdout received. */
  class Follower {
    const opts: Options
    var pos: nat
    var lastSize: int
    var out: string

    function State(): Cursor
      reads this
    {
      Cursor(pos, lastSize)
    }

    /** Opening the file: seek to its end and record its size. */
    constructor (o: Options, file: string, statOk: bool)
      ensures opts == o && out == []
      ensures State() == Cursor(|file|, FileSize(file, statOk))
      ensures statOk ==> pos == lastSize
    {
      opts := o;
      pos := |file|;
      lastSize := FileSize(file, statOk);
      out := [];
    }

    /** One iteration of the loop against the file as it is now. */
    method Step(file: string, statOk: bool)
      requires AllPrintable(opts, Transition(State(), file, statOk).read)
      modifies this
      ensures State() == Transition(old(State()), file, statOk).next
      ensures out == old(out) + EmitAll(opts, Transition(old(State()), file, statOk).read)
    {
      if pos >= |file| {
        var size := FileSize(file, statOk);
        if size >= 0 && lastSize >= 0 && size < lastSize {
          pos := 0;
        }
        lastSize := size;
        assert out == out + EmitAll(opts, []);
      } else {
        var n := LineLen(file, pos, BufSize - 1);
        var buf := file[pos..pos + n];
        assert buf == Chunk(file, pos);
        assert Printable(opts, CStr(buf)) by {
          assert Transition(State(), file, statOk).read[0] == buf;
        }
        pos := pos + n;
        var line := CStr(buf);
        var keep := ShouldPrint(opts, line);
        ghost var before := out;
        if keep {
          var text := PrintHighlighted(line, opts.highlights);
          out := out + text;
        }
        EmitOne(opts, buf, before, out);
      }
    }

    /** Read every available line, then handle end of data, as one poll does. */
    method Poll(file: string, statOk: bool)
      requires AllPrintable(opts, Cycle(State(), file, statOk).read)
      modifies this
      ensures State() == Cycle(old(State()), file, statOk).next
      ensures out == old(out) + EmitAll(opts, Cycle(old(State()), file, statOk).read)
    {
      ghost var goal := Cycle(State(), file, statOk);
      ghost var total := out + EmitAll(opts, goal.read);
      while pos < |file|
        invariant Cycle(State(), file, statOk).next == goal.next
        invariant AllPrintable(opts, Cycle(State(), file, statOk).read)
        invariant out + EmitAll(opts, Cycle(State(), file, statOk).read) == total
        decreases |file| - pos
      {
        ghost var after := PollStep(opts, State(), file, statOk, out, total);
        Step(file, statOk);
        assert out == after;
      }
      ghost var before := out;
      Step(file, statOk);
      assert before + EmitAll(opts, []) == before;
    }
  }

  /** The output for one buffer read: the highlighted line when should_print keeps it, else nothing. */
  lemma EmitOne(o: Options, buf: string, before: string, after: string)
    requires Printable(o, CStr(buf))
    requires Keeps(o, CStr(buf)) ==> after == before + Highlighted(CStr(buf), o.highlights)
    requires !Keeps(o, CStr(buf)) ==> after == before
    ensures AllPrintable(o, [buf]) && after == before + EmitAll(o, [buf])
  {
    assert [buf][1..] == [];
    assert EmitAll(o, [buf]) == Emit(o, CStr(buf)) + [];
  }

  /** The output for two runs of reads is the output of the first, then of the second. */
  lemma {:induction false} EmitAllAppend(o: Options, a: seq<string>, b: seq<string>)
    requires AllPrintable(o, a + b)
    ensures AllPrintable(o, a) && AllPrintable(o, b)
    ensures EmitAll(o, a + b) == EmitAll(o, a) + EmitAll(o, b)
  {
    forall k | 0 <= k < |a| ensures Printable(o, CStr(a[k])) {
      assert a[k] == (a + b)[k];
    }
    forall k | 0 <= k < |b| ensures Printable(o, CStr(b[k])) {
      assert b[k] == (a + b)[|a| + k];
    }
    if a == [] {
      assert a + b == b;
    } else {
      assert (a + b)[1..] == a[1..] + b;
      EmitAllAppend(o, a[1..], b);
    }
  }

  /** Reading one line keeps the loop invariant of Poll. */
  lemma PollStep(o: Options, c: Cursor, file: string, statOk: bool, before: string, total: string)
    returns (after: string)
    requires c.pos < |file| && AllPrintable(o, Cycle(c, file, statOk).read)
    requires before + EmitAll(o, Cycle(c, file, statOk).read) == total
    ensures AllPrintable(o, Transition(c, file, statOk).read)
    ensures AllPrintable(o, Cycle(Transition(c, file, statOk).next, file, statOk).read)
    ensures after == before + EmitAll(o, Transition(c, file, statOk).read)
    ensures after + EmitAll(o, Cycle(Transition(c, file, statOk).next, file, statOk).read) == total
    ensures Cycle(Transition(c, file, statOk).next, file, statOk).next == Cycle(c, file, statOk).next
  {
    var u := Transition(c, file, statOk);
    var rest := Cycle(u.next, file, statOk);
    assert Cycle(c, file, statOk) == Update(rest.next, u.read + rest.read);
    after := OutputSplit(o, u.read, rest.read, before, total);
  }

  /** Splitting the buffers read in two splits what is written the same way. */
  lemma OutputSplit(o: Options, a: seq<string>, b: seq<string>, before: string, total: string)
    returns (after: string)
    requires AllPrintable(o, a + b) && before + EmitAll(o, a + b) == total
    ensures AllPrintable(o, a) && AllPrintable(o, b)
    ensures after == before + EmitAll(o, a) && after + EmitAll(o, b) == total
  {
    EmitAllAppend(o, a, b);
    after := before + EmitAll(o, a);
    assert before + (EmitAll(o, a) + EmitAll(o, b)) == after + EmitAll(o, b);
  }

  // ---------------------------------------------------------------------
  // Properties of the follow loop
  // ---------------------------------------------------------------------

  /**
   * At end of data the position returns to 0 when fstat shows the file
   * smaller than last time and is kept otherwise; last_size always becomes
   * the new size and nothing is read.
   */
  lemma EndOfData(c: Cursor, file: string, statOk: bool)
    requires c.pos >= |file|
    ensures Transition(c, file, statOk).next.lastSize == FileSize(file, statOk)
    ensures Shrunk(FileSize(file, statOk), c.lastSize) ==> Transition(c, file, statOk).next.pos == 0
    ensures !Shrunk(FileSize(file, statOk), c.lastSize) ==> Transition(c, file, statOk).next.pos == c.pos
    ensures Transition(c, file, statOk).read == []
  {
  }

  /** After a truncation is seen, the next line read is the first line of the new content. */
  lemma TruncationRestarts(c: Cursor, file: string, later: string, statOk: bool)
    requires c.pos >= |file| && c.lastSize > |file| && later != []
    ensures Transition(c, file, true).next == Cursor(0, |file|)
    ensures Transition(Cursor(0, |file|), later, statOk) ==
      Update(Cursor(|Chunk(later, 0)|, |file|), [Chunk(later, 0)])
  {
  }

  /** When fstat fails nothing is reset, so the position can stay beyond the end of the file. */
  lemma UnknownSizeKeepsPosition(c: Cursor, file: string)
    requires c.pos >= |file|
    ensures Transition(c, file, false).next == Cursor(c.pos, -1)
  {
  }

  /** Reading a line: the position advances past exactly the bytes read and last_size is kept. */
  lemma LineRead(c: Cursor, file: string, statOk: bool)
    requires c.pos < |file|
    ensures c.pos < Transition(c, file, statOk).next.pos <= |file|
    ensures Transition(c, file, statOk).read == [file[c.pos..Transition(c, file, statOk).next.pos]]
    ensures Transition(c, file, statOk).next.lastSize == c.lastSize
  {
    ChunkShape(file, c.pos);
  }

  /** A line read is written, highlighted, exactly when should_print keeps it. */
  lemma LineWritten(o: Options, buf: string)
    requires Printable(o, CStr(buf))
    ensures Keeps(o, CStr(buf)) ==> EmitAll(o, [buf]) == Highlighted(CStr(buf), o.highlights)
    ensures !Keeps(o, CStr(buf)) ==> EmitAll(o, [buf]) == []
  {
    EmitOne(o, buf, [], Emit(o, CStr(buf)));
  }

  /** The lines of a drain, put together, are exactly the unread data. */
  lemma {:induction false} ChunksConcat(file: string, pos: nat)
    requires pos <= |file|
    ensures Concat(Chunks(file, pos)) == file[pos..]
    decreases |file| - pos
  {
    if pos < |file| {
      var chunk := Chunk(file, pos);
      var next := pos + |chunk|;
      assert chunk == file[pos..next];
      ChunksConcat(file, next);
      var chunks := Chunks(file, pos);
      assert chunks[0] == chunk && chunks[1..] == Chunks(file, next);
      SliceSplit(file, pos, next);
    } else {
      assert file[pos..] == [];
    }
  }

  lemma SliceSplit(s: string, i: nat, j: nat)
    requires i <= j <= |s|
    ensures s[i..] == s[i..j] + s[j..]
  {
  }

  /**
   * Every line of a drain is shaped as fgets returns it, and every line but
   * the last ended at a newline or a full buffer.
   */
  lemma {:induction false} ChunksShape(file: string, pos: nat)
    requires pos <= |file|
    ensures forall k :: 0 <= k < |Chunks(file, pos)| ==> LineShaped(Chunks(file, pos)[k])
    ensures forall k :: 0 <= k < |Chunks(file, pos)| - 1 ==> Complete(Chunks(file, pos)[k])
    decreases |file| - pos
  {
    if pos < |file| {
      var chunk := Chunk(file, pos);
      var next := pos + |chunk|;
      ChunkShape(file, pos);
      ChunksShape(file, next);
      var chunks := Chunks(file, pos);
      var rest := Chunks(file, next);
      assert chunks == [chunk] + rest;
      assert rest != [] ==> next < |file|;
      forall k | 1 <= k < |chunks|
        ensures chunks[k] == rest[k - 1]
      {
      }
    }
  }

  /**
   * A poll reads the lines of the drain in order, and ends at end of data
   * with last_size updated and the position reset to 0 when the file shrank
   * since the last poll.
   */
  lemma {:induction false} CycleOutcome(c: Cursor, file: string, statOk: bool)
    ensures Cycle(c, file, statOk).read == Chunks(file, c.pos)
    ensures Cycle(c, file, statOk).next.lastSize == FileSize(file, statOk)
    ensures Cycle(c, file, statOk).next.pos ==
      if Shrunk(FileSize(file, statOk), c.lastSize) then 0
      else if c.pos < |file| then |file| else c.pos
    decreases Unread(c.pos, file)
  {
    if c.pos < |file| {
      var next := Transition(c, file, statOk).next;
      CycleOutcome(next, file, statOk);
      assert Chunks(file, c.pos) == [Chunk(file, c.pos)] + Chunks(file, next.pos);
    }
  }

  /**
   * While fstat succeeds, a poll that starts no further than the last size
   * recorded ends within the file, and again no further than the size it
   * records; the constructor sets up this invariant.
   */
  lemma CycleWithinFile(c: Cursor, file: string)
    requires c.pos <= c.lastSize
    ensures Cycle(c, file, true).next.pos <= |file|
    ensures Cycle(c, file, true).next.pos <= Cycle(c, file, true).next.lastSize
  {
    CycleOutcome(c, file, true);
  }

  /**
   * A shrink seen at the end of a poll that started at 0 sends the reader
   * back to 0 again, so the next poll reads the same bytes once more.
   */
  lemma ShrinkRereads(c: Cursor, file: string)
    requires c.pos == 0 && |file| < c.lastSize
    ensures Cycle(c, file, true).next == Cursor(0, |file|)
    ensures Cycle(Cycle(c, file, true).next, file, true).read == Chunks(file, 0)
  {
    CycleOutcome(c, file, true);
    CycleOutcome(Cursor(0, |file|), file, true);
  }

  lemma NulFreeSlice(s: string, i: nat, j: nat)
    requires i <= j <= |s| && NulFree(s)
    ensures NulFree(s[i..j])
  {
    forall k | 0 <= k < j - i ensures s[i..j][k] != '\0' {
      assert s[i..j][k] == s[i + k];
    }
  }

  /** Every line of a drain of NUL-free data is NUL-free. */
  lemma {:induction false} ChunksNulFree(file: string, pos: nat)
    requires pos <= |file| && NulFree(file)
    ensures forall k :: 0 <= k < |Chunks(file, pos)| ==> NulFree(Chunks(file, pos)[k])
    decreases |file| - pos
  {
    if pos < |file| {
      var chunk := Chunk(file, pos);
      var next := pos + |chunk|;
      assert chunk == file[pos..next];
      NulFreeSlice(file, pos, next);
      ChunksNulFree(file, next);
      var chunks := Chunks(file, pos);
      var rest := Chunks(file, next);
      assert chunks == [chunk] + rest;
      forall k | 1 <= k < |chunks|
        ensures chunks[k] == rest[k - 1]
      {
      }
    }
  }

  /** With no patterns and no highlight words, NUL-free buffers are written exactly as read. */
  lemma {:induction false} EmitAllVerbatim(o: Options, lines: seq<string>)
    requires o.includes == [] && o.excludes == [] && o.highlights == []
    requires forall k :: 0 <= k < |lines| ==> NulFree(lines[k])
    ensures EmitAll(o, lines) == Concat(lines)
  {
    if lines != [] {
      CStrPrefix(lines[0]);
      NoPatternsKeepAll(o, lines[0]);
      assert Emit(o, CStr(lines[0])) == lines[0];
      EmitAllVerbatim(o, lines[1..]);
    }
  }

  /**
   * With no patterns and no highlight words, a poll copies exactly the
   * bytes appended since the last one, as long as they hold no NUL.
   */
  lemma PassThrough(o: Options, c: Cursor, file: string, statOk: bool)
    requires o.includes == [] && o.excludes == [] && o.highlights == []
    requires c.pos <= |file| && NulFree(file)
    ensures EmitAll(o, Cycle(c, file, statOk).read) == file[c.pos..]
  {
    CycleOutcome(c, file, statOk);
    ChunksNulFree(file, c.pos);
    EmitAllVerbatim(o, Chunks(file, c.pos));
    ChunksConcat(file, c.pos);
  }
}
