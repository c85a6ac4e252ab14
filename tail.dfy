/**
 * Live tailing: `readNewContent` reads the bytes appended since the last
 * recorded size, and the `fs.watch` callback advances that size and
 * broadcasts each new non-blank line with `io.emit('newLog', line)`.
 * Broadcasts are modelled as appends to a log of emitted lines, and the
 * stream of watch notifications as a sequence of (event type, snapshot of
 * the file) pairs.
 */
module Tail {
  import opened Text
  import opened Files

  /** The object `readNewContent` returns. */
  datatype ReadResult = ReadResult(content: string, newSize: nat)

  /**
   * What `readNewContent(filePath, start)` returns for a file in the given
   * state: content is read exactly when the file can be read and has grown
   * past `start`, and it is then the bytes from `start` to the end.
   */
  function Delta(file: Snapshot, start: nat): (r: ReadResult)
    ensures r.content != [] <==> file.Some? && start < |file.value|
    ensures r.content != [] ==> r.content == file.value[start..] && r.newSize == |file.value|
    ensures r.content == [] ==> r.newSize == if file.None? then start else |file.value|
  {
    match file
    case None => ReadResult([], start)
    case Some(bytes) =>
      if |bytes| <= start then ReadResult([], |bytes|)
      else ReadResult(bytes[start..], |bytes|)
  }

  /**
   * `readNewContent`: allocates a buffer of exactly the new byte count and
   * fills it from `startPosition`. Its three outcomes are those of `Delta`.
   */
  method ReadNewContent(file: Snapshot, startPosition: nat) returns (content: string, newSize: nat)
    ensures file.None? ==> content == [] && newSize == startPosition
    ensures file.Some? && |file.value| <= startPosition ==> content == [] && newSize == |file.value|
    ensures file.Some? && startPosition < |file.value| ==>
              content == file.value[startPosition..] && newSize == |file.value|
    ensures ReadResult(content, newSize) == Delta(file, startPosition)
  {
    match file
    case None =>
      content, newSize := [], startPosition;
    case Some(bytes) =>
      var currentSize := |bytes|;
      if currentSize <= startPosition {
        content, newSize := [], currentSize;
      } else {
        var readSize := currentSize - startPosition;
        var buffer := new char[readSize];
        ReadSync(bytes, buffer, readSize, startPosition);
        assert buffer[..] == buffer[..readSize];
        content, newSize := buffer[..], currentSize;
      }
  }

  /** The two event types `fs.watch` reports. */
  datatype EventType = Change | Rename

  datatype Notification = Notification(eventType: EventType, file: Snapshot)

  /** The tailer's state: `lastSize` and the lines broadcast so far. */
  datatype TailState = TailState(lastSize: nat, log: seq<string>)

  /** The start-up value of `lastSize`: the file's size, or 0 when `fs.statSync` throws. */
  function InitialSize(file: Snapshot): nat {
    match file
    case None => 0
    case Some(bytes) => |bytes|
  }

  /** The bytes one notification makes the callback read and act on. */
  function ReadBy(s: TailState, n: Notification): string {
    if n.eventType == Change then Delta(n.file, s.lastSize).content else []
  }

  /** The watch callback on values. */
  function Handle(s: TailState, n: Notification): TailState {
    var content := ReadBy(s, n);
    if content == [] then s
    else TailState(Delta(n.file, s.lastSize).newSize, s.log + LinesOf(content))
  }

  /** The callback run on each notification in turn. */
  function Run(s: TailState, ns: seq<Notification>): TailState
    decreases |ns|
  {
    if ns == [] then s else Run(Handle(s, ns[0]), ns[1..])
  }

  /** The bytes read over a run, in the order they were read. */
  function ReadOver(s: TailState, ns: seq<Notification>): string
    decreases |ns|
  {
    if ns == [] then [] else ReadBy(s, ns[0]) + ReadOver(Handle(s, ns[0]), ns[1..])
  }

  /** The lines broadcast over a run: the non-blank pieces of each read, read by read. */
  function EmittedOver(s: TailState, ns: seq<Notification>): seq<string>
    decreases |ns|
  {
    if ns == [] then [] else LinesOf(ReadBy(s, ns[0])) + EmittedOver(Handle(s, ns[0]), ns[1..])
  }

  /**
   * The process-wide tailer: the module-level `lastSize` and the stream of
   * `newLog` broadcasts.
   */
  class Tailer {
    var lastSize: nat
    var log: seq<string>

    function State(): TailState
      reads this
    {
      TailState(lastSize, log)
    }

    /** Start-up: `lastSize` is the file's current size, or 0 when the file cannot be stat'ed. */
    constructor (file: Snapshot)
      ensures lastSize == InitialSize(file) && log == []
    {
      lastSize := InitialSize(file);
      log := [];
    }

    /** `io.emit('newLog', line)`. */
    method Emit(line: string)
      modifies this
      ensures lastSize == old(lastSize) && log == old(log) + [line]
    {
      log := log + [line];
    }

    /**
     * The `fs.watch` callback: on a `change` event, read what was appended
     * since `lastSize`; when something was read, advance `lastSize` to the
     * new size and broadcast each non-blank line of it in order.
     */
    method OnWatch(eventType: EventType, file: Snapshot)
      modifies this
      ensures State() == Handle(old(State()), Notification(eventType, file))
    {
      if eventType == Change {
        var content, newSize := ReadNewContent(file, lastSize);
        if content != [] {
          lastSize := newSize;
          var lines := LinesOf(content);
          var i := 0;
          while i < |lines|
            invariant 0 <= i <= |lines|
            invariant lastSize == newSize && log == old(log) + lines[..i]
          {
            Emit(lines[i]);
            i := i + 1;
          }
        }
      }
    }
  }

  /** Reading from the current size finds nothing and leaves the size as it is. */
  lemma {:induction false} ReadAtCurrentSizeIsEmpty(bytes: string)
    ensures Delta(Some(bytes), |bytes|) == ReadResult([], |bytes|)
  {
  }

  /**
   * One notification: `lastSize` never decreases; a non-`change` event, a
   * failed read and a file that has not grown past `lastSize` (including a
   * shrunk one) change nothing; and delivering the same notification twice
   * has the effect of delivering it once.
   */
  lemma {:induction false} HandleEffect(s: TailState, n: Notification)
    ensures Handle(s, n).lastSize >= s.lastSize
    ensures n.eventType == Rename || n.file == None || |n.file.value| <= s.lastSize ==> Handle(s, n) == s
    ensures Handle(Handle(s, n), n) == Handle(s, n)
  {
    if ReadBy(s, n) == [] {
      assert Handle(s, n) == s;
    }
  }

  /** One notification appends the non-blank lines of what it read to the log, and nothing else. */
  lemma {:induction false} HandleAppendsLines(s: TailState, n: Notification)
    ensures Handle(s, n).log == s.log + LinesOf(ReadBy(s, n))
  {
    if ReadBy(s, n) == [] {
      DropsEmptyPiece();
    }
  }

  /** Over a run, `lastSize` never decreases and the log only grows, by the lines of each read in turn. */
  lemma {:induction false} RunLog(s: TailState, ns: seq<Notification>)
    ensures Run(s, ns).lastSize >= s.lastSize
    ensures Run(s, ns).log == s.log + EmittedOver(s, ns)
    decreases |ns|
  {
    RunKeepsSize(s, ns);
    if ns != [] {
      var next := Handle(s, ns[0]);
      var lines := LinesOf(ReadBy(s, ns[0]));
      var rest := EmittedOver(next, ns[1..]);
      assert Run(s, ns) == Run(next, ns[1..]);
      assert EmittedOver(s, ns) == lines + rest;
      HandleAppendsLines(s, ns[0]);
      RunLog(next, ns[1..]);
      assert s.log + lines + rest == s.log + (lines + rest);
    }
  }

  lemma {:induction false} RunKeepsSize(s: TailState, ns: seq<Notification>)
    ensures Run(s, ns).lastSize >= s.lastSize
    decreases |ns|
  {
    if ns != [] {
      var next := Handle(s, ns[0]);
      assert next.lastSize >= s.lastSize;
      RunKeepsSize(next, ns[1..]);
    }
  }

  /** Every snapshot of the run that can be read is a prefix of `whole`: the file only grows. */
  predicate GrowsWithin(ns: seq<Notification>, whole: string) {
    forall i :: 0 <= i < |ns| && ns[i].file.Some? ==> ns[i].file.value <= whole
  }

  lemma {:induction false} GrowsWithinRest(ns: seq<Notification>, whole: string)
    requires ns != [] && GrowsWithin(ns, whole)
    ensures ns[0].file.Some? ==> ns[0].file.value <= whole
    ensures GrowsWithin(ns[1..], whole)
  {
    forall i | 0 <= i < |ns| - 1 && ns[1..][i].file.Some? ensures ns[1..][i].file.value <= whole {
      assert ns[1..][i] == ns[i + 1];
    }
  }

  /**
   * Appends only: when every snapshot that can be read is a prefix of one
   * file `whole`, the bytes read over the run are exactly the bytes of
   * `whole` between the starting `lastSize` and the final one; no byte is
   * read twice and none is skipped.
   */
  lemma {:induction false} RunReadsContiguous(s: TailState, ns: seq<Notification>, whole: string)
    requires s.lastSize <= |whole| && GrowsWithin(ns, whole)
    ensures s.lastSize <= Run(s, ns).lastSize <= |whole|
    ensures ReadOver(s, ns) == whole[s.lastSize..Run(s, ns).lastSize]
    decreases |ns|
  {
    if ns != [] {
      var next := Handle(s, ns[0]);
      GrowsWithinRest(ns, whole);
      ReadIsSliceOfWhole(s, ns[0], whole);
      RunReadsContiguous(next, ns[1..], whole);
      SlicesMeet(whole, s.lastSize, next.lastSize, Run(next, ns[1..]).lastSize);
    }
  }

  /** Two adjacent slices make up the slice that spans both. */
  lemma {:induction false} SlicesMeet(whole: string, i: nat, j: nat, k: nat)
    requires i <= j <= k <= |whole|
    ensures whole[i..k] == whole[i..j] + whole[j..k]
  {
  }

  /** One notification on a prefix of `whole` reads the bytes of `whole` from `lastSize` up to the new `lastSize`. */
  lemma {:induction false} ReadIsSliceOfWhole(s: TailState, n: Notification, whole: string)
    requires s.lastSize <= |whole|
    requires n.file.Some? ==> n.file.value <= whole
    ensures s.lastSize <= Handle(s, n).lastSize <= |whole|
    ensures ReadBy(s, n) == whole[s.lastSize..Handle(s, n).lastSize]
  {
    var read := ReadBy(s, n);
    if read != [] {
      var bytes := n.file.value;
      assert read == bytes[s.lastSize..] && Handle(s, n).lastSize == |bytes|;
      assert bytes == whole[..|bytes|];
    } else {
      assert Handle(s, n) == s;
    }
  }

  /** A file state in which the last line written is complete. */
  predicate EndsLine(file: Snapshot) {
    file.Some? ==> file.value == [] || file.value[|file.value| - 1] == NL
  }

  /**
   * When writers append whole lines, however notifications coalesce or
   * repeat, the lines broadcast are the non-blank lines of everything read,
   * in file order.
   */
  lemma {:induction false} WholeLineAppendsEmitInOrder(s: TailState, ns: seq<Notification>)
    requires forall i :: 0 <= i < |ns| ==> EndsLine(ns[i].file)
    ensures EmittedOver(s, ns) == LinesOf(ReadOver(s, ns))
    decreases |ns|
  {
    if ns == [] {
      assert !NonBlank([]);
      assert LinesOf([]) == KeepNonBlank([[]]) == [];
    } else {
      var read := ReadBy(s, ns[0]);
      var next := Handle(s, ns[0]);
      assert ReadOver(s, ns) == read + ReadOver(next, ns[1..]);
      assert EmittedOver(s, ns) == LinesOf(read) + EmittedOver(next, ns[1..]);
      assert read == [] || read[|read| - 1] == NL;
      forall i | 0 <= i < |ns| - 1 ensures EndsLine(ns[1..][i].file) {
        assert ns[1..][i] == ns[i + 1];
      }
      WholeLineAppendsEmitInOrder(next, ns[1..]);
      FilteredSplitConcat(read, ReadOver(next, ns[1..]));
    }
  }

  /**
   * The end-to-end promise for an append-only file whose writers append
   * whole lines, starting from the start-up `lastSize`: the broadcast
   * stream is exactly the non-blank lines appended after start-up and up
   * to the final `lastSize`, in order, each once.
   */
  lemma {:induction false} AppendOnlyBroadcast(initial: Snapshot, ns: seq<Notification>, whole: string)
    requires initial.Some? ==> initial.value <= whole
    requires forall i :: 0 <= i < |ns| ==> EndsLine(ns[i].file)
    requires GrowsWithin(ns, whole)
    ensures var start := InitialSize(initial);
            var final := Run(TailState(start, []), ns);
            && start <= final.lastSize <= |whole|
            && final.log == LinesOf(whole[start..final.lastSize])
  {
    var s := TailState(InitialSize(initial), []);
    RunReadsContiguous(s, ns, whole);
    RunLog(s, ns);
    WholeLineAppendsEmitInOrder(s, ns);
  }
}
