/**
 * Runs of the tailer on small histories: what a connected client receives
 * live, and what a client connecting afterwards receives as backfill.
 */
module Scenarios {
  import opened Text
  import opened Files
  import opened Backfill
  import opened Tail

  /** Two complete lines followed by the empty piece after the final line feed. */
  lemma {:induction false} KeepsTwoLines(a: string, b: string)
    requires ProperLines([a, b])
    ensures KeepNonBlank([a, b, []]) == [a, b]
  {
    KeepNonBlankKeepsProperLines([a, b]);
    KeepNonBlankConcat([a, b], [[]]);
    DropsEmptyPiece();
    assert [a, b] + [[]] == [a, b, []];
  }

  /** "hello\nworld\n" splits into the two lines and the empty piece after the final line feed. */
  lemma {:induction false} TwoLinesSplit(a: string, b: string)
    requires ProperLines([a, b])
    ensures Split(a + [NL] + b + [NL]) == [a, b, []]
    ensures LinesOf(a + [NL] + b + [NL]) == [a, b]
  {
    JoinThree(a, b, []);
    assert a + [NL] + b + [NL] == Join([a, b, []]);
    SplitJoin([a, b, []]);
    KeepsTwoLines(a, b);
  }

  /**
   * Start with an empty file, then two lines are written at once (say
   * "hello\nworld\n"): the live stream carries the two lines in order, and
   * a client that connects afterwards gets the same two lines as backfill.
   */
  lemma {:induction false} TwoLinesWrittenToEmptyFile(a: string, b: string)
    requires ProperLines([a, b])
    ensures var file := a + [NL] + b + [NL];
            && Run(TailState(InitialSize(Some([])), []), [Notification(Change, Some(file))])
                 == TailState(|file|, [a, b])
            && (|file| < SmallFileLimit ==>
                  LastLines(Some(file), DefaultCount, SmallFileLimit, ChunkBytes) == [a, b])
  {
    var file := a + [NL] + b + [NL];
    TwoLinesSplit(a, b);
    var s := TailState(0, []);
    var n := Notification(Change, Some(file));
    assert file[0..] == file;
    assert ReadBy(s, n) == file;
    HandleAppendsLines(s, n);
    assert Run(s, [n]) == Run(Handle(s, n), []);
    if |file| < SmallFileLimit {
      TwoLinesBackfill(a, b);
    }
  }

  /** The backfill of a small file holding two complete lines is those two lines. */
  lemma {:induction false} TwoLinesBackfill(a: string, b: string)
    requires ProperLines([a, b]) && |a + [NL] + b + [NL]| < SmallFileLimit
    ensures LastLines(Some(a + [NL] + b + [NL]), DefaultCount, SmallFileLimit, ChunkBytes) == [a, b]
  {
    TwoLinesSplit(a, b);
    assert SliceLast([a, b, []], DefaultCount) == [a, b, []];
  }

  /**
   * A partial line is written (say "partial"), then its rest and one more
   * line are appended (say "-line\nmore\n"), each followed by a
   * notification. Each read is split on its own, so the live stream
   * carries the two halves of the first line as two separate lines.
   */
  lemma {:induction false} PartialLineIsNotRejoined(first: string, rest: string, more: string)
    requires ProperLines([first, rest, more])
    ensures var written := first + rest + [NL] + more + [NL];
            Run(TailState(0, []), [Notification(Change, Some(first)), Notification(Change, Some(written))]).log
              == [first, rest, more]
  {
    var written := first + rest + [NL] + more + [NL];
    var delta := rest + [NL] + more + [NL];
    var three := [first, rest, more];
    assert three[0] == first && three[1] == rest && three[2] == more;
    assert ProperLines([first]) && ProperLines([rest, more]);
    assert first[0..] == first;
    assert written[|first|..] == delta;
    assert first == Join([first]);
    SplitJoin([first]);
    KeepNonBlankKeepsProperLines([first]);
    JoinThree(rest, more, []);
    assert delta == Join([rest, more, []]);
    SplitJoin([rest, more, []]);
    KeepsTwoLines(rest, more);
    var n1, n2 := Notification(Change, Some(first)), Notification(Change, Some(written));
    var s0 := TailState(0, []);
    assert first != [] by { assert three[0] == first; }
    assert ReadBy(s0, n1) == first;
    var s1 := Handle(s0, n1);
    assert s1 == TailState(|first|, [first]);
    assert ReadBy(s1, n2) == delta;
    var s2 := Handle(s1, n2);
    assert s2.log == [first] + [rest, more];
    assert [n1, n2][1..] == [n2];
    assert Run(s0, [n1, n2]) == Run(s1, [n2]) == Run(s2, []);
  }
}
