/**
 * `getLastLines(filePath, count)`: the backfill a newly connected client
 * receives, the last `count` non-blank lines of the watched file. A file
 * under the size limit is read whole; a larger one is read backwards in
 * fixed-size chunks. The limit (1 MiB) and the chunk size (64 KiB) are
 * parameters so that both paths can be reasoned about on short files.
 */
module Backfill {
  import opened Text
  import opened Files

  const SmallFileLimit: nat := 1024 * 1024
  const ChunkBytes: nat := 64 * 1024
  const DefaultCount: int := 10

  /** The small-file path: `content.split('\n').slice(-count).filter(line => line.trim())`. */
  function WholeFileLines(content: string, count: int): seq<string> {
    KeepNonBlank(SliceLast(Split(content), count))
  }

  /**
   * What the backward loop holds in `lines` when it stops, once it has
   * reached cursor `position` holding `lines`: each round moves the cursor
   * back by at most one chunk and puts every piece of that chunk except the
   * first in front of `lines`.
   */
  function ChunkScan(file: string, chunkSize: nat, count: int, position: nat, lines: seq<string>): seq<string>
    requires chunkSize >= 1 && position <= |file|
    decreases position
  {
    if |lines| < count && position > 0 then
      var readSize := Min(chunkSize, position);
      var start := position - readSize;
      ChunkScan(file, chunkSize, count, start, Split(file[start..position])[1..] + lines)
    else lines
  }

  /** The large-file path: the loop from the end of the file, then `lines.slice(-count).filter(...)`. */
  function ChunkedLines(file: string, chunkSize: nat, count: int): seq<string>
    requires chunkSize >= 1
  {
    KeepNonBlank(SliceLast(ChunkScan(file, chunkSize, count, |file|, []), count))
  }

  /** `getLastLines`: nothing for a file that cannot be read or is empty, otherwise one of the two paths by size. */
  function LastLines(file: Snapshot, count: int, limit: nat, chunkSize: nat): seq<string>
    requires chunkSize >= 1
  {
    match file
    case None => []
    case Some(content) =>
      if |content| == 0 then []
      else if |content| < limit then WholeFileLines(content, count)
      else ChunkedLines(content, chunkSize, count)
  }

  /**
   * The backward loop over a buffer of `chunkSize` bytes. The cursor starts
   * at the end of the file, each round reads the `readSize` bytes just
   * before it (at least one, never more than the cursor), and the loop ends
   * once `count` pieces are gathered or the start of the file is reached.
   */
  method ChunkedLastLines(file: string, count: int, chunkSize: nat) returns (r: seq<string>)
    requires chunkSize >= 1
    ensures r == ChunkedLines(file, chunkSize, count)
  {
    var buffer := new char[chunkSize];
    var lines: seq<string> := [];
    var position: nat := |file|;
    while |lines| < count && position > 0
      invariant position <= |file|
      invariant ChunkScan(file, chunkSize, count, position, lines) == ChunkScan(file, chunkSize, count, |file|, [])
      decreases position
    {
      var readSize := Min(buffer.Length, position);
      assert 1 <= readSize <= position;
      position := position - readSize;
      ReadSync(file, buffer, readSize, position);
      var chunk := buffer[..readSize];
      assert chunk == file[position..position + readSize];
      var newLines := Split(chunk);
      lines := newLines[1..] + lines;
    }
    r := KeepNonBlank(SliceLast(lines, count));
  }

  /** `getLastLines(filePath, count)` with the size limit and the buffer size as parameters. */
  method GetLastLines(file: Snapshot, count: int, limit: nat, chunkSize: nat) returns (r: seq<string>)
    requires chunkSize >= 1
    ensures r == LastLines(file, count, limit, chunkSize)
  {
    match file
    case None =>
      r := [];
    case Some(content) =>
      if |content| == 0 {
        r := [];
      } else if |content| < limit {
        r := WholeFileLines(content, count);
      } else {
        r := ChunkedLastLines(content, count, chunkSize);
      }
  }

  lemma {:induction false} ChunkScanNoNL(file: string, chunkSize: nat, count: int, position: nat, lines: seq<string>)
    requires chunkSize >= 1 && position <= |file| && NoNL(lines)
    ensures NoNL(ChunkScan(file, chunkSize, count, position, lines))
    decreases position
  {
    if |lines| < count && position > 0 {
      var start := position - Min(chunkSize, position);
      var pieces := Split(file[start..position]);
      SplitNoNL(file[start..position]);
      assert NoNL(pieces[1..] + lines) by {
        forall i | 0 <= i < |pieces[1..] + lines| ensures NL !in (pieces[1..] + lines)[i] {
          if i < |pieces| - 1 { assert (pieces[1..] + lines)[i] == pieces[i + 1]; }
          else { assert (pieces[1..] + lines)[i] == lines[i - |pieces| + 1]; }
        }
      }
      ChunkScanNoNL(file, chunkSize, count, start, pieces[1..] + lines);
    }
  }

  /**
   * What every backfill looks like: empty when the file cannot be read or
   * is empty; otherwise at most `count` entries (for a positive `count`),
   * each non-blank after trimming and free of line feeds.
   */
  lemma {:induction false} LastLinesShape(file: Snapshot, count: int, limit: nat, chunkSize: nat)
    requires chunkSize >= 1
    ensures var r := LastLines(file, count, limit, chunkSize);
            && (file == None || file == Some([]) ==> r == [])
            && (count > 0 ==> |r| <= count)
            && (forall i :: 0 <= i < |r| ==> NonBlank(r[i]) && NL !in r[i])
            && (file.Some? ==> Embeds(r, Split(file.value)))
  {
    if file.Some? && |file.value| > 0 {
      var content := file.value;
      if |content| < limit {
        EmbedsRefl(Split(content));
        SplitNoNL(content);
        SliceFilterEmbeds(Split(content), Split(content), count);
        KeepNonBlankKeeps(SliceLast(Split(content), count));
      } else {
        ChunkScanNoNL(content, chunkSize, count, |content|, []);
        var scanned := ChunkScan(content, chunkSize, count, |content|, []);
        ChunkScanEmbeds(content, chunkSize, count, |content|, []);
        EmbedsWiden(scanned, [Split(content)[0]], Split(content)[1..]);
        assert [Split(content)[0]] + Split(content)[1..] == Split(content);
        SliceFilterEmbeds(scanned, Split(content), count);
        KeepNonBlankKeeps(SliceLast(scanned, count));
      }
    }
  }

  /** The backfill's last two steps, `slice(-count)` then the filter, keep an embedding. */
  lemma {:induction false} SliceFilterEmbeds(xs: seq<string>, ys: seq<string>, count: int)
    requires Embeds(xs, ys)
    ensures Embeds(KeepNonBlank(SliceLast(xs, count)), ys)
  {
    var kept := SliceLast(xs, count);
    EmbedsSuffix(xs, ys, |xs| - |kept|);
    EmbedsKeepNonBlank(kept, ys);
  }

  /**
   * The lines the backward loop gathers are, in file order, prefixes of
   * distinct lines of the file after its first: once they embed in the
   * pieces after the cursor, the finished scan embeds in the whole file's.
   */
  lemma {:induction false} ChunkScanEmbeds(file: string, chunkSize: nat, count: int, position: nat, lines: seq<string>)
    requires chunkSize >= 1 && position <= |file|
    requires Embeds(lines, Split(file[position..])[1..])
    ensures Embeds(ChunkScan(file, chunkSize, count, position, lines), Split(file)[1..])
    decreases position
  {
    if |lines| < count && position > 0 {
      var start := position - Min(chunkSize, position);
      var p, q := Split(file[start..position]), Split(file[position..]);
      assert file[start..] == file[start..position] + file[position..];
      SplitConcat(file[start..position], file[position..]);
      ChunkPiecesEmbed(p, q, lines);
      ChunkScanEmbeds(file, chunkSize, count, start, p[1..] + lines);
    } else {
      CursorTailEmbeds(file, position, lines);
    }
  }

  /**
   * One round: the chunk's pieces after its first, put in front of the
   * lines gathered so far, embed in the pieces of chunk and rest together;
   * the chunk's last piece is a prefix of the line it starts.
   */
  lemma {:induction false} ChunkPiecesEmbed(p: seq<string>, q: seq<string>, lines: seq<string>)
    requires |p| >= 1 && |q| >= 1 && Embeds(lines, q[1..])
    ensures Embeds(p[1..] + lines, Fuse(p, q)[1..])
  {
    if |p| == 1 {
      assert p[1..] + lines == lines;
      assert Fuse(p, q)[1..] == q[1..];
    } else {
      var last := p[|p| - 1];
      var mid := p[1..|p| - 1];
      var tail := [last + q[0]] + q[1..];
      assert ([last] + lines)[1..] == lines && tail[1..] == q[1..];
      assert ([last] + lines)[0] <= tail[0];
      assert Embeds([last] + lines, tail);
      EmbedsPrepend(mid, [last] + lines, tail);
      assert p[1..] == mid + [last];
      assert p[1..] + lines == mid + ([last] + lines);
      var f := Fuse(p, q);
      assert f == p[..|p| - 1] + tail;
      assert p[..|p| - 1][1..] == mid;
      assert f[1..] == mid + tail;
    }
  }

  /** The pieces after the cursor's first are the last pieces of the whole file. */
  lemma {:induction false} CursorTailEmbeds(file: string, position: nat, lines: seq<string>)
    requires position <= |file| && Embeds(lines, Split(file[position..])[1..])
    ensures Embeds(lines, Split(file)[1..])
  {
    var p, q := Split(file[..position]), Split(file[position..]);
    assert file == file[..position] + file[position..];
    SplitConcat(file[..position], file[position..]);
    var front := p[..|p| - 1] + [p[|p| - 1] + q[0]];
    assert Split(file) == front + q[1..];
    assert Split(file)[1..] == front[1..] + q[1..];
    EmbedsWiden(lines, front[1..], q[1..]);
  }

  /**
   * When the last chunk alone holds at least `count` line feeds, the loop
   * stops after one round and both paths return the same backfill.
   */
  lemma {:induction false} ChunkedAgreesWhenLastChunkSuffices(file: string, chunkSize: nat, count: int)
    requires chunkSize >= 1 && count >= 1
    requires CountNL(file[|file| - Min(chunkSize, |file|)..]) >= count
    ensures ChunkedLines(file, chunkSize, count) == WholeFileLines(file, count)
  {
    var start := |file| - Min(chunkSize, |file|);
    var chunk := file[start..];
    var p, q := Split(file[..start]), Split(chunk);
    assert file[start..|file|] == chunk;
    assert ChunkScan(file, chunkSize, count, |file|, []) == q[1..] + [] == q[1..];
    assert file == file[..start] + chunk;
    SplitConcat(file[..start], chunk);
    assert Split(file) == (p[..|p| - 1] + [p[|p| - 1] + q[0]]) + q[1..];
    SliceLastOfSuffix(p[..|p| - 1] + [p[|p| - 1] + q[0]], q[1..], count);
  }

  lemma {:induction false} ChunkScanOfUnterminated(file: string, chunkSize: nat, count: int, position: nat)
    requires chunkSize >= 1 && position <= |file| && NL !in file
    ensures ChunkScan(file, chunkSize, count, position, []) == []
    decreases position
  {
    if 0 < count && position > 0 {
      var start := position - Min(chunkSize, position);
      assert NL !in file[start..position];
      CountNLZero(file[start..position]);
      assert Split(file[start..position])[1..] + [] == [];
      ChunkScanOfUnterminated(file, chunkSize, count, start);
    }
  }

  /**
   * As written, the chunked path drops the first piece of every chunk, so
   * a file without any line feed yields no backfill at all, where the
   * small-file path returns its one line.
   */
  lemma {:induction false} ChunkedDropsUnterminatedLine(file: string, chunkSize: nat, count: int)
    requires chunkSize >= 1 && NL !in file
    ensures ChunkedLines(file, chunkSize, count) == []
    ensures count >= 0 && NonBlank(file) ==> WholeFileLines(file, count) == [file]
  {
    ChunkScanOfUnterminated(file, chunkSize, count, |file|);
    var scanned := ChunkScan(file, chunkSize, count, |file|, []);
    assert |SliceLast(scanned, count)| == 0;
    if count >= 0 && NonBlank(file) {
      OneLineWholeFile(file, count);
    }
  }

  lemma {:induction false} OneLineWholeFile(file: string, count: int)
    requires NL !in file && count >= 0 && NonBlank(file)
    ensures WholeFileLines(file, count) == [file]
  {
    var one := [file];
    assert Join(one) == file;
    SplitJoin(one);
    assert Split(file) == one;
    assert SliceLast(one, count) == one;
    assert one[1..] == [];
    assert KeepNonBlank(one) == [file] + KeepNonBlank(one[1..]) == one;
  }

  /** The same with the real limits: a file of 1 MiB or more that is one long line gets an empty backfill. */
  lemma {:induction false} LongSingleLineFileGetsNoBackfill(file: string)
    requires |file| >= SmallFileLimit && NL !in file && NonBlank(file)
    ensures LastLines(Some(file), DefaultCount, SmallFileLimit, ChunkBytes) == []
    ensures WholeFileLines(file, DefaultCount) == [file]
  {
    ChunkedDropsUnterminatedLine(file, ChunkBytes, DefaultCount);
  }

  /** The backfill as evidently intended: the last `count` non-blank lines of the content, oldest first. */
  function LastNonBlankLines(content: string, count: int): seq<string> {
    SliceLast(LinesOf(content), count)
  }

  /**
   * The chunked path as evidently intended. The first piece of each chunk
   * is carried over and joined to the last piece of the chunk read next
   * (the one before it in the file); the file's first piece is kept once
   * the cursor reaches the start; and only non-blank lines are gathered
   * towards `count`. It returns what the whole-file path returns.
   */
  method ChunkedLastNonBlankLines(file: string, count: int, chunkSize: nat) returns (r: seq<string>)
    requires chunkSize >= 1
    ensures count >= 1 ==> r == LastNonBlankLines(file, count)
  {
    var buffer := new char[chunkSize];
    var lines: seq<string> := [];
    var carry: string := [];
    var position: nat := |file|;
    assert file[position..] == [];
    while |lines| < count && position > 0
      invariant position <= |file|
      invariant Split(file[position..])[0] == carry
      invariant lines == KeepNonBlank(Split(file[position..])[1..])
      decreases position
    {
      var readSize := Min(buffer.Length, position);
      var previous := position;
      position := position - readSize;
      ReadSync(file, buffer, readSize, position);
      var chunk := buffer[..readSize];
      assert file[position..] == chunk + file[previous..];
      CarryRound(chunk, file[previous..], carry);
      var pieces := Split(chunk);
      var last := |pieces| - 1;
      pieces := pieces[..last] + [pieces[last] + carry];
      carry := pieces[0];
      lines := KeepNonBlank(pieces[1..]) + lines;
    }
    var candidates := if position == 0 && NonBlank(carry) then [carry] + lines else lines;
    r := SliceLast(candidates, count);
    if count >= 1 {
      CarryFinish(file, position, carry, lines, count);
    }
  }

  /** One round of the carrying loop: the chunk's pieces, its last joined to the carry, followed by the lines after the carry, are the pieces of everything read so far. */
  lemma {:induction false} CarryStep(chunk: string, rest: string, carry: string, lines: seq<string>)
    requires Split(rest) == [carry] + lines
    ensures var pieces := Split(chunk);
            var joined := pieces[..|pieces| - 1] + [pieces[|pieces| - 1] + carry];
            Split(chunk + rest) == joined + lines
  {
    var q := Split(rest);
    SplitConcat(chunk, rest);
    assert q[0] == carry && q[1..] == lines;
  }

  /** One round of the carrying loop, as the loop's invariant sees it: the new carry and the non-blank lines gathered. */
  lemma {:induction false} CarryRound(chunk: string, rest: string, carry: string)
    requires Split(rest)[0] == carry
    ensures var pieces := Split(chunk);
            var joined := pieces[..|pieces| - 1] + [pieces[|pieces| - 1] + carry];
            var all := Split(chunk + rest);
            all[0] == joined[0] && KeepNonBlank(all[1..]) == KeepNonBlank(joined[1..]) + KeepNonBlank(Split(rest)[1..])
  {
    var read := Split(rest);
    var pieces := Split(chunk);
    var joined := pieces[..|pieces| - 1] + [pieces[|pieces| - 1] + carry];
    assert read == [carry] + read[1..];
    CarryStep(chunk, rest, carry, read[1..]);
    assert (joined + read[1..])[1..] == joined[1..] + read[1..];
    KeepNonBlankConcat(joined[1..], read[1..]);
  }

  /** When the carrying loop stops, its candidates end with the last `count` non-blank lines of the file. */
  lemma {:induction false} CarryFinish(file: string, position: nat, carry: string, lines: seq<string>, count: int)
    requires position <= |file| && Split(file[position..])[0] == carry
    requires lines == KeepNonBlank(Split(file[position..])[1..])
    requires count >= 1 && (position == 0 || count <= |lines|)
    ensures SliceLast(if position == 0 && NonBlank(carry) then [carry] + lines else lines, count)
              == LastNonBlankLines(file, count)
  {
    var read := Split(file[position..]);
    assert read == [carry] + read[1..];
    if position == 0 {
      assert file[0..] == file;
      assert KeepNonBlank(Split(file)) == if NonBlank(carry) then [carry] + lines else lines;
    } else {
      var head := Split(file[..position]);
      var front := head[..|head| - 1] + [head[|head| - 1] + carry];
      assert file == file[..position] + file[position..];
      SplitConcat(file[..position], file[position..]);
      assert Split(file) == front + read[1..];
      KeepNonBlankConcat(front, read[1..]);
      SliceLastOfSuffix(KeepNonBlank(front), lines, count);
    }
  }

  /**
   * `getLastLines` as evidently intended: the same outcome whichever path
   * the size selects, whatever the limit and the chunk size.
   */
  method GetLastNonBlankLines(file: Snapshot, count: int, limit: nat, chunkSize: nat) returns (r: seq<string>)
    requires chunkSize >= 1
    ensures count >= 1 ==> r == (if file.None? then [] else LastNonBlankLines(file.value, count))
  {
    match file
    case None =>
      r := [];
    case Some(content) =>
      if |content| == 0 {
        r := [];
        DropsEmptyPiece();
      } else if |content| < limit {
        r := LastNonBlankLines(content, count);
      } else {
        r := ChunkedLastNonBlankLines(content, count, chunkSize);
      }
  }

  /**
   * As written, a file whose lines all end with a line feed yields one
   * line fewer than `count`: the empty piece after the final line feed
   * takes a slot before the blank filter removes it. Without the final
   * line feed the backfill is the last `count` lines.
   */
  lemma {:induction false} TrailingNewlineTakesASlot(lines: seq<string>, count: int)
    requires |lines| >= 1 && ProperLines(lines) && count >= 1
    ensures WholeFileLines(Join(lines) + [NL], count) == lines[|lines| - Min(count - 1, |lines|)..]
    ensures WholeFileLines(Join(lines), count) == SliceLast(lines, count)
  {
    assert NoNL(lines);
    SplitJoin(lines);
    SplitTrailingNL(Join(lines));
    var kept := lines[|lines| - Min(count - 1, |lines|)..];
    assert SliceLast(lines + [[]], count) == kept + [[]];
    ProperSuffix(lines, |lines| - |kept|);
    KeepNonBlankConcat(kept, [[]]);
    KeepNonBlankKeepsProperLines(kept);
    assert !NonBlank([]);
    ProperSuffix(lines, |lines| - |SliceLast(lines, count)|);
    KeepNonBlankKeepsProperLines(SliceLast(lines, count));
  }

  lemma {:induction false} ProperSuffix(lines: seq<string>, from: nat)
    requires ProperLines(lines) && from <= |lines|
    ensures ProperLines(lines[from..])
  {
    forall i | 0 <= i < |lines| - from ensures NonBlank(lines[from..][i]) && NL !in lines[from..][i] {
      assert lines[from..][i] == lines[from + i];
    }
  }

  /** One more final line feed never changes the corrected backfill: the empty piece after it is filtered out. */
  lemma {:induction false} FinalNewlineIsIgnored(content: string, count: int)
    ensures LinesOf(content + [NL]) == LinesOf(content)
    ensures LastNonBlankLines(content + [NL], count) == LastNonBlankLines(content, count)
  {
    SplitTrailingNL(content);
    KeepNonBlankConcat(Split(content), [[]]);
    DropsEmptyPiece();
  }

  /** With the filter first, a final line feed no longer costs a line: a file of complete lines gives its last `count` lines either way. */
  lemma {:induction false} LastNonBlankLinesIgnoresFinalNewline(lines: seq<string>, count: int)
    requires |lines| >= 1 && ProperLines(lines)
    ensures LastNonBlankLines(Join(lines) + [NL], count) == SliceLast(lines, count)
    ensures LastNonBlankLines(Join(lines), count) == SliceLast(lines, count)
  {
    assert NoNL(lines);
    SplitJoin(lines);
    KeepNonBlankKeepsProperLines(lines);
    FinalNewlineIsIgnored(Join(lines), count);
  }
}
