/**
 * The string and array operations the tailer is built from, with
 * JavaScript's semantics: `s.split('\n')`, `line.trim()` used as a truth
 * value, `a.filter(...)` with that test, and `a.slice(-count)`.
 */
module Text {

  const NL: char := '\n'

  function Min(a: int, b: int): int { if a <= b then a else b }

  function Max(a: int, b: int): int { if a <= b then b else a }

  /** Number of line feeds in `s`. */
  function CountNL(s: string): nat {
    if s == [] then 0 else (if s[0] == NL then 1 else 0) + CountNL(s[1..])
  }

  /**
   * `s.split('\n')`: the pieces between line feeds, in order. The empty
   * string gives one empty piece, and a trailing line feed gives a final
   * empty piece.
   */
  function Split(s: string): (pieces: seq<string>)
    ensures |pieces| == CountNL(s) + 1
    decreases |s|
  {
    if s == [] then [[]]
    else
      var rest := Split(s[1..]);
      if s[0] == NL then [[]] + rest
      else [[s[0]] + rest[0]] + rest[1..]
  }

  /** No piece of a split holds a line feed. */
  lemma {:induction false} SplitNoNL(s: string)
    ensures NoNL(Split(s))
    decreases |s|
  {
    if s != [] {
      SplitNoNL(s[1..]);
    }
  }

  /** `pieces.join('\n')`, the inverse of `Split`. */
  function Join(pieces: seq<string>): string
    requires |pieces| >= 1
  {
    if |pieces| == 1 then pieces[0] else pieces[0] + [NL] + Join(pieces[1..])
  }

  predicate NoNL(pieces: seq<string>) {
    forall i :: 0 <= i < |pieces| ==> NL !in pieces[i]
  }

  lemma {:induction false} JoinSplit(s: string)
    ensures Join(Split(s)) == s
    decreases |s|
  {
    if s != [] {
      var rest := Split(s[1..]);
      JoinSplit(s[1..]);
      if s[0] == NL {
        assert Split(s) == [[]] + rest;
        assert s == [NL] + s[1..];
      } else if |rest| == 1 {
        assert s == [s[0]] + s[1..];
      } else {
        assert Split(s)[1..] == rest[1..];
        assert s == [s[0]] + s[1..];
      }
    }
  }

  /** Prepending a fragment without line feed extends the first piece. */
  lemma {:induction false} SplitPrefix(p: string, t: string)
    requires NL !in p
    ensures Split(p + t) == [p + Split(t)[0]] + Split(t)[1..]
    decreases |p|
  {
    if p == [] {
      assert p + t == t;
      assert p + Split(t)[0] == Split(t)[0];
      assert Split(t) == [Split(t)[0]] + Split(t)[1..];
    } else {
      var q := Split(t);
      assert (p + t)[0] == p[0] != NL;
      assert (p + t)[1..] == p[1..] + t;
      assert NL !in p[1..];
      SplitPrefix(p[1..], t);
      var r := Split(p[1..] + t);
      assert r == [p[1..] + q[0]] + q[1..];
      assert r[0] == p[1..] + q[0] && r[1..] == q[1..];
      assert [p[0]] + (p[1..] + q[0]) == p + q[0];
      calc {
        Split(p + t);
        [[p[0]] + r[0]] + r[1..];
        [p + q[0]] + q[1..];
      }
    }
  }

  lemma {:induction false} SplitJoin(pieces: seq<string>)
    requires |pieces| >= 1 && NoNL(pieces)
    ensures Split(Join(pieces)) == pieces
    decreases |pieces|
  {
    if |pieces| == 1 {
      SplitPrefix(pieces[0], []);
      assert pieces[0] + [] == pieces[0];
    } else {
      var rest := Join(pieces[1..]);
      SplitJoin(pieces[1..]);
      SplitPrefix(pieces[0], [NL] + rest);
      assert ([NL] + rest)[1..] == rest;
      assert Split([NL] + rest) == [[]] + Split(rest);
      assert pieces[0] + [NL] + rest == pieces[0] + ([NL] + rest);
      assert Split([NL] + rest)[0] == [] && Split([NL] + rest)[1..] == pieces[1..];
      assert pieces[0] + [] == pieces[0];
      assert pieces == [pieces[0]] + pieces[1..];
    }
  }

  /**
   * Splitting a concatenation: the last piece of `a` and the first piece of
   * `b` fuse into one, every other piece is kept.
   */
  lemma {:induction false} SplitConcat(a: string, b: string)
    ensures Split(a + b) == Fuse(Split(a), Split(b))
    decreases |a|
  {
    if a == [] {
      var q := Split(b);
      assert a + b == b;
      assert Split(a) == [[]] && [] + q[0] == q[0];
      assert Fuse([[]], q) == [q[0]] + q[1..] == q;
    } else {
      assert (a + b)[0] == a[0];
      assert (a + b)[1..] == a[1..] + b;
      SplitConcat(a[1..], b);
      if a[0] == NL {
        FuseCons([], Split(a[1..]), Split(b));
      } else {
        FuseExtendFirst(a[0], Split(a[1..]), Split(b));
      }
    }
  }

  /** The pieces of `p` then those of `q`, the last of `p` joined to the first of `q`. */
  function Fuse(p: seq<string>, q: seq<string>): seq<string>
    requires |p| >= 1 && |q| >= 1
  {
    p[..|p| - 1] + [p[|p| - 1] + q[0]] + q[1..]
  }

  lemma {:induction false} FuseCons(x: string, p: seq<string>, q: seq<string>)
    requires |p| >= 1 && |q| >= 1
    ensures Fuse([x] + p, q) == [x] + Fuse(p, q)
  {
    assert ([x] + p)[..|p|] == [x] + p[..|p| - 1];
  }

  lemma {:induction false} FuseExtendFirst(c: char, p: seq<string>, q: seq<string>)
    requires |p| >= 1 && |q| >= 1
    ensures var r := Fuse(p, q);
            Fuse([[c] + p[0]] + p[1..], q) == [[c] + r[0]] + r[1..]
  {
    if |p| > 1 {
      FuseCons(p[0], p[1..], q);
      assert [p[0]] + p[1..] == p;
      FuseCons([c] + p[0], p[1..], q);
    } else {
      assert [c] + (p[0] + q[0]) == [c] + p[0] + q[0];
    }
  }

  /** A trailing line feed adds one empty piece. */
  lemma {:induction false} SplitTrailingNL(a: string)
    ensures Split(a + [NL]) == Split(a) + [[]]
  {
    var p := Split(a);
    SplitConcat(a, [NL]);
    assert Split([NL]) == [[], []];
    assert p[|p| - 1] + [] == p[|p| - 1];
    assert p[..|p| - 1] + [p[|p| - 1]] == p;
  }

  /** Splitting across a line feed: the pieces of both sides, side by side. */
  lemma {:induction false} SplitAroundNL(a: string, b: string)
    ensures Split(a + [NL] + b) == Split(a) + Split(b)
  {
    SplitTrailingNL(a);
    SplitConcat(a + [NL], b);
    FuseAfterEmpty(Split(a), Split(b));
  }

  /** Fusing onto a final empty piece leaves both sides as they are. */
  lemma {:induction false} FuseAfterEmpty(p: seq<string>, q: seq<string>)
    requires |q| >= 1
    ensures Fuse(p + [[]], q) == p + q
  {
    var pn := p + [[]];
    assert pn[..|pn| - 1] == p;
    assert pn[|pn| - 1] + q[0] == q[0];
    assert [q[0]] + q[1..] == q;
    assert p + [q[0]] + q[1..] == p + ([q[0]] + q[1..]);
  }

  /** Whitespace removed by `String.prototype.trim` (a fixed subset). */
  predicate IsSpace(c: char) {
    c == ' ' || c == '\t' || c == '\n' || c == '\r' || c == '\U{000B}' || c == '\U{000C}'
    || c == '\U{00A0}' || c == '\U{2028}' || c == '\U{2029}' || c == '\U{FEFF}'
  }

  predicate AllSpace(s: string) {
    forall i :: 0 <= i < |s| ==> IsSpace(s[i])
  }

  function LeadingSpaces(s: string): (n: nat)
    ensures n <= |s| && AllSpace(s[..n])
    ensures n < |s| ==> !IsSpace(s[n])
    ensures n == |s| <==> AllSpace(s)
  {
    if s == [] || !IsSpace(s[0]) then 0
    else
      var m := LeadingSpaces(s[1..]);
      assert s[..m + 1] == [s[0]] + s[1..][..m];
      assert m + 1 < |s| ==> s[m + 1] == s[1..][m];
      assert AllSpace(s) <==> AllSpace(s[1..]) by {
        assert s == [s[0]] + s[1..];
      }
      m + 1
  }

  function TrailingSpaces(s: string): (n: nat)
    ensures n <= |s| && AllSpace(s[|s| - n..])
    ensures n < |s| ==> !IsSpace(s[|s| - n - 1])
  {
    if s == [] || !IsSpace(s[|s| - 1]) then 0
    else
      var t := s[..|s| - 1];
      var m := TrailingSpaces(t);
      assert s[|s| - (m + 1)..] == t[|t| - m..] + [s[|s| - 1]];
      assert m + 1 < |s| ==> s[|s| - (m + 1) - 1] == t[|t| - m - 1];
      m + 1
  }

  /**
   * `s.trim()`: `s` without its leading and trailing whitespace. It is
   * empty exactly when `s` is all whitespace, and otherwise starts and ends
   * with a character that is not whitespace (`TrimCutsOnlySpace` says
   * where it lies in `s`).
   */
  function Trim(s: string): (r: string)
    ensures r == [] <==> AllSpace(s)
    ensures r != [] ==> !IsSpace(r[0]) && !IsSpace(r[|r| - 1])
  {
    var i := LeadingSpaces(s);
    var t := s[i..];
    TrimmedEnds(s, i, t, TrailingSpaces(t));
    t[..|t| - TrailingSpaces(t)]
  }

  lemma {:induction false} TrimmedEnds(s: string, i: nat, t: string, n: nat)
    requires i == LeadingSpaces(s) && t == s[i..] && n == TrailingSpaces(t)
    ensures var r := t[..|t| - n];
            && (r == [] <==> AllSpace(s))
            && (r != [] ==> !IsSpace(r[0]) && !IsSpace(r[|r| - 1]))
  {
    if i < |s| {
      assert t[0] == s[i];
      assert t[|t| - |t|..] == t;
      assert n < |t|;
    }
  }

  /** The trimmed string is the part of `s` between its leading and its trailing whitespace. */
  lemma {:induction false} TrimmedSpan(s: string, i: nat, t: string, n: nat)
    requires i <= |s| && t == s[i..] && n <= |t|
    requires AllSpace(s[..i]) && AllSpace(t[|t| - n..])
    ensures i + (|t| - n) <= |s|
    ensures t[..|t| - n] == s[i..i + (|t| - n)]
    ensures AllSpace(s[..i]) && AllSpace(s[i + (|t| - n)..])
  {
    assert s[i + (|t| - n)..] == t[|t| - n..];
  }

  /** What `trim` removes on either side is whitespace only; the result is a contiguous part of `s`. */
  lemma {:induction false} TrimCutsOnlySpace(s: string)
    ensures var r := Trim(s);
            exists i :: 0 <= i <= |s| - |r| && r == s[i..i + |r|] && AllSpace(s[..i]) && AllSpace(s[i + |r|..])
  {
    var i := LeadingSpaces(s);
    var t := s[i..];
    var n := TrailingSpaces(t);
    assert AllSpace(s[..i]) && AllSpace(t[|t| - n..]);
    TrimmedSpan(s, i, t, n);
    var r := Trim(s);
    assert r == t[..|t| - n];
  }

  /** The filter's test: the line has a character that is not whitespace. */
  predicate NonBlank(line: string) {
    !AllSpace(line)
  }

  /** The filter's test is exactly `line.trim()` being a non-empty (truthy) string. */
  lemma {:induction false} NonBlankIffTrimmedNonEmpty(line: string)
    ensures NonBlank(line) <==> Trim(line) != []
  {
    var r := Trim(line);
  }

  /** `pieces.filter(line => line.trim())`. */
  function KeepNonBlank(pieces: seq<string>): (r: seq<string>)
    ensures |r| <= |pieces|
  {
    if pieces == [] then []
    else if NonBlank(pieces[0]) then [pieces[0]] + KeepNonBlank(pieces[1..])
    else KeepNonBlank(pieces[1..])
  }

  /** Every kept piece is non-blank, and pieces without line feeds stay without them. */
  lemma {:induction false} KeepNonBlankKeeps(pieces: seq<string>)
    ensures forall i :: 0 <= i < |KeepNonBlank(pieces)| ==> NonBlank(KeepNonBlank(pieces)[i])
    ensures NoNL(pieces) ==> NoNL(KeepNonBlank(pieces))
    decreases |pieces|
  {
    if pieces != [] {
      KeepNonBlankKeeps(pieces[1..]);
    }
  }

  /** `content.split('\n').filter(line => line.trim())`: the non-blank lines of `content`, in order. */
  function LinesOf(content: string): seq<string> {
    KeepNonBlank(Split(content))
  }

  /** The filter keeps exactly the non-blank pieces. */
  lemma {:induction false} KeepNonBlankMembers(pieces: seq<string>)
    ensures forall x :: x in KeepNonBlank(pieces) <==> x in pieces && NonBlank(x)
    decreases |pieces|
  {
    if pieces != [] {
      KeepNonBlankMembers(pieces[1..]);
      assert pieces == [pieces[0]] + pieces[1..];
    }
  }

  lemma {:induction false} KeepNonBlankConcat(a: seq<string>, b: seq<string>)
    ensures KeepNonBlank(a + b) == KeepNonBlank(a) + KeepNonBlank(b)
    decreases |a|
  {
    if a == [] {
      assert a + b == b;
    } else {
      assert (a + b)[0] == a[0];
      assert (a + b)[1..] == a[1..] + b;
      KeepNonBlankConcat(a[1..], b);
    }
  }

  /**
   * `s.slice(-count)`. For a positive `count` the last `count` elements;
   * `slice(-0)` is `slice(0)`, the whole array; a negative `count` skips
   * the first `-count` elements.
   */
  function SliceLast<T>(s: seq<T>, count: int): (r: seq<T>)
    ensures |r| <= |s| && r == s[|s| - |r|..]
    ensures count > 0 ==> |r| == Min(count, |s|)
    ensures count == 0 ==> r == s
    ensures count < 0 ==> |r| == Max(|s| + count, 0)
  {
    var start := -count;
    var from := if start < 0 then Max(|s| + start, 0) else Min(start, |s|);
    s[from..]
  }

  /** The last `count` elements lie inside `b` when `b` has that many. */
  lemma {:induction false} SliceLastOfSuffix<T>(a: seq<T>, b: seq<T>, count: int)
    requires 1 <= count <= |b|
    ensures SliceLast(a + b, count) == SliceLast(b, count)
  {
    assert (a + b)[|a + b| - count..] == b[|b| - count..];
  }

  lemma {:induction false} CountNLZero(s: string)
    requires NL !in s
    ensures CountNL(s) == 0
    decreases |s|
  {
    if s != [] {
      assert NL !in s[1..];
      CountNLZero(s[1..]);
    }
  }

  /** Lines as a log holds them: each non-blank and without a line feed. */
  predicate ProperLines(lines: seq<string>) {
    forall i :: 0 <= i < |lines| ==> NonBlank(lines[i]) && NL !in lines[i]
  }

  lemma {:induction false} KeepNonBlankKeepsProperLines(lines: seq<string>)
    requires ProperLines(lines)
    ensures KeepNonBlank(lines) == lines
    decreases |lines|
  {
    if lines != [] {
      assert ProperLines(lines[1..]) by {
        forall i | 0 <= i < |lines| - 1 ensures NonBlank(lines[1..][i]) && NL !in lines[1..][i] {
          assert lines[1..][i] == lines[i + 1];
        }
      }
      KeepNonBlankKeepsProperLines(lines[1..]);
    }
  }

  /** Splitting then filtering distributes over a concatenation whose left part ends a line. */
  lemma {:induction false} FilteredSplitConcat(a: string, b: string)
    requires a == [] || a[|a| - 1] == NL
    ensures KeepNonBlank(Split(a + b)) == KeepNonBlank(Split(a)) + KeepNonBlank(Split(b))
  {
    DropsEmptyPiece();
    if a == [] {
      assert a + b == b;
      assert Split(a) == [[]];
    } else {
      var a' := a[..|a| - 1];
      assert a == a' + [NL];
      assert a + b == a' + [NL] + b;
      SplitAroundNL(a', b);
      SplitTrailingNL(a');
      KeepNonBlankConcat(Split(a'), Split(b));
      KeepNonBlankConcat(Split(a'), [[]]);
      assert KeepNonBlank(Split(a)) == KeepNonBlank(Split(a')) + [];
    }
  }

  /**
   * `xs` picks distinct entries of `ys`, in the order they appear in `ys`,
   * and keeps a prefix of each (possibly the whole entry).
   */
  predicate Embeds(xs: seq<string>, ys: seq<string>)
    decreases |ys|
  {
    if xs == [] then true
    else if ys == [] then false
    else (xs[0] <= ys[0] && Embeds(xs[1..], ys[1..])) || Embeds(xs, ys[1..])
  }

  lemma {:induction false} EmbedsRefl(ys: seq<string>)
    ensures Embeds(ys, ys)
    decreases |ys|
  {
    if ys != [] {
      EmbedsRefl(ys[1..]);
    }
  }

  /** Skipping entries of `ys` is allowed: an embedding into a tail of `ys` is one into `ys`. */
  lemma {:induction false} EmbedsWiden(xs: seq<string>, front: seq<string>, ys: seq<string>)
    requires Embeds(xs, ys)
    ensures Embeds(xs, front + ys)
    decreases |front|
  {
    if front == [] {
      assert front + ys == ys;
    } else {
      assert (front + ys)[1..] == front[1..] + ys;
      EmbedsWiden(xs, front[1..], ys);
    }
  }

  /** Dropping the first entry of `xs` keeps the embedding. */
  lemma {:induction false} EmbedsTail(xs: seq<string>, ys: seq<string>)
    requires xs != [] && Embeds(xs, ys)
    ensures Embeds(xs[1..], ys)
    decreases |ys|
  {
    if Embeds(xs, ys[1..]) {
      EmbedsTail(xs, ys[1..]);
    }
    EmbedsWiden(xs[1..], [ys[0]], ys[1..]);
    assert [ys[0]] + ys[1..] == ys;
  }

  /** A suffix of `xs` embeds wherever `xs` does. */
  lemma {:induction false} EmbedsSuffix(xs: seq<string>, ys: seq<string>, from: nat)
    requires Embeds(xs, ys) && from <= |xs|
    ensures Embeds(xs[from..], ys)
    decreases from
  {
    if from > 0 {
      EmbedsSuffix(xs, ys, from - 1);
      EmbedsTail(xs[from - 1..], ys);
      assert xs[from - 1..][1..] == xs[from..];
    }
  }

  /** The non-blank entries of `xs` embed wherever `xs` does. */
  lemma {:induction false} EmbedsKeepNonBlank(xs: seq<string>, ys: seq<string>)
    requires Embeds(xs, ys)
    ensures Embeds(KeepNonBlank(xs), ys)
    decreases |ys|
  {
    if xs != [] {
      if xs[0] <= ys[0] && Embeds(xs[1..], ys[1..]) {
        EmbedsKeepNonBlank(xs[1..], ys[1..]);
        if !NonBlank(xs[0]) {
          EmbedsWiden(KeepNonBlank(xs), [ys[0]], ys[1..]);
          assert [ys[0]] + ys[1..] == ys;
        }
      } else {
        EmbedsKeepNonBlank(xs, ys[1..]);
        EmbedsWiden(KeepNonBlank(xs), [ys[0]], ys[1..]);
        assert [ys[0]] + ys[1..] == ys;
      }
    }
  }

  /** Embeddings side by side: a common front followed by embedded rests. */
  lemma {:induction false} EmbedsPrepend(front: seq<string>, xs: seq<string>, ys: seq<string>)
    requires Embeds(xs, ys)
    ensures Embeds(front + xs, front + ys)
    decreases |front|
  {
    if front == [] {
      assert front + xs == xs && front + ys == ys;
    } else {
      EmbedsPrepend(front[1..], xs, ys);
      assert (front + xs)[0] == front[0] == (front + ys)[0];
      assert (front + xs)[1..] == front[1..] + xs;
      assert (front + ys)[1..] == front[1..] + ys;
    }
  }

  /** The empty piece is dropped by the filter. */
  lemma {:induction false} DropsEmptyPiece()
    ensures !NonBlank([]) && KeepNonBlank([[]]) == []
  {
    var empty: seq<string> := [[]];
    assert empty[1..] == [];
  }

  lemma {:induction false} JoinThree(a: string, b: string, c: string)
    ensures Join([a, b, c]) == a + [NL] + b + [NL] + c
  {
    assert [a, b, c][1..] == [b, c];
    assert [b, c][1..] == [c];
    assert Join([b, c]) == b + [NL] + c;
    assert a + [NL] + (b + [NL] + c) == a + [NL] + b + [NL] + c;
  }
}
