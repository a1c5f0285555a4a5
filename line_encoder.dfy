/**
 * `EncodeLine`: one forward pass over a row of packed pixels that splits it
 * into literal and repeat runs of at most 128 pixels each.
 *
 * `Step` is one iteration of the loop (its variables `count`, `repeat`, `run`
 * and `lst` form an `EncState`), `Run` the state after the first `i`
 * iterations, and `LineEntries` the list the loop returns. The method
 * `EncodeLine` is the loop itself, proved to return `LineEntries`; what the
 * list is made of (pixel conservation, run bounds) is proved about
 * `LineEntries`.
 */
module LineEncoder {
  import opened Common
  import opened RleFormat

  /** The loop variables: `repeat` is -1 (no run open), 0 (literal run open) or 1 (repeat run open). */
  datatype EncState = EncState(count: int, repeat: int, run: seq<Pixel>, lst: seq<Entry>)

  const Start := EncState(0, -1, [], [])

  /**
   * The loop body when `current` differs from its successor `next`; `last`
   * says whether this is the final iteration (`index == total-1`).
   */
  function Differs(s: EncState, current: Pixel, next: Pixel, last: bool): EncState {
    var run, count := s.run + [current], s.count + 1;
    if s.repeat == 1 then
      // a repeat run ends with `current`
      var lst := s.lst + [Entry(count + 128, run)];
      if last then EncState(0, -1, [next], lst + [Entry(1, [next])])
      else EncState(0, -1, [], lst)
    else if count == 128 then
      // a literal run reaches the cap
      var lst := s.lst + [Entry(128, run)];
      if last then EncState(0, -1, [next], lst + [Entry(1, [next])])
      else EncState(0, -1, [], lst)
    else if last then EncState(count, 0, run + [next], s.lst + [Entry(count + 1, run + [next])])
    else EncState(count, 0, run, s.lst)
  }

  /** The loop body when `current` equals its successor. */
  function Equals(s: EncState, current: Pixel, last: bool): EncState {
    if s.repeat == 0 && last then
      // the literal run ends and the last two pixels form a repeat run (the `break`)
      EncState(0, -1, [current, current], s.lst + [Entry(s.count, s.run)] + [Entry(2 + 128, [current, current])])
    else
      var lst0 := if s.repeat == 0 then s.lst + [Entry(s.count, s.run)] else s.lst;
      var run0 := if s.repeat == 0 then [] else s.run;
      var count0 := if s.repeat == 0 then 0 else s.count;
      var run1, count1 := run0 + [current], count0 + 1;
      if count1 == 128 then
        // a repeat run reaches the cap
        var lst1 := lst0 + [Entry(256, run1)];
        if last then EncState(0, -1, [current], lst1 + [Entry(1, [current])])
        else EncState(0, -1, [], lst1)
      else if last then EncState(count1, 1, run1 + [current], lst0 + [Entry(count1 + 1 + 128, run1 + [current])])
      else EncState(count1, 1, run1, lst0)
  }

  /**
   * A differing pair only appends entries, at most two, and leaves no repeat
   * run open.
   */
  lemma DiffersAppends(s: EncState, current: Pixel, next: Pixel, last: bool)
    ensures var r := Differs(s, current, next, last);
      s.lst <= r.lst && |r.lst| <= |s.lst| + 2 && (r.repeat == -1 || r.repeat == 0)
  {
  }

  /**
   * An equal pair only appends entries, at most two, and leaves no literal
   * run open.
   */
  lemma EqualsAppends(s: EncState, current: Pixel, last: bool)
    ensures var r := Equals(s, current, last);
      s.lst <= r.lst && |r.lst| <= |s.lst| + 2 && (r.repeat == -1 || r.repeat == 1)
  {
  }

  /** The loop body for `index`: `current` = line[index] compared with line[index+1]. */
  function Step(line: seq<Pixel>, index: nat, s: EncState): EncState
    requires index + 1 < |line|
  {
    var last := index == |line| - 2;
    if line[index] != line[index + 1] then Differs(s, line[index], line[index + 1], last)
    else Equals(s, line[index], last)
  }

  /** The loop state after the iterations for indices 0..i-1. */
  function Run(line: seq<Pixel>, i: nat): EncState
    requires i < |line|
  {
    if i == 0 then Start else Step(line, i - 1, Run(line, i - 1))
  }

  /**
   * What holds between iterations, once the pixels `done` have been passed
   * and `current` is the next one: the entries so far followed by the open
   * run are exactly `done`, every entry is well formed, and an open repeat
   * run holds copies of `current`.
   */
  ghost predicate Open(done: seq<Pixel>, current: Pixel, s: EncState) {
    s.count == |s.run| &&
    Flatten(s.lst) + s.run == done &&
    AllWellFormed(s.lst) &&
    ((s.repeat == -1 && s.run == []) ||
     (s.repeat == 0 && 1 <= s.count <= 127) ||
     (s.repeat == 1 && 1 <= s.count <= 127 && forall k | 0 <= k < |s.run| :: s.run[k] == current))
  }

  /** `Open` before the iteration for `index` i. */
  ghost predicate Pending(line: seq<Pixel>, i: nat, s: EncState)
    requires i < |line|
  {
    Open(line[..i], line[i], s)
  }

  /** Appending a well-formed entry extends the flattened pixels by its pixels. */
  lemma Flush(lst: seq<Entry>, e: Entry)
    requires AllWellFormed(lst) && WellFormed(e)
    ensures AllWellFormed(lst + [e]) && Flatten(lst + [e]) == Flatten(lst) + e.pix
  {
    FlattenAppend(lst, e);
  }

  /** A non-final iteration on two different pixels keeps `Open`. */
  lemma DiffersKeepsOpen(done: seq<Pixel>, current: Pixel, next: Pixel, s: EncState)
    requires Open(done, current, s) && current != next
    ensures Open(done + [current], next, Differs(s, current, next, false))
  {
    var run := s.run + [current];
    if s.repeat == 1 {
      var e := Entry(s.count + 1 + 128, run);
      assert IsRepeat(e);
      Flush(s.lst, e);
    } else if s.count + 1 == 128 {
      var e := Entry(128, run);
      assert IsLiteral(e);
      Flush(s.lst, e);
    }
  }

  /** A literal run open before an equal pair is flushed first. */
  lemma FlushLiteral(done: seq<Pixel>, current: Pixel, s: EncState)
    requires Open(done, current, s) && s.repeat == 0
    ensures AllWellFormed(s.lst + [Entry(s.count, s.run)])
    ensures Flatten(s.lst + [Entry(s.count, s.run)]) == done
  {
    assert IsLiteral(Entry(s.count, s.run));
    Flush(s.lst, Entry(s.count, s.run));
  }

  /** A non-final iteration on two equal pixels keeps `Open`. */
  lemma EqualsKeepsOpen(done: seq<Pixel>, current: Pixel, s: EncState)
    requires Open(done, current, s)
    ensures Open(done + [current], current, Equals(s, current, false))
  {
    var lst0 := if s.repeat == 0 then s.lst + [Entry(s.count, s.run)] else s.lst;
    var run0 := if s.repeat == 0 then [] else s.run;
    if s.repeat == 0 {
      FlushLiteral(done, current, s);
    }
    assert Flatten(lst0) + run0 == done && AllWellFormed(lst0);
    var run1 := run0 + [current];
    if |run1| == 128 {
      var e := Entry(256, run1);
      assert IsRepeat(e);
      Flush(lst0, e);
    }
  }

  /** Closing the open run with `e`, then the last pixel as a one-pixel literal run. */
  lemma FlushTwo(done: seq<Pixel>, lst: seq<Entry>, e: Entry, next: Pixel)
    requires AllWellFormed(lst) && WellFormed(e) && Flatten(lst) + e.pix == done
    ensures AllWellFormed(lst + [e] + [Entry(1, [next])])
    ensures Flatten(lst + [e] + [Entry(1, [next])]) == done + [next]
  {
    assert IsLiteral(Entry(1, [next]));
    Flush(lst, e);
    Flush(lst + [e], Entry(1, [next]));
  }

  /** The final iteration on two different pixels closes every run. */
  lemma DiffersCompletes(done: seq<Pixel>, current: Pixel, next: Pixel, s: EncState)
    requires Open(done, current, s) && current != next
    ensures Flatten(Differs(s, current, next, true).lst) == done + [current, next]
    ensures AllWellFormed(Differs(s, current, next, true).lst)
  {
    var run := s.run + [current];
    assert done + [current, next] == done + [current] + [next];
    if s.repeat == 1 {
      var e := Entry(s.count + 1 + 128, run);
      assert IsRepeat(e);
      assert Differs(s, current, next, true).lst == s.lst + [e] + [Entry(1, [next])];
      FlushTwo(done + [current], s.lst, e, next);
    } else if s.count + 1 == 128 {
      var e := Entry(128, run);
      assert IsLiteral(e);
      assert Differs(s, current, next, true).lst == s.lst + [e] + [Entry(1, [next])];
      FlushTwo(done + [current], s.lst, e, next);
    } else {
      var e := Entry(s.count + 2, run + [next]);
      assert IsLiteral(e);
      assert Differs(s, current, next, true).lst == s.lst + [e];
      Flush(s.lst, e);
    }
  }

  /** The final iteration on two equal pixels after a literal run: the `break` case. */
  lemma EqualsAfterLiteralCompletes(done: seq<Pixel>, current: Pixel, s: EncState)
    requires Open(done, current, s) && s.repeat == 0
    ensures Flatten(Equals(s, current, true).lst) == done + [current, current]
    ensures AllWellFormed(Equals(s, current, true).lst)
  {
    var lit, pair := Entry(s.count, s.run), Entry(130, [current, current]);
    assert Equals(s, current, true).lst == s.lst + [lit] + [pair];
    FlushLiteral(done, current, s);
    assert IsRepeat(pair);
    Flush(s.lst + [lit], pair);
  }

  /** The final iteration on two equal pixels with no literal run open. */
  lemma EqualsAfterRepeatCompletes(done: seq<Pixel>, current: Pixel, s: EncState)
    requires Open(done, current, s) && s.repeat != 0
    ensures Flatten(Equals(s, current, true).lst) == done + [current, current]
    ensures AllWellFormed(Equals(s, current, true).lst)
  {
    var run1 := s.run + [current];
    assert done + [current, current] == done + [current] + [current];
    if |run1| == 128 {
      var e := Entry(256, run1);
      assert IsRepeat(e);
      assert Equals(s, current, true).lst == s.lst + [e] + [Entry(1, [current])];
      FlushTwo(done + [current], s.lst, e, current);
    } else {
      var e := Entry(|run1| + 1 + 128, run1 + [current]);
      assert IsRepeat(e);
      assert Equals(s, current, true).lst == s.lst + [e];
      Flush(s.lst, e);
    }
  }

  /** The last iteration closes every run: the entries hold exactly the row. */
  lemma LastStepCompletes(line: seq<Pixel>, i: nat, s: EncState)
    requires i + 2 == |line| && Pending(line, i, s)
    ensures Flatten(Step(line, i, s).lst) == line
    ensures AllWellFormed(Step(line, i, s).lst)
  {
    assert line == line[..i] + [line[i], line[i + 1]];
    if line[i] != line[i + 1] {
      DiffersCompletes(line[..i], line[i], line[i + 1], s);
    } else if s.repeat == 0 {
      EqualsAfterLiteralCompletes(line[..i], line[i], s);
    } else {
      EqualsAfterRepeatCompletes(line[..i], line[i], s);
    }
  }

  /** An iteration that is not the last one keeps `Pending`. */
  lemma StepKeepsPending(line: seq<Pixel>, i: nat, s: EncState)
    requires i + 2 < |line| && Pending(line, i, s)
    ensures Pending(line, i + 1, Step(line, i, s))
  {
    var done, current, next := line[..i], line[i], line[i + 1];
    assert line[..i + 1] == done + [current];
    if current != next {
      DiffersKeepsOpen(done, current, next, s);
      assert Step(line, i, s) == Differs(s, current, next, false);
    } else {
      EqualsKeepsOpen(done, current, s);
      assert Step(line, i, s) == Equals(s, current, false);
    }
  }

  lemma {:induction false} RunPending(line: seq<Pixel>, i: nat)
    requires i + 1 < |line|
    ensures Pending(line, i, Run(line, i))
  {
    if i > 0 {
      RunPending(line, i - 1);
      StepKeepsPending(line, i - 1, Run(line, i - 1));
    }
  }

  /** After the last iteration the entries hold exactly the row, each well formed. */
  lemma RunCompletes(line: seq<Pixel>)
    requires |line| >= 2
    ensures Flatten(Step(line, |line| - 2, Run(line, |line| - 2)).lst) == line
    ensures AllWellFormed(Step(line, |line| - 2, Run(line, |line| - 2)).lst)
  {
    var i := |line| - 2;
    RunPending(line, i);
    LastStepCompletes(line, i, Run(line, i));
  }

  /**
   * The list `EncodeLine` returns (the loop runs over `line[:len(line)-1]`).
   * Pixel conservation and run bounds: for a row of at least two pixels the
   * entries' pixels, in order, are exactly the row; every entry is a literal
   * run of 1..128 pixels or a repeat run of 2..128 equal pixels; a one-pixel
   * row gives no entries.
   */
  function LineEntries(line: seq<Pixel>): (r: seq<Entry>)
    requires |line| >= 1
    ensures AllWellFormed(r)
    ensures |line| >= 2 ==> Flatten(r) == line
    ensures |line| == 1 ==> r == []
  {
    if |line| >= 2 then RunCompletes(line); Run(line, |line| - 1).lst
    else Run(line, 0).lst
  }

  /** `EncodeLine` as written: the loop over `line[:len(line)-1]` with its early `break`. */
  method EncodeLine(line: seq<Pixel>) returns (lst: seq<Entry>)
    requires |line| >= 1
    ensures lst == LineEntries(line)
    ensures AllWellFormed(lst)
    ensures |line| >= 2 ==> Flatten(lst) == line
    ensures |line| == 1 ==> lst == []
  {
    var count := 0;
    lst := [];
    var repeat := -1;
    var run: seq<Pixel> := [];
    var total := |line| - 1;

    var index := 0;
    while index < |line| - 1
      invariant 0 <= index <= |line| - 1
      invariant EncState(count, repeat, run, lst) == Run(line, index)
    {
      ghost var before := EncState(count, repeat, run, lst);
      var current := line[index];
      if current != line[index + 1] {
        run := run + [current];
        count := count + 1;
        if repeat == 1 {
          lst := lst + [Entry(count + 128, run)];
          count := 0;
          run := [];
          repeat := -1;
          if index == total - 1 {
            run := [line[index + 1]];
            lst := lst + [Entry(1, run)];
          }
        } else {
          repeat := 0;
          if count == 128 {
            lst := lst + [Entry(128, run)];
            count := 0;
            run := [];
            repeat := -1;
          }
          if index == total - 1 {
            run := run + [line[index + 1]];
            assert count == 0 ==> run == [line[index + 1]];
            lst := lst + [Entry(count + 1, run)];
          }
        }
        assert EncState(count, repeat, run, lst) == Differs(before, current, line[index + 1], index == total - 1);
      } else {
        if repeat == 0 {
          lst := lst + [Entry(count, run)];
          count := 0;
          run := [];
          repeat := -1;
          if index == total - 1 {
            run := run + [line[index + 1], line[index + 1]];
            lst := lst + [Entry(2 + 128, run)];
            assert run == [line[index + 1], line[index + 1]];
            assert EncState(count, repeat, run, lst) == Equals(before, current, true);
            break;
          }
        }
        run := run + [current];
        repeat := 1;
        count := count + 1;
        if count == 128 {
          lst := lst + [Entry(256, run)];
          count := 0;
          run := [];
          repeat := -1;
        }
        if index == total - 1 {
          if count == 0 {
            run := [line[index + 1]];
            lst := lst + [Entry(1, run)];
          } else {
            run := run + [current];
            lst := lst + [Entry(count + 1 + 128, run)];
          }
        }
        assert EncState(count, repeat, run, lst) == Equals(before, current, index == total - 1);
      }
      assert EncState(count, repeat, run, lst) == Step(line, index, before);
      index := index + 1;
    }
  }

  /** The corrected row encoder: a one-pixel row becomes a one-pixel literal run. */
  function RowEntries(line: seq<Pixel>): (r: seq<Entry>)
    requires |line| >= 1
    ensures Flatten(r) == line && AllWellFormed(r)
  {
    if |line| == 1 then
      assert IsLiteral(Entry(1, line));
      assert Flatten([Entry(1, line)]) == Flatten([]) + line;
      [Entry(1, line)]
    else
      LineEntries(line)
  }

  /** As written, a one-pixel row yields no entries at all: its pixel is lost. */
  lemma SinglePixelRowVanishes(p: Pixel)
    ensures LineEntries([p]) == []
    ensures Flatten(LineEntries([p])) != [p]
  {
  }

  /** The final iteration from the start state on two equal pixels. */
  lemma EqualsFromStart(a: Pixel)
    ensures Equals(Start, a, true) == EncState(1, 1, [a, a], [Entry(130, [a, a])])
  {
    assert [] + [a] == [a] && [a] + [a] == [a, a];
    assert [] + [Entry(130, [a, a])] == [Entry(130, [a, a])];
  }

  /** Two equal pixels: one repeat entry of Count 130 ... */
  lemma TwoEqualPixels(a: Pixel)
    ensures LineEntries([a, a]) == [Entry(130, [a, a])]
  {
    var line := [a, a];
    EqualsFromStart(a);
    assert Run(line, 0) == Start;
    assert Step(line, 0, Start) == Equals(Start, a, true);
    assert Run(line, 1) == Step(line, 0, Run(line, 0));
  }

  /** ... written as 0x81 and the pixel's triple. */
  lemma TwoEqualPixelsBytes(a: Pixel)
    ensures SerEntries(LineEntries([a, a])) == [0x81] + PixelBgr(a)
  {
    TwoEqualPixels(a);
    var e := Entry(130, [a, a]);
    assert SerEntry(e) == [0x81] + PixelBgr(a);
    assert SerEntries([e]) == SerEntries([]) + SerEntry(e);
  }

  /**
   * A pixel, then two equal ones: the literal run `[a]` ends and the final
   * pair becomes a repeat run (the `break` in the last iteration).
   */
  lemma LiteralThenPair(a: Pixel, b: Pixel)
    requires a != b
    ensures LineEntries([a, b, b]) == [Entry(1, [a]), Entry(130, [b, b])]
    ensures SerEntries(LineEntries([a, b, b])) == [0x00] + PixelBgr(a) + [0x81] + PixelBgr(b)
  {
    LiteralThenPairEntries(a, b);
    var e1, e2 := Entry(1, [a]), Entry(130, [b, b]);
    assert SerEntry(e1) == [0x00] + PixelBgr(a) by {
      assert BgrBytes([a]) == BgrBytes([]) + PixelBgr(a);
    }
    assert SerEntry(e2) == [0x81] + PixelBgr(b);
    assert [e1, e2][..1] == [e1];
    assert SerEntries([e1]) == SerEntries([]) + SerEntry(e1);
    assert SerEntries([e1, e2]) == SerEntries([e1]) + SerEntry(e2);
  }

  /** The list for `[a, b, b]`, from the two iterations of the loop. */
  lemma LiteralThenPairEntries(a: Pixel, b: Pixel)
    requires a != b
    ensures LineEntries([a, b, b]) == [Entry(1, [a]), Entry(130, [b, b])]
  {
    var line := [a, b, b];
    var s := EncState(1, 0, [a], []);
    LastStep(line);
    assert Run(line, 1) == Differs(Start, a, b, false);
    assert Differs(Start, a, b, false) == s;
    assert Step(line, 1, s) == Equals(s, b, true);
    assert Equals(s, b, true).lst == [Entry(1, [a]), Entry(130, [b, b])];
  }

  /** Three distinct pixels: one literal entry of Count 3, written as 0x02 and nine bytes. */
  lemma ThreeDistinctPixels(a: Pixel, b: Pixel, c: Pixel)
    requires a != b && b != c
    ensures LineEntries([a, b, c]) == [Entry(3, [a, b, c])]
    ensures SerEntries(LineEntries([a, b, c])) == [0x02] + PixelBgr(a) + PixelBgr(b) + PixelBgr(c)
  {
    var line := [a, b, c];
    DistinctRowEntries(line);
    assert line[0..] == line;
    var e := Entry(3, [a, b, c]);
    assert SerEntries([e]) == SerEntries([]) + SerEntry(e);
    assert BgrBytes([a, b, c]) == PixelBgr(a) + PixelBgr(b) + PixelBgr(c) by {
      assert [a, b, c][..2] == [a, b];
      assert [a, b][..1] == [a];
      assert [a][..0] == [];
      assert BgrBytes([a]) == PixelBgr(a);
      assert BgrBytes([a, b]) == PixelBgr(a) + PixelBgr(b);
    }
  }

  /** The first k 128-pixel pieces of `s`, each a full literal entry. */
  function LitChunks(s: seq<Pixel>, k: nat): (r: seq<Entry>)
    requires 128 * k <= |s|
    ensures |r| == k
  {
    if k == 0 then [] else LitChunks(s, k - 1) + [Entry(128, s[128 * (k - 1) .. 128 * k])]
  }

  /**
   * On a row where no two neighbours are equal the loop keeps a literal run
   * open and emits a full 128-pixel literal entry every 128 iterations.
   */
  lemma {:induction false} DistinctRowRun(line: seq<Pixel>, i: nat)
    requires forall k | 0 <= k < |line| - 1 :: line[k] != line[k + 1]
    requires i + 1 < |line|
    ensures 128 * (i / 128) == i - i % 128
    ensures Run(line, i) ==
      EncState(i % 128, if i % 128 == 0 then -1 else 0, line[128 * (i / 128) .. i], LitChunks(line, i / 128))
  {
    if i > 0 {
      var j := i - 1;
      DistinctRowRun(line, j);
      var s := Run(line, j);
      assert Run(line, i) == Differs(s, line[j], line[j + 1], false);
      assert line[128 * (j / 128) .. j] + [line[j]] == line[128 * (j / 128) .. i];
      if j % 128 == 127 {
        assert i / 128 == j / 128 + 1 && i % 128 == 0;
      } else {
        assert i / 128 == j / 128 && i % 128 == j % 128 + 1;
      }
    }
  }

  /**
   * The whole list for a row of n >= 2 pixels with no two neighbours equal:
   * the row cut, left to right, into 128-pixel literal entries and a last
   * literal entry of 1..128 pixels, ⌈n/128⌉ entries in all.
   */
  lemma DistinctRowEntries(line: seq<Pixel>)
    requires |line| >= 2
    requires forall k | 0 <= k < |line| - 1 :: line[k] != line[k + 1]
    ensures var n, m := |line|, (|line| - 1) % 128 + 1;
      128 * ((n - 1) / 128) == n - m &&
      LineEntries(line) == LitChunks(line, (n - 1) / 128) + [Entry(m, line[n - m..])]
    ensures |LineEntries(line)| == (|line| + 127) / 128
  {
    var i := |line| - 2;
    LastStepDiffers(line);
    DistinctRowRun(line, i);
    DistinctFinal(line, i, i / 128, i % 128);
  }

  /** The list the last iteration leaves, from the state `DistinctRowRun` gives, cut into pieces. */
  lemma DistinctFinal(line: seq<Pixel>, i: nat, k: nat, c: nat)
    requires c < 128 && i == 128 * k + c && |line| == i + 2
    ensures var n, m := |line|, (|line| - 1) % 128 + 1;
      var s := EncState(c, if c == 0 then -1 else 0, line[128 * k .. i], LitChunks(line, k));
      var r := Differs(s, line[i], line[i + 1], true).lst;
      128 * ((n - 1) / 128) == n - m &&
      r == LitChunks(line, (n - 1) / 128) + [Entry(m, line[n - m..])] &&
      |r| == (n + 127) / 128
  {
    DistinctLastStep(line, i, k, c);
    PieceCount(|line|, k, c);
  }

  /** The piece arithmetic of a row of n = 128k + c + 2 pixels. */
  lemma PieceCount(n: nat, k: nat, c: nat)
    requires c < 128 && n == 128 * k + c + 2
    ensures c == 127 ==> (n - 1) / 128 == k + 1 && (n - 1) % 128 == 0
    ensures c < 127 ==> (n - 1) / 128 == k && (n - 1) % 128 == c + 1
    ensures (n + 127) / 128 == (n - 1) / 128 + 1
  {
  }

  /** When the last two pixels differ, the list is what `Differs` leaves in the last iteration. */
  lemma LastStepDiffers(line: seq<Pixel>)
    requires |line| >= 2 && line[|line| - 2] != line[|line| - 1]
    ensures LineEntries(line) == Differs(Run(line, |line| - 2), line[|line| - 2], line[|line| - 1], true).lst
  {
    LastStep(line);
  }

  /**
   * The last iteration on a row with no equal neighbours, from the state
   * `DistinctRowRun` gives after k full pieces and c more pixels.
   */
  lemma DistinctLastStep(line: seq<Pixel>, i: nat, k: nat, c: nat)
    requires c < 128 && i == 128 * k + c && |line| == i + 2
    ensures var s := EncState(c, if c == 0 then -1 else 0, line[128 * k .. i], LitChunks(line, k));
      Differs(s, line[i], line[i + 1], true).lst ==
        if c == 127 then LitChunks(line, k + 1) + [Entry(1, line[i + 1..])]
        else LitChunks(line, k) + [Entry(c + 2, line[128 * k..])]
  {
    var s := EncState(c, if c == 0 then -1 else 0, line[128 * k .. i], LitChunks(line, k));
    assert s.run + [line[i]] == line[128 * k .. i + 1];
    if c == 127 {
      LastDiffersAtCap(s, line[i], line[i + 1]);
      assert line[i + 1..] == [line[i + 1]];
    } else {
      LastDiffersBelowCap(s, line[i], line[i + 1]);
      assert line[128 * k .. i + 1] + [line[i + 1]] == line[128 * k..];
    }
  }

  /** The last iteration closes an open literal run that reaches 128 pixels, and `next` is left alone. */
  lemma LastDiffersAtCap(s: EncState, current: Pixel, next: Pixel)
    requires s.repeat != 1 && s.count == 127
    ensures Differs(s, current, next, true).lst == s.lst + [Entry(128, s.run + [current])] + [Entry(1, [next])]
  {
  }

  /** The last iteration closes a shorter open literal run with `current` and `next`. */
  lemma LastDiffersBelowCap(s: EncState, current: Pixel, next: Pixel)
    requires s.repeat != 1 && s.count < 127
    ensures Differs(s, current, next, true).lst == s.lst + [Entry(s.count + 2, s.run + [current] + [next])]
  {
  }

  /** The list `EncodeLine` returns is what the last iteration leaves. */
  lemma LastStep(line: seq<Pixel>)
    requires |line| >= 2
    ensures LineEntries(line) == Step(line, |line| - 2, Run(line, |line| - 2)).lst
  {
  }

  /**
   * On a row of equal pixels the loop emits a full 128-pixel repeat entry
   * every 128 iterations and otherwise keeps a repeat run open.
   */
  lemma {:induction false} ConstantRowRun(line: seq<Pixel>, a: Pixel, i: nat)
    requires forall k | 0 <= k < |line| :: line[k] == a
    requires i + 1 < |line|
    ensures Run(line, i) ==
      EncState(i % 128, if i % 128 == 0 then -1 else 1, Copies(a, i % 128),
               Copies(Entry(256, Copies(a, 128)), i / 128))
  {
    if i > 0 {
      ConstantRowRun(line, a, i - 1);
      var j := i - 1;
      if j % 128 == 127 {
        assert Copies(a, 127) + [a] == Copies(a, 128);
        assert Copies(Entry(256, Copies(a, 128)), j / 128) + [Entry(256, Copies(a, 128))]
            == Copies(Entry(256, Copies(a, 128)), i / 128);
      } else {
        assert Copies(a, j % 128) + [a] == Copies(a, i % 128);
      }
    }
  }

  /**
   * The whole list for a row of n >= 2 equal pixels: ⌈n/128⌉ entries, all
   * full 128-pixel repeat entries but the last. When n % 128 == 1 the last
   * pixel is left alone and becomes a one-pixel literal entry.
   */
  lemma ConstantRowEntries(line: seq<Pixel>, a: Pixel)
    requires |line| >= 2 && forall k | 0 <= k < |line| :: line[k] == a
    ensures var n, full := |line|, Entry(256, Copies(a, 128));
      if n % 128 == 1 then LineEntries(line) == Copies(full, n / 128) + [Entry(1, [a])]
      else LineEntries(line) == Copies(full, (n - 2) / 128) + [Entry(128 + ((n - 1) % 128 + 1), Copies(a, (n - 1) % 128 + 1))]
    ensures |LineEntries(line)| == (|line| + 127) / 128
  {
    var i := |line| - 2;
    ConstantRowRun(line, a, i);
    LastStep(line);
    ConstantLastStep(a, i);
  }

  /** The last iteration on a constant row, from the state `ConstantRowRun` gives. */
  lemma ConstantLastStep(a: Pixel, i: nat)
    ensures var n, full := i + 2, Entry(256, Copies(a, 128));
      var s := EncState(i % 128, if i % 128 == 0 then -1 else 1, Copies(a, i % 128), Copies(full, i / 128));
      if n % 128 == 1 then Equals(s, a, true).lst == Copies(full, n / 128) + [Entry(1, [a])]
      else Equals(s, a, true).lst == Copies(full, (n - 2) / 128) + [Entry(128 + ((n - 1) % 128 + 1), Copies(a, (n - 1) % 128 + 1))]
  {
    var n, full := i + 2, Entry(256, Copies(a, 128));
    if i % 128 == 127 {
      assert Copies(a, 127) + [a] == Copies(a, 128);
      assert Copies(full, i / 128) + [full] == Copies(full, n / 128);
    } else {
      assert Copies(a, i % 128) + [a] + [a] == Copies(a, (n - 1) % 128 + 1);
    }
  }

  /** 256 equal pixels: two repeat entries of Count 256. */
  lemma TwoFiftySixEqualPixels(a: Pixel)
    ensures LineEntries(Copies(a, 256)) == [Entry(256, Copies(a, 128)), Entry(256, Copies(a, 128))]
  {
    var line := Copies(a, 256);
    ConstantRowRun(line, a, 254);
    var s := Run(line, 254);
    assert s == EncState(126, 1, Copies(a, 126), [Entry(256, Copies(a, 128))]);
    assert Copies(a, 126) + [a] + [a] == Copies(a, 128);
    assert Run(line, 255) == Step(line, 254, s);
  }

  /** ... and each of them is written as the control byte 0xFF and one triple. */
  lemma TwoFiftySixEqualPixelsBytes(a: Pixel)
    ensures SerEntries(LineEntries(Copies(a, 256))) == [0xFF] + PixelBgr(a) + [0xFF] + PixelBgr(a)
  {
    TwoFiftySixEqualPixels(a);
    var e := Entry(256, Copies(a, 128));
    assert SerEntry(e) == [0xFF] + PixelBgr(a);
    assert SerEntries([e, e]) == SerEntries([e]) + SerEntry(e) by {
      assert [e, e][..1] == [e];
    }
    assert SerEntries([e]) == SerEntries([]) + SerEntry(e);
  }
}
