/**
 * `Block`: an ordered list of `Line` objects (by `(file_name, index)`, no
 * location twice) with optional `start` and `end` lines, grown by walking a
 * cursor up or down a file. Each method is proved to change the block's state
 * (`State()`) exactly as the matching function of `BlockSpec` says.
 */
module Blocks {
  import opened Snapshots
  import opened Ordered
  import opened Lines
  import opened BlockSpec

  class Block {
    const lang: string
    var lines: seq<Line>
    var start: Line?
    var end: Line?

    /** The snapshots of the lines and the locations of `start` and `end`. */
    ghost function State(): BlockState
      reads this, lines, start, end
    {
      BlockState(Values(lines),
                 if start == null then None else Some(start.Loc()),
                 if end == null then None else Some(end.Loc()))
    }

    /** Lines in order with no location twice; `start` and `end` are lines of the block. */
    ghost predicate Valid()
      reads this, lines, start, end
    {
      && Sorted(Values(lines))
      && (start != null ==> start in lines)
      && (end != null ==> end in lines)
    }

    /** The object `start` refers to shows the snapshot the block holds at its location. */
    lemma StartIsLine()
      requires Valid() && start != null
      ensures start.Loc() in Locs(State().lines) && LineAt(State(), start.Loc()) == start.Value()
    {
      var k :| 0 <= k < |lines| && lines[k] == start;
      ValuesAt(lines);
      AtSorted(Values(lines), k);
    }

    /** `Block(lang, line)`: an empty block, then `add(line)` when a line is given;
        the given object itself becomes the block's line. */
    constructor (lang: string, line: Line?)
      ensures Valid()
      ensures lines == (if line == null then [] else [line]) && start == null && end == null
      ensures State() == Init(if line == null then None else Some(line.Value()))
    {
      this.lang := lang;
      lines := [];
      start := null;
      end := null;
      new;
      if line != null {
        Add(line);
        ValuesLength(lines);
        assert lines[0] in lines;
      }
    }

    /** The first loop of `add`: the position of the line equal to `newLine`, or
        `|lines|` when there is none. */
    method FindEqual(newLine: Line) returns (k: nat)
      ensures k <= |lines|
      ensures k < |lines| ==> lines[k].Loc() == newLine.Loc()
      ensures forall q :: 0 <= q < k ==> lines[q].Loc() != newLine.Loc()
    {
      k := 0;
      while k < |lines| && !lines[k].Equals(newLine)
        invariant k <= |lines|
        invariant forall q :: 0 <= q < k ==> lines[q].Loc() != newLine.Loc()
      {
        k := k + 1;
      }
    }

    /** The second loop of `add`: the number of leading lines that precede `newLine`. */
    method FindInsertionPoint(newLine: Line) returns (insertionPoint: nat)
      ensures insertionPoint <= |lines|
      ensures forall q :: 0 <= q < insertionPoint ==> LocLess(lines[q].Loc(), newLine.Loc())
      ensures insertionPoint < |lines| ==> !LocLess(lines[insertionPoint].Loc(), newLine.Loc())
    {
      insertionPoint := 0;
      while insertionPoint < |lines| && LocLess(lines[insertionPoint].Loc(), newLine.Loc())
        invariant insertionPoint <= |lines|
        invariant forall q :: 0 <= q < insertionPoint ==> LocLess(lines[q].Loc(), newLine.Loc())
      {
        insertionPoint := insertionPoint + 1;
      }
    }

    /** `add(new_line)`: merge into the line at the same location if there is one,
        otherwise insert the object after every line that precedes it. */
    method Add(newLine: Line)
      requires Valid()
      modifies this`lines, lines`highlight
      ensures Valid()
      ensures State() == AddTo(old(State()), old(newLine.Value()))
      ensures start == old(start) && end == old(end)
      ensures forall x :: x in lines ==> x in old(lines) || x == newLine
      ensures forall x :: x in old(lines) ==> x in lines
    {
      var k := FindEqual(newLine);
      if k < |lines| {
        MergeAt(k, newLine);
        return;
      }
      var insertionPoint := FindInsertionPoint(newLine);
      InsertAt(insertionPoint, newLine);
    }

    /** The merge branch of `add`: the `k`-th line, at the new line's location,
        takes its highlight. */
    method MergeAt(k: nat, newLine: Line)
      requires Valid() && k < |lines| && lines[k].Loc() == newLine.Loc()
      modifies lines`highlight
      ensures Valid()
      ensures State() == AddTo(old(State()), old(newLine.Value()))
    {
      lines[k].Merge(newLine);
      MergedAt(lines, k, newLine);
    }

    /** The insertion branch of `add`: the object goes after the lines that
        precede it. */
    method InsertAt(insertionPoint: nat, newLine: Line)
      requires Valid() && insertionPoint <= |lines|
      requires forall q :: 0 <= q < |lines| ==> lines[q].Loc() != newLine.Loc()
      requires forall q :: 0 <= q < insertionPoint ==> LocLess(lines[q].Loc(), newLine.Loc())
      requires insertionPoint < |lines| ==> !LocLess(lines[insertionPoint].Loc(), newLine.Loc())
      modifies this`lines
      ensures Valid()
      ensures State() == AddTo(old(State()), newLine.Value())
      ensures forall x :: x in lines ==> x in old(lines) || x == newLine
      ensures forall x :: x in old(lines) ==> x in lines
    {
      InsertedAt(lines, insertionPoint, newLine);
      InsertKeeps(lines, insertionPoint, newLine);
      lines := lines[..insertionPoint] + [newLine] + lines[insertionPoint..];
    }

    /** `add_start_with(pattern)`: walk a copy of the first line up the file; the
        first line above it that matches is added and becomes `start`. */
    method AddStartWith(fs: Files, m: Matcher, pattern: string)
      requires Valid()
      requires lines != [] ==> CanMoveUp(fs, lines[0].Value())
      modifies this, lines`highlight
      ensures Valid()
      ensures State() == StartWith(fs, m, pattern, old(State()))
      ensures forall x :: x in lines ==> x in old(lines) || fresh(x)
      ensures forall x :: x in old(lines) ==> x in lines
    {
      if lines == [] {
        return;
      }
      ghost var st0 := State();
      ValuesHead(lines);
      var found, cursor := ScanAboveFirst(fs, m, pattern);
      StartWithScanned(fs, m, pattern, st0, found, cursor.Value());
      if !found {
        return;
      }
      var copy := cursor.Clone();
      AddAsStart(copy);
    }

    /** A copy of the first line, walked up to the first line above it that
        matches; the block itself is left alone. */
    method ScanAboveFirst(fs: Files, m: Matcher, pattern: string) returns (found: bool, cursor: Line)
      requires State().lines != [] && CanMoveUp(fs, State().lines[0])
      ensures fresh(cursor)
      ensures var first := State().lines[0];
        && (first.index > 0 ==>
              NearestAbove(fs, m, pattern, first.file, first.index) == if found then Some(cursor.index) else None)
        && (found ==> first.index > 0 && cursor.Value() == FileValue(fs, first.file, cursor.index))
    {
      ValuesHead(lines);
      cursor := lines[0].Clone();
      found := ScanUp(cursor, fs, m, pattern);
    }

    /** `fill_start_until(pattern)`: walk a copy of the first line down the file,
        adding every line it shows, through the first one that matches. The walk
        only ends if such a line exists (or the first line matches itself). */
    method FillStartUntil(fs: Files, m: Matcher, pattern: string)
      requires Valid()
      requires var st := State(); st.lines != [] ==> st.lines[0].file in fs
      requires FillEnds(fs, m, pattern, State())
      modifies this, (set x | x in lines)`highlight
      ensures Valid()
      ensures State() == FillUntil(fs, m, pattern, old(State()))
      ensures forall x :: x in lines ==> x in old(lines) || fresh(x)
      ensures forall x :: x in old(lines) ==> x in lines
    {
      if lines == [] {
        return;
      }
      ghost var st0 := State();
      ValuesHead(lines);
      var cursor := lines[0].Clone();
      ghost var f, i0 := cursor.fileName, cursor.index;
      ghost var stop := FillStop(fs, m, pattern, st0.lines[0]);
      AddSpanEmpty(fs, st0, f, i0 + 1, i0);
      assert State() == AddedBelow(fs, st0, cursor.index);
      while !cursor.Match(m, pattern)
        invariant fresh(cursor) && cursor !in lines && Valid()
        invariant Walking(fs, st0, cursor.Value()) && cursor.index <= stop
        invariant State() == AddedBelow(fs, st0, cursor.index)
        invariant forall x :: x in lines ==> x in old(lines) || fresh(x)
        invariant forall x :: x in old(lines) ==> x in lines
        decreases stop - cursor.index
      {
        FillStopAt(fs, m, pattern, st0, cursor.Value());
        var _ := AddAndStepDown(cursor, fs, st0);
      }
      FillStopAt(fs, m, pattern, st0, cursor.Value());
      AddCopy(cursor);
      FillStep(fs, st0, cursor.index, cursor.Value());
    }

    /** `fill_start_until` with the walk also ending at the last line of the
        file, where the original loops for ever. */
    method FillStartUntilOrEnd(fs: Files, m: Matcher, pattern: string)
      requires Valid()
      requires var st := State(); st.lines != [] ==> st.lines[0].file in fs
      modifies this, (set x | x in lines)`highlight
      ensures Valid()
      ensures State() == FillUntilOrEnd(fs, m, pattern, old(State()))
      ensures forall x :: x in lines ==> x in old(lines) || fresh(x)
      ensures forall x :: x in old(lines) ==> x in lines
    {
      if lines == [] {
        return;
      }
      ghost var st0 := State();
      ValuesHead(lines);
      var cursor := lines[0].Clone();
      ghost var f, i0 := cursor.fileName, cursor.index;
      ghost var stop := FillStopOrEnd(fs, m, pattern, st0.lines[0]);
      AddSpanEmpty(fs, st0, f, i0 + 1, i0);
      assert State() == AddedBelow(fs, st0, cursor.index);
      while !cursor.Match(m, pattern)
        invariant fresh(cursor) && cursor !in lines && Valid()
        invariant Walking(fs, st0, cursor.Value()) && cursor.index <= stop
        invariant State() == AddedBelow(fs, st0, cursor.index)
        invariant forall x :: x in lines ==> x in old(lines) || fresh(x)
        invariant forall x :: x in old(lines) ==> x in lines
        decreases stop - cursor.index
      {
        FillStopOrEndAt(fs, m, pattern, st0, cursor.Value());
        var moved := AddAndStepDown(cursor, fs, st0);
        if !moved {
          assert State() == FillTo(fs, st0, stop);
          return;
        }
      }
      FillStopOrEndAt(fs, m, pattern, st0, cursor.Value());
      AddCopy(cursor);
      FillStep(fs, st0, cursor.index, cursor.Value());
      assert State() == FillTo(fs, st0, stop);
    }

    /** `fill_full()`: with `start` and `end` set in the same file, walk a copy
        of `start` down, adding each line, until the line just above `end` or
        the end of the file. */
    method FillFull(fs: Files)
      requires Valid()
      requires FillFullReads(fs, State())
      modifies this, (set x | x in lines)`highlight
      ensures Valid()
      ensures State() == BlockSpec.FillFull(fs, old(State()))
      ensures forall x :: x in lines ==> x in old(lines) || fresh(x)
      ensures forall x :: x in old(lines) ==> x in lines
    {
      if start == null || end == null {
        return;
      }
      if start.fileName != end.fileName {
        return;
      }
      FillBetween(fs);
    }

    /** The walk of `fill_full`, once `start` and `end` are known to be set in
        the same file. */
    method FillBetween(fs: Files)
      requires Valid() && start != null && end != null && start.fileName == end.fileName
      requires FillFullReads(fs, State())
      modifies this, (set x | x in lines)`highlight
      ensures Valid()
      ensures State() == BlockSpec.FillFull(fs, old(State()))
      ensures forall x :: x in lines ==> x in old(lines) || fresh(x)
      ensures forall x :: x in old(lines) ==> x in lines
    {
      ghost var st0 := State();
      var cursor := start.Clone();
      ghost var f, s, e := cursor.fileName, cursor.index, end.index;
      assert st0.start == Some(Location(f, s)) && st0.end == Some(Location(f, e));
      if f in fs {
        AddSpanEmpty(fs, st0, f, s + 1, s + 1);
      }
      while cursor.index < end.index - 1
        invariant fresh(cursor) && cursor !in lines && Valid()
        invariant start == old(start) && end == old(end) && end.index == e
        invariant cursor.fileName == f && s <= cursor.index
        invariant cursor.index > s ==> f in fs && cursor.index < |fs[f]| && cursor.index < e
        invariant State() == if f in fs then AddSpan(fs, st0, f, s + 1, cursor.index + 1) else st0
        invariant forall x :: x in lines ==> x in old(lines) || fresh(x)
        invariant forall x :: x in old(lines) ==> x in lines
        decreases e - cursor.index
      {
        var moved := StepDownAndAdd(cursor, fs, st0, s);
        if !moved {
          break;
        }
      }
      FillFullEnds(fs, st0, f, s, e, cursor.index);
    }

    /** The body of the walk of `fill_full`: move the cursor down one line if
        the file has one, and add a copy of the line it reaches. */
    method StepDownAndAdd(cursor: Line, fs: Files, ghost st0: BlockState, ghost s: nat) returns (moved: bool)
      requires Valid() && cursor !in lines && cursor.fileName in fs
      requires s <= cursor.index && (cursor.index > s ==> cursor.index < |fs[cursor.fileName]|)
      requires State() == AddSpan(fs, st0, cursor.fileName, s + 1, cursor.index + 1)
      modifies this`lines, lines`highlight, cursor
      ensures Valid() && cursor !in lines && start == old(start) && end == old(end)
      ensures forall x :: x in lines ==> x in old(lines) || fresh(x)
      ensures forall x :: x in old(lines) ==> x in lines
      ensures moved <==> old(cursor.index) + 1 < |fs[cursor.fileName]|
      ensures cursor.index == if moved then old(cursor.index) + 1 else old(cursor.index)
      ensures State() == AddSpan(fs, st0, cursor.fileName, s + 1, cursor.index + 1)
    {
      moved := cursor.MoveDown(fs);
      if moved {
        AddCopy(cursor);
        AddSpanStep(fs, st0, cursor.fileName, s + 1, cursor.index);
      }
    }

    /** The body of the walk down: add a copy of the cursor's line, then move
        the cursor down one line if the file has one. */
    method AddAndStepDown(cursor: Line, fs: Files, ghost st0: BlockState) returns (moved: bool)
      requires Valid() && cursor !in lines && Sorted(st0.lines) && Walking(fs, st0, cursor.Value())
      requires State() == AddedBelow(fs, st0, cursor.index)
      modifies this`lines, lines`highlight, cursor
      ensures Valid() && cursor !in lines && start == old(start) && end == old(end)
      ensures forall x :: x in lines ==> x in old(lines) || fresh(x)
      ensures forall x :: x in old(lines) ==> x in lines
      ensures State() == AddedBelow(fs, st0, old(cursor.index) + 1)
      ensures moved <==> old(cursor.index) + 1 < |fs[cursor.fileName]|
      ensures cursor.index == if moved then old(cursor.index) + 1 else old(cursor.index)
      ensures moved ==> State() == AddedBelow(fs, st0, cursor.index)
      ensures Walking(fs, st0, cursor.Value())
    {
      ghost var c0 := cursor.Value();
      AddCopy(cursor);
      FillStep(fs, st0, c0.index, c0);
      moved := StepDown(cursor, fs, st0);
    }

    /** `move_down` on the cursor, which is not one of the block's lines: the
        block is untouched and the cursor keeps walking. */
    method StepDown(cursor: Line, fs: Files, ghost st0: BlockState) returns (moved: bool)
      requires Valid() && cursor !in lines && Walking(fs, st0, cursor.Value())
      modifies cursor
      ensures Valid() && State() == old(State())
      ensures moved <==> old(cursor.index) + 1 < |fs[cursor.fileName]|
      ensures cursor.index == if moved then old(cursor.index) + 1 else old(cursor.index)
      ensures Walking(fs, st0, cursor.Value())
    {
      ghost var c0 := cursor.Value();
      moved := cursor.MoveDown(fs);
      WalkStep(fs, st0, c0, moved, cursor.Value());
    }

    /** `self.add(cursor.clone())`: the block gains a copy, never the cursor itself. */
    method AddCopy(cursor: Line)
      requires Valid() && cursor !in lines
      modifies this`lines, lines`highlight
      ensures Valid() && cursor !in lines && start == old(start) && end == old(end)
      ensures State() == AddTo(old(State()), cursor.Value())
      ensures forall x :: x in lines ==> x in old(lines) || fresh(x)
      ensures forall x :: x in old(lines) ==> x in lines
    {
      var copy := cursor.Clone();
      Add(copy);
    }

    /** `self.add(line)` followed by `self.start = self.lines[0]`. */
    method AddAsStart(newLine: Line)
      requires Valid()
      modifies this`lines, this`start, lines`highlight
      ensures Valid()
      ensures var ls := Insert(old(State()).lines, old(newLine.Value()));
        State() == BlockState(ls, Some(ls[0].Loc()), old(State()).end)
      ensures forall x :: x in lines ==> x in old(lines) || x == newLine
      ensures forall x :: x in old(lines) ==> x in lines
    {
      Add(newLine);
      ValuesHead(lines);
      start := lines[0];
    }

    /** `add_end_with(pattern)`: walk a copy of the last line down the file; the
        first line below it that matches is added and becomes `end`. */
    method AddEndWith(fs: Files, m: Matcher, pattern: string)
      requires Valid()
      requires var st := State(); st.lines != [] ==> st.lines[|st.lines| - 1].file in fs
      modifies this, lines`highlight
      ensures Valid()
      ensures State() == EndWith(fs, m, pattern, old(State()))
      ensures forall x :: x in lines ==> x in old(lines) || fresh(x)
      ensures forall x :: x in old(lines) ==> x in lines
    {
      if lines == [] {
        return;
      }
      ghost var st0 := State();
      ValuesLast(lines);
      var found, cursor := ScanBelowLast(fs, m, pattern);
      EndWithScanned(fs, m, pattern, st0, found, cursor.Value());
      if !found {
        return;
      }
      var copy := cursor.Clone();
      AddAsEnd(copy);
    }

    /** A copy of the last line, walked down to the first line below it that
        matches; the block itself is left alone. */
    method ScanBelowLast(fs: Files, m: Matcher, pattern: string) returns (found: bool, cursor: Line)
      requires State().lines != [] && State().lines[|State().lines| - 1].file in fs
      ensures fresh(cursor)
      ensures var last := State().lines[|State().lines| - 1];
        && FirstMatchFrom(fs, m, pattern, last.file, last.index + 1) == (if found then Some(cursor.index) else None)
        && (found ==> cursor.Value() == FileValue(fs, last.file, cursor.index))
    {
      ValuesLast(lines);
      cursor := lines[|lines| - 1].Clone();
      found := ScanDown(cursor, fs, m, pattern);
    }

    /** `self.add(line)` followed by `self.end = self.lines[-1]`. */
    method AddAsEnd(newLine: Line)
      requires Valid()
      modifies this`lines, this`end, lines`highlight
      ensures Valid()
      ensures var ls := Insert(old(State()).lines, old(newLine.Value()));
        State() == BlockState(ls, old(State()).start, Some(ls[|ls| - 1].Loc()))
      ensures forall x :: x in lines ==> x in old(lines) || x == newLine
      ensures forall x :: x in old(lines) ==> x in lines
    {
      Add(newLine);
      ValuesLast(lines);
      ghost var st := State();
      end := lines[|lines| - 1];
      assert State() == st.(end := Some(end.Loc()));
    }

    /** The same walk, but the first line itself is tested first and becomes
        `start` when it matches. */
    method AddStartWithInclusive(fs: Files, m: Matcher, pattern: string)
      requires Valid()
      requires lines != [] ==> CanMoveUp(fs, lines[0].Value())
      modifies this, lines`highlight
      ensures Valid()
      ensures State() == StartWithInclusive(fs, m, pattern, old(State()))
      ensures forall x :: x in lines ==> x in old(lines) || fresh(x)
      ensures forall x :: x in old(lines) ==> x in lines
    {
      if lines != [] && lines[0].Match(m, pattern) {
        ValuesAt(lines);
        start := lines[0];
        return;
      }
      AddStartWith(fs, m, pattern);
    }
  }

  /** The loop of `add_start_with`: move the cursor up until a line matches;
      report whether one did, and leave the cursor on it. */
  method ScanUp(cursor: Line, fs: Files, m: Matcher, pattern: string) returns (found: bool)
    requires CanMoveUp(fs, cursor.Value())
    modifies cursor
    ensures found ==> cursor.index < old(cursor.index) && cursor.Value() == FileValue(fs, cursor.fileName, cursor.index)
    ensures old(cursor.index) > 0 ==>
      NearestAbove(fs, m, pattern, cursor.fileName, old(cursor.index)) == if found then Some(cursor.index) else None
  {
    ghost var f, i0 := cursor.fileName, cursor.index;
    while true
      invariant cursor.index <= i0 && CanMoveUp(fs, cursor.Value())
      invariant forall q :: cursor.index <= q < i0 ==> !LineMatches(fs, m, pattern, f, q)
      decreases cursor.index
    {
      var moved := cursor.MoveUp(fs);
      if !moved {
        return false;
      }
      if cursor.Match(m, pattern) {
        NearestAboveIs(fs, m, pattern, f, i0, cursor.index);
        return true;
      }
    }
  }

  /** The loop of `add_end_with`: move the cursor down until a line matches;
      report whether one did, and leave the cursor on it. */
  method ScanDown(cursor: Line, fs: Files, m: Matcher, pattern: string) returns (found: bool)
    requires cursor.fileName in fs
    modifies cursor
    ensures found ==> cursor.index < |fs[cursor.fileName]| && cursor.Value() == FileValue(fs, cursor.fileName, cursor.index)
    ensures FirstMatchFrom(fs, m, pattern, cursor.fileName, old(cursor.index) + 1) == if found then Some(cursor.index) else None
  {
    ghost var f, i0 := cursor.fileName, cursor.index;
    while true
      invariant i0 <= cursor.index && (cursor.index > i0 ==> cursor.index < |fs[f]|)
      invariant forall q :: i0 < q <= cursor.index ==> !LineMatches(fs, m, pattern, f, q)
      decreases |fs[f]| - cursor.index
    {
      var moved := cursor.MoveDown(fs);
      if !moved {
        return false;
      }
      if cursor.Match(m, pattern) {
        FirstMatchFromIs(fs, m, pattern, f, i0 + 1, cursor.index);
        return true;
      }
    }
  }

  /** The merge branch of `add`: only `ls[k]`, at the new line's location, took
      the merged highlight, which is what `Insert` says of the snapshots. */
  twostate lemma {:induction false} MergedAt(ls: seq<Line>, new k: nat, new x: Line)
    requires old(allocated(x))
    requires old(Sorted(Values(ls))) && k < |ls| && old(ls[k].Loc() == x.Loc())
    requires ls[k].Value() == Merged(old(ls[k].Value()), old(x.Value()))
    requires forall q :: 0 <= q < |ls| && ls[q] != ls[k] ==> ls[q].Value() == old(ls[q].Value())
    ensures Values(ls) == Insert(old(Values(ls)), old(x.Value())) && Sorted(Values(ls))
  {
    var vs := old(Values(ls));
    var v := old(x.Value());
    OldValuesAt(ls);
    SortedDistinct(vs, k);
    MergedPointwise(ls, vs, k, v);
    InsertMerges(vs, v, k);
    InsertSorted(vs, v);
  }

  /** In a list of lines whose snapshots are sorted, a line object shows the
      snapshot the list holds at its location. */
  lemma ShowsHeld(ls: seq<Line>, x: Line, v: LineValue)
    requires Sorted(Values(ls)) && x in ls && v in Values(ls) && x.Loc() == v.Loc()
    ensures x.Value() == v
  {
    ValuesAt(ls);
    var k :| 0 <= k < |ls| && ls[k] == x;
    var j :| 0 <= j < |Values(ls)| && Values(ls)[j] == v;
    SortedDistinct(Values(ls), k);
  }

  /** No other snapshot of a sorted list shares the location of the `k`-th. */
  lemma {:induction false} SortedDistinct(vs: seq<LineValue>, k: nat)
    requires Sorted(vs) && k < |vs|
    ensures forall q :: 0 <= q < |vs| && q != k ==> vs[q].Loc() != vs[k].Loc()
  {
    forall q | 0 <= q < |vs| && q != k
      ensures vs[q].Loc() != vs[k].Loc()
    {
      if q < k {
        assert LocLess(vs[q].Loc(), vs[k].Loc());
      } else {
        assert LocLess(vs[k].Loc(), vs[q].Loc());
      }
      LocLessIrreflexive(vs[q].Loc());
    }
  }

  /** With the old snapshots at distinct locations, only the `k`-th object changed. */
  twostate lemma {:induction false} MergedPointwise(ls: seq<Line>, new vs: seq<LineValue>, new k: nat, new v: LineValue)
    requires |vs| == |ls| && k < |ls|
    requires forall q :: 0 <= q < |ls| ==> vs[q] == old(ls[q].Value())
    requires forall q :: 0 <= q < |vs| && q != k ==> vs[q].Loc() != vs[k].Loc()
    requires ls[k].Value() == Merged(vs[k], v)
    requires forall q :: 0 <= q < |ls| && ls[q] != ls[k] ==> ls[q].Value() == old(ls[q].Value())
    ensures Values(ls) == vs[k := Merged(vs[k], v)]
  {
    ValuesAt(ls);
    forall q | 0 <= q < |ls| && q != k
      ensures ls[q] != ls[k]
    {
      assert vs[q].Loc() != vs[k].Loc();
    }
  }

  /** The insertion branch of `add`: placing the object after the lines that
      precede it is what `Insert` says of the snapshots. */
  lemma {:induction false} InsertedAt(ls: seq<Line>, p: nat, x: Line)
    requires Sorted(Values(ls)) && p <= |ls|
    requires forall q :: 0 <= q < |ls| ==> ls[q].Loc() != x.Loc()
    requires forall q :: 0 <= q < p ==> LocLess(ls[q].Loc(), x.Loc())
    requires p < |ls| ==> !LocLess(ls[p].Loc(), x.Loc())
    ensures Values(ls[..p] + [x] + ls[p..]) == Insert(Values(ls), x.Value())
    ensures Sorted(Values(ls[..p] + [x] + ls[p..]))
  {
    var vs := Values(ls);
    ValuesAt(ls);
    if p < |ls| {
      LocLessTrichotomy(vs[p].Loc(), x.Value().Loc());
    }
    InsertAtGap(vs, x.Value(), p);
    InsertSorted(vs, x.Value());
    ValuesInsert(ls, p, x);
  }

  /** Inserting an object keeps every object already there. */
  lemma InsertKeeps<T>(s: seq<T>, p: nat, x: T)
    requires p <= |s|
    ensures forall y :: y in s ==> y in s[..p] + [x] + s[p..]
    ensures forall y :: y in s[..p] + [x] + s[p..] ==> y in s || y == x
  {
    assert s == s[..p] + s[p..];
  }
}
