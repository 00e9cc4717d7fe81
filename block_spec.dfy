/**
 * The value-level meaning of a `Block`: its lines as snapshots (ordered by
 * location, no location twice) and the locations of its `start` and `end`
 * lines. Each growth primitive of `Block` is a function here; the methods of
 * the `Block` class are proved to change the block's state exactly as these
 * functions say, and the lemmas below say what the functions do.
 */
module BlockSpec {
  import opened Snapshots
  import opened Ordered

  datatype BlockState = BlockState(lines: seq<LineValue>, start: Option<Location>, end: Option<Location>)

  /** What every `Block` method keeps: lines in `(file_name, index)` order with no
      location twice, and `start` and `end` (when set) among the lines. */
  predicate WellFormed(st: BlockState) {
    && Sorted(st.lines)
    && (st.start.Some? ==> st.start.value in Locs(st.lines))
    && (st.end.Some? ==> st.end.value in Locs(st.lines))
  }

  /** The snapshot at a location the block holds. */
  function LineAt(st: BlockState, l: Location): (v: LineValue)
    requires l in Locs(st.lines)
    ensures v in st.lines && v.Loc() == l
  {
    At(st.lines, l).value
  }

  // ---------------------------------------------------------------------
  // Block.__init__ and Block.add

  /** `Block(lang, line)`: empty, then `add(line)` when a line is given. */
  function Init(line: Option<LineValue>): BlockState {
    BlockState(if line.Some? then Insert([], line.value) else [], None, None)
  }

  /** `add`: merge into the entry at the same location, or insert in order. */
  function AddTo(st: BlockState, v: LineValue): BlockState {
    st.(lines := Insert(st.lines, v))
  }

  lemma InitHolds(line: Option<LineValue>)
    ensures WellFormed(Init(line))
    ensures Init(line).lines == if line.Some? then [line.value] else []
  {
  }

  /** `add` keeps the block well formed; it grows by one exactly when the location
      is new, and the set of locations gains exactly the added one. */
  lemma AddKeepsWellFormed(st: BlockState, v: LineValue)
    requires WellFormed(st)
    ensures WellFormed(AddTo(st, v))
    ensures |AddTo(st, v).lines| == if v.Loc() in Locs(st.lines) then |st.lines| else |st.lines| + 1
    ensures Locs(AddTo(st, v).lines) == Locs(st.lines) + {v.Loc()}
  {
    InsertSorted(st.lines, v);
    InsertLocs(st.lines, v);
  }

  lemma AddAllKeepsWellFormed(st: BlockState, ws: seq<LineValue>)
    requires WellFormed(st)
    ensures WellFormed(st.(lines := InsertAll(st.lines, ws)))
    ensures Locs(InsertAll(st.lines, ws)) == Locs(st.lines) + Locs(ws)
  {
    InsertAllSorted(st.lines, ws);
    InsertAllLocs(st.lines, ws);
  }

  lemma {:induction false} SpanLocsOf(fs: Files, f: string, lo: nat, hi: nat)
    requires f in fs && (lo < hi ==> hi <= |fs[f]|)
    ensures Locs(Span(fs, f, lo, hi)) == SpanLocs(f, lo, hi)
    decreases hi
  {
    if lo < hi {
      SpanLocsOf(fs, f, lo, hi - 1);
      var r := Span(fs, f, lo, hi - 1);
      var v := FileValue(fs, f, hi - 1);
      assert Locs(r + [v]) == Locs(r) + {v.Loc()} by {
        assert forall w :: w in r + [v] <==> w in r || w == v;
      }
      assert SpanLocs(f, lo, hi) == SpanLocs(f, lo, hi - 1) + {Location(f, hi - 1)};
    } else {
      assert SpanLocs(f, lo, hi) == {};
    }
  }

  /** Add fresh copies of lines `lo .. hi-1` of file `f`. */
  function AddSpan(fs: Files, st: BlockState, f: string, lo: nat, hi: nat): BlockState
    requires f in fs && (lo < hi ==> hi <= |fs[f]|)
  {
    st.(lines := InsertAll(st.lines, Span(fs, f, lo, hi)))
  }

  /** An empty run adds nothing. */
  lemma AddSpanEmpty(fs: Files, st: BlockState, f: string, lo: nat, hi: nat)
    requires f in fs && hi <= lo
    ensures AddSpan(fs, st, f, lo, hi) == st
  {
  }

  /** Adding line `c` after the run `lo .. c-1` is adding the run `lo .. c`. */
  lemma AddSpanStep(fs: Files, st: BlockState, f: string, lo: nat, c: nat)
    requires f in fs && lo <= c < |fs[f]|
    ensures AddTo(AddSpan(fs, st, f, lo, c), FileValue(fs, f, c)) == AddSpan(fs, st, f, lo, c + 1)
  {
    InsertAllSnoc(st.lines, Span(fs, f, lo, c), FileValue(fs, f, c));
  }

  /** Adding a copy of the first line changes nothing. */
  lemma AddFirstAgain(st: BlockState)
    requires Sorted(st.lines) && st.lines != []
    ensures AddTo(st, st.lines[0]) == st
  {
    InsertPresent(st.lines, 0);
  }

  /** Adding a run of lines keeps the block well formed and adds exactly their locations. */
  lemma AddSpanLocs(fs: Files, st: BlockState, f: string, lo: nat, hi: nat)
    requires WellFormed(st) && f in fs && (lo < hi ==> hi <= |fs[f]|)
    ensures var r := AddSpan(fs, st, f, lo, hi);
      && WellFormed(r) && r.start == st.start && r.end == st.end
      && Locs(r.lines) == Locs(st.lines) + SpanLocs(f, lo, hi)
  {
    AddAllKeepsWellFormed(st, Span(fs, f, lo, hi));
    SpanLocsOf(fs, f, lo, hi);
  }

  // ---------------------------------------------------------------------
  // add_start_with

  /** `move_up` from this line can read the line above it. */
  predicate CanMoveUp(fs: Files, v: LineValue) {
    v.index == 0 || (v.file in fs && v.index <= |fs[v.file]|)
  }

  /** `add_start_with(pattern)`: walk up from the first line; add the first line
      that matches and make it `start`. The first line itself is not tested. */
  function StartWith(fs: Files, m: Matcher, p: string, st: BlockState): BlockState
    requires st.lines != [] ==> CanMoveUp(fs, st.lines[0])
  {
    if st.lines == [] || st.lines[0].index == 0 then st
    else
      var f := st.lines[0].file;
      match NearestAbove(fs, m, p, f, st.lines[0].index)
      case None => st
      case Some(k) =>
        var ls := Insert(st.lines, FileValue(fs, f, k));
        BlockState(ls, Some(ls[0].Loc()), st.end)
  }

  /** `StartWith` once the scan above the first line has ended at `c`, or found nothing. */
  lemma StartWithScanned(fs: Files, m: Matcher, p: string, st: BlockState, found: bool, c: LineValue)
    requires st.lines != [] && CanMoveUp(fs, st.lines[0])
    requires st.lines[0].index > 0 ==>
      NearestAbove(fs, m, p, st.lines[0].file, st.lines[0].index) == if found then Some(c.index) else None
    requires found ==> st.lines[0].index > 0 && c == FileValue(fs, st.lines[0].file, c.index)
    ensures var ls := Insert(st.lines, c);
      StartWith(fs, m, p, st) == if found then BlockState(ls, Some(ls[0].Loc()), st.end) else st
  {
  }

  /** Line `k` is the nearest line strictly above line `i` of file `f` that matches. */
  predicate NearestMatchAbove(fs: Files, m: Matcher, p: string, f: string, i: nat, k: nat)
    requires f in fs && i <= |fs[f]|
  {
    && k < i
    && LineMatches(fs, m, p, f, k)
    && forall q :: k < q < i ==> !LineMatches(fs, m, p, f, q)
  }

  /** Nothing changes exactly when no line above the first one matches. */
  lemma StartWithNoMatch(fs: Files, m: Matcher, p: string, st: BlockState)
    requires WellFormed(st) && st.lines != [] && st.lines[0].file in fs
    requires st.lines[0].index <= |fs[st.lines[0].file]|
    ensures StartWith(fs, m, p, st) == st <==>
      forall k :: 0 <= k < st.lines[0].index ==> !LineMatches(fs, m, p, st.lines[0].file, k)
  {
    var r := StartWith(fs, m, p, st);
    if st.lines[0].index > 0 {
      var found := NearestAbove(fs, m, p, st.lines[0].file, st.lines[0].index);
      if found.Some? {
        var v := FileValue(fs, st.lines[0].file, found.value);
        assert LocLess(v.Loc(), st.lines[0].Loc());
        InsertBeforeFirst(st.lines, v);
        assert |r.lines| == |st.lines| + 1;
      }
    }
  }

  /** When something is found, it is the nearest matching line above: it becomes
      the first line and `start`, in front of the old lines, and `end` stays. */
  lemma StartWithNearest(fs: Files, m: Matcher, p: string, st: BlockState, k: nat)
    requires WellFormed(st) && st.lines != [] && st.lines[0].file in fs
    requires st.lines[0].index <= |fs[st.lines[0].file]|
    ensures
      var f := st.lines[0].file;
      var r := StartWith(fs, m, p, st);
      (k < st.lines[0].index && r.start == Some(Location(f, k)) && r.lines == [FileValue(fs, f, k)] + st.lines && r.end == st.end)
      <==> NearestMatchAbove(fs, m, p, f, st.lines[0].index, k)
  {
    var f := st.lines[0].file;
    var i := st.lines[0].index;
    var r := StartWith(fs, m, p, st);
    if i > 0 {
      var found := NearestAbove(fs, m, p, f, i);
      if found.Some? {
        var v := FileValue(fs, f, found.value);
        InsertBeforeFirst(st.lines, v);
      }
    }
    if k < i && r.lines == [FileValue(fs, f, k)] + st.lines {
      assert |r.lines| == |st.lines| + 1;
    }
  }

  /** The growth step keeps the block well formed. */
  lemma StartWithKeepsWellFormed(fs: Files, m: Matcher, p: string, st: BlockState)
    requires WellFormed(st) && (st.lines != [] ==> CanMoveUp(fs, st.lines[0]))
    ensures WellFormed(StartWith(fs, m, p, st))
  {
    if st.lines != [] && st.lines[0].index > 0 {
      var f := st.lines[0].file;
      var found := NearestAbove(fs, m, p, f, st.lines[0].index);
      if found.Some? {
        var v := FileValue(fs, f, found.value);
        InsertBeforeFirst(st.lines, v);
        AddKeepsWellFormed(st, v);
      }
    }
  }

  /** The same scan, but the first line is tested too: when it matches, it is
      `start` and nothing is added. */
  function StartWithInclusive(fs: Files, m: Matcher, p: string, st: BlockState): BlockState
    requires st.lines != [] ==> CanMoveUp(fs, st.lines[0])
  {
    if st.lines == [] then st
    else if m(p, st.lines[0].content) then st.(start := Some(st.lines[0].Loc()))
    else StartWith(fs, m, p, st)
  }

  /** With the first line tested, `start` is the nearest line at or above the
      first line whose text matches, and everything before it is unchanged. */
  lemma StartWithInclusiveNearest(fs: Files, m: Matcher, p: string, st: BlockState)
    requires WellFormed(st) && st.lines != [] && st.lines[0].file in fs
    requires st.lines[0].index <= |fs[st.lines[0].file]|
    ensures
      var r := StartWithInclusive(fs, m, p, st);
      var f, i := st.lines[0].file, st.lines[0].index;
      && WellFormed(r) && r.end == st.end
      && (m(p, st.lines[0].content) ==> r.start == Some(st.lines[0].Loc()) && r.lines == st.lines)
      && (!m(p, st.lines[0].content) ==> forall k: nat ::
            (k < i && r.start == Some(Location(f, k)) && r.lines == [FileValue(fs, f, k)] + st.lines)
            <==> NearestMatchAbove(fs, m, p, f, i, k))
  {
    var r := StartWithInclusive(fs, m, p, st);
    StartWithKeepsWellFormed(fs, m, p, st);
    if !m(p, st.lines[0].content) {
      forall k: nat
        ensures (k < st.lines[0].index && r.start == Some(Location(st.lines[0].file, k)) && r.lines == [FileValue(fs, st.lines[0].file, k)] + st.lines)
          <==> NearestMatchAbove(fs, m, p, st.lines[0].file, st.lines[0].index, k)
      {
        StartWithNearest(fs, m, p, st, k);
      }
    } else {
      assert st.lines[0] in st.lines;
    }
    if st.lines[0].index > 0 {
      var found := NearestAbove(fs, m, p, st.lines[0].file, st.lines[0].index);
      if found.Some? {
        InsertBeforeFirst(st.lines, FileValue(fs, st.lines[0].file, found.value));
      }
    }
  }

  // ---------------------------------------------------------------------
  // fill_start_until

  /** `fill_start_until` stops: the first line's own text matches, or a line
      below it does. */
  predicate FillEnds(fs: Files, m: Matcher, p: string, st: BlockState)
    requires st.lines != [] ==> st.lines[0].file in fs
  {
    || st.lines == []
    || m(p, st.lines[0].content)
    || FirstMatchFrom(fs, m, p, st.lines[0].file, st.lines[0].index + 1).Some?
  }

  /** Where the walk down from the first line stops. */
  function FillStop(fs: Files, m: Matcher, p: string, first: LineValue): (stop: nat)
    requires first.file in fs
    requires m(p, first.content) || FirstMatchFrom(fs, m, p, first.file, first.index + 1).Some?
    ensures first.index <= stop
    ensures stop > first.index ==> stop < |fs[first.file]| && LineMatches(fs, m, p, first.file, stop)
    ensures stop == first.index <==> m(p, first.content)
    ensures forall q :: first.index < q < stop ==> !LineMatches(fs, m, p, first.file, q)
  {
    if m(p, first.content) then first.index
    else FirstMatchFrom(fs, m, p, first.file, first.index + 1).value
  }

  /** Add fresh copies of the lines below the first line, up to line `hi - 1`. */
  function AddedBelow(fs: Files, st: BlockState, hi: nat): BlockState
    requires st.lines != [] && st.lines[0].file in fs
    requires st.lines[0].index + 1 < hi ==> hi <= |fs[st.lines[0].file]|
  {
    AddSpan(fs, st, st.lines[0].file, st.lines[0].index + 1, hi)
  }

  /** Add fresh copies of the lines below the first line, through line `stop`. */
  function FillTo(fs: Files, st: BlockState, stop: nat): BlockState
    requires st.lines != [] && st.lines[0].file in fs
    requires stop > st.lines[0].index ==> stop < |fs[st.lines[0].file]|
  {
    AddedBelow(fs, st, stop + 1)
  }

  /** A cursor walking down from the first line of `st`: on the first line
      itself, or on a line below it that it has read afresh from the file. */
  predicate Walking(fs: Files, st: BlockState, c: LineValue) {
    && st.lines != [] && st.lines[0].file in fs
    && c.file == st.lines[0].file && st.lines[0].index <= c.index
    && (c.index == st.lines[0].index ==> c == st.lines[0])
    && (c.index > st.lines[0].index ==> c.index < |fs[c.file]| && c == FileValue(fs, c.file, c.index))
  }

  /** One step of the cursor down the file, or none at the last line, keeps it walking. */
  lemma WalkStep(fs: Files, st: BlockState, c: LineValue, moved: bool, next: LineValue)
    requires Walking(fs, st, c)
    requires moved ==> c.index + 1 < |fs[c.file]| && next == FileValue(fs, c.file, c.index + 1)
    requires !moved ==> next == c
    ensures Walking(fs, st, next)
  {
  }

  /** Walking down from the first line, the cursor's text matches exactly at
      the stop line. */
  lemma FillStopAt(fs: Files, m: Matcher, p: string, st: BlockState, c: LineValue)
    requires Walking(fs, st, c)
    requires m(p, st.lines[0].content) || FirstMatchFrom(fs, m, p, st.lines[0].file, st.lines[0].index + 1).Some?
    requires c.index <= FillStop(fs, m, p, st.lines[0])
    ensures m(p, c.content) <==> c.index == FillStop(fs, m, p, st.lines[0])
  {
    if c.index > st.lines[0].index {
      assert m(p, c.content) == LineMatches(fs, m, p, c.file, c.index);
    }
  }

  /** One step of the walk down from the first line at `i`: adding the line the
      cursor shows at `c` (the first line itself when `c == i`) extends the run
      `i + 1 .. c - 1` to `i + 1 .. c`. */
  lemma FillStep(fs: Files, st: BlockState, c: nat, v: LineValue)
    requires Sorted(st.lines) && st.lines != [] && st.lines[0].file in fs
    requires st.lines[0].index <= c && (c > st.lines[0].index ==> c < |fs[st.lines[0].file]|)
    requires c == st.lines[0].index ==> v == st.lines[0]
    requires c > st.lines[0].index ==> v == FileValue(fs, st.lines[0].file, c)
    ensures AddTo(AddedBelow(fs, st, c), v) == AddedBelow(fs, st, c + 1)
  {
    var f, i := st.lines[0].file, st.lines[0].index;
    if c == i {
      AddSpanEmpty(fs, st, f, i + 1, c);
      AddSpanEmpty(fs, st, f, i + 1, c + 1);
      AddFirstAgain(st);
    } else {
      AddSpanStep(fs, st, f, i + 1, c);
    }
  }

  /** `fill_start_until(pattern)`: add every line from the first line down to the
      first line that matches. */
  function FillUntil(fs: Files, m: Matcher, p: string, st: BlockState): BlockState
    requires st.lines != [] ==> st.lines[0].file in fs
    requires FillEnds(fs, m, p, st)
  {
    if st.lines == [] then st else FillTo(fs, st, FillStop(fs, m, p, st.lines[0]))
  }

  /** Adding the run of lines `i + 1 .. stop` below a first line at `i` keeps the
      block well formed and leaves every line `i .. stop` in it. */
  lemma FillRange(fs: Files, st: BlockState, stop: nat)
    requires WellFormed(st) && st.lines != [] && st.lines[0].file in fs
    requires st.lines[0].index <= stop && (stop > st.lines[0].index ==> stop < |fs[st.lines[0].file]|)
    ensures
      var f, i := st.lines[0].file, st.lines[0].index;
      var r := FillTo(fs, st, stop);
      && WellFormed(r) && r.start == st.start && r.end == st.end
      && Locs(r.lines) == Locs(st.lines) + SpanLocs(f, i + 1, stop + 1)
      && (forall k :: i <= k <= stop ==> Location(f, k) in Locs(r.lines))
  {
    var f, i := st.lines[0].file, st.lines[0].index;
    AddSpanLocs(fs, st, f, i + 1, stop + 1);
    var r := AddSpan(fs, st, f, i + 1, stop + 1);
    assert FillTo(fs, st, stop) == r;
    assert st.lines[0] in st.lines;
    forall k | i <= k <= stop
      ensures Location(f, k) in Locs(r.lines)
    {
      if k > i {
        assert Location(f, k) in SpanLocs(f, i + 1, stop + 1);
      }
    }
  }

  /** The lines from the first line through the stop line are all there afterwards,
      nothing else is added, and `start` and `end` stay. */
  lemma FillUntilContiguous(fs: Files, m: Matcher, p: string, st: BlockState)
    requires WellFormed(st) && st.lines != [] && st.lines[0].file in fs
    requires FillEnds(fs, m, p, st)
    ensures
      var r := FillUntil(fs, m, p, st);
      var f, i := st.lines[0].file, st.lines[0].index;
      var stop := FillStop(fs, m, p, st.lines[0]);
      && WellFormed(r) && r.start == st.start && r.end == st.end
      && Locs(r.lines) == Locs(st.lines) + SpanLocs(f, i + 1, stop + 1)
      && (forall k :: i <= k <= stop ==> Location(f, k) in Locs(r.lines))
  {
    var stop := FillStop(fs, m, p, st.lines[0]);
    FillRange(fs, st, stop);
  }

  /** Where the walk stops when it also stops at the end of the file. */
  function FillStopOrEnd(fs: Files, m: Matcher, p: string, first: LineValue): (stop: nat)
    requires first.file in fs
    ensures first.index <= stop
    ensures stop > first.index ==> stop < |fs[first.file]|
    ensures stop > first.index ==> LineMatches(fs, m, p, first.file, stop) || stop == |fs[first.file]| - 1
    ensures forall q :: first.index < q < stop ==> !LineMatches(fs, m, p, first.file, q)
    ensures m(p, first.content) || FirstMatchFrom(fs, m, p, first.file, first.index + 1).Some?
      || stop == if first.index + 1 < |fs[first.file]| then |fs[first.file]| - 1 else first.index
  {
    if m(p, first.content) then first.index
    else match FirstMatchFrom(fs, m, p, first.file, first.index + 1)
      case Some(k) => k
      case None => if first.index + 1 < |fs[first.file]| then |fs[first.file]| - 1 else first.index
  }

  /** Walking down from the first line, the bounded walk stops exactly at its
      stop line: a cursor that does not match can move down exactly when it is
      above the stop line. */
  lemma FillStopOrEndAt(fs: Files, m: Matcher, p: string, st: BlockState, c: LineValue)
    requires Walking(fs, st, c) && c.index <= FillStopOrEnd(fs, m, p, st.lines[0])
    ensures m(p, c.content) ==> c.index == FillStopOrEnd(fs, m, p, st.lines[0])
    ensures !m(p, c.content) ==>
      (c.index < FillStopOrEnd(fs, m, p, st.lines[0]) <==> c.index + 1 < |fs[c.file]|)
  {
    if c.index > st.lines[0].index {
      assert m(p, c.content) == LineMatches(fs, m, p, c.file, c.index);
    }
  }

  /** `fill_start_until` that also stops at the last line of the file. */
  function FillUntilOrEnd(fs: Files, m: Matcher, p: string, st: BlockState): BlockState
    requires st.lines != [] ==> st.lines[0].file in fs
  {
    if st.lines == [] then st else FillTo(fs, st, FillStopOrEnd(fs, m, p, st.lines[0]))
  }

  /** Where the original walk ends, the bounded one does the same. */
  lemma FillUntilOrEndAgrees(fs: Files, m: Matcher, p: string, st: BlockState)
    requires st.lines != [] ==> st.lines[0].file in fs
    requires FillEnds(fs, m, p, st)
    ensures FillUntilOrEnd(fs, m, p, st) == FillUntil(fs, m, p, st)
  {
  }

  /** The bounded walk adds a contiguous run below the first line, ending at the
      first match or, failing one, at the last line of the file. */
  lemma FillUntilOrEndContiguous(fs: Files, m: Matcher, p: string, st: BlockState)
    requires WellFormed(st) && st.lines != [] && st.lines[0].file in fs
    ensures
      var r := FillUntilOrEnd(fs, m, p, st);
      var f, i := st.lines[0].file, st.lines[0].index;
      var stop := FillStopOrEnd(fs, m, p, st.lines[0]);
      && WellFormed(r) && r.start == st.start && r.end == st.end
      && Locs(r.lines) == Locs(st.lines) + SpanLocs(f, i + 1, stop + 1)
      && (forall k :: i <= k <= stop ==> Location(f, k) in Locs(r.lines))
  {
    var stop := FillStopOrEnd(fs, m, p, st.lines[0]);
    FillRange(fs, st, stop);
  }

  // ---------------------------------------------------------------------
  // add_end_with

  /** `add_end_with(pattern)`: walk down from the last line; add the first line
      that matches and make it `end`. */
  function EndWith(fs: Files, m: Matcher, p: string, st: BlockState): BlockState
    requires st.lines != [] ==> st.lines[|st.lines| - 1].file in fs
  {
    if st.lines == [] then st
    else
      var last := st.lines[|st.lines| - 1];
      match FirstMatchFrom(fs, m, p, last.file, last.index + 1)
      case None => st
      case Some(k) =>
        var ls := Insert(st.lines, FileValue(fs, last.file, k));
        BlockState(ls, st.start, Some(ls[|ls| - 1].Loc()))
  }

  /** `EndWith` once the scan below the last line has ended at `c`, or found nothing. */
  lemma EndWithScanned(fs: Files, m: Matcher, p: string, st: BlockState, found: bool, c: LineValue)
    requires st.lines != [] && st.lines[|st.lines| - 1].file in fs
    requires var last := st.lines[|st.lines| - 1];
      FirstMatchFrom(fs, m, p, last.file, last.index + 1) == if found then Some(c.index) else None
    requires found ==> c == FileValue(fs, st.lines[|st.lines| - 1].file, c.index)
    ensures var ls := Insert(st.lines, c);
      EndWith(fs, m, p, st) == if found then BlockState(ls, st.start, Some(ls[|ls| - 1].Loc())) else st
  {
  }

  /** Line `k` is the nearest line strictly below line `i` of file `f` that matches. */
  predicate NearestMatchBelow(fs: Files, m: Matcher, p: string, f: string, i: nat, k: nat)
    requires f in fs
  {
    && i < k < |fs[f]|
    && LineMatches(fs, m, p, f, k)
    && forall q :: i < q < k ==> !LineMatches(fs, m, p, f, q)
  }

  /** `add_end_with` keeps the block well formed and leaves `start` alone. */
  lemma EndWithKeepsWellFormed(fs: Files, m: Matcher, p: string, st: BlockState)
    requires WellFormed(st) && (st.lines != [] ==> st.lines[|st.lines| - 1].file in fs)
    ensures WellFormed(EndWith(fs, m, p, st)) && EndWith(fs, m, p, st).start == st.start
  {
    if st.lines != [] {
      var last := st.lines[|st.lines| - 1];
      var found := FirstMatchFrom(fs, m, p, last.file, last.index + 1);
      if found.Some? {
        var v := FileValue(fs, last.file, found.value);
        InsertAfterLast(st.lines, v);
        AddKeepsWellFormed(st, v);
      }
    }
  }

  /** Nothing changes exactly when no line below the last one matches. */
  lemma EndWithNoMatch(fs: Files, m: Matcher, p: string, st: BlockState)
    requires WellFormed(st) && st.lines != [] && st.lines[|st.lines| - 1].file in fs
    ensures var last := st.lines[|st.lines| - 1];
      EndWith(fs, m, p, st) == st <==>
      forall q :: last.index < q < |fs[last.file]| ==> !LineMatches(fs, m, p, last.file, q)
  {
    var last := st.lines[|st.lines| - 1];
    var found := FirstMatchFrom(fs, m, p, last.file, last.index + 1);
    if found.Some? {
      InsertAfterLast(st.lines, FileValue(fs, last.file, found.value));
      assert |EndWith(fs, m, p, st).lines| == |st.lines| + 1;
    }
  }

  /** When something is found, it is the nearest matching line below the last
      line: it is appended and becomes `end`. */
  lemma EndWithNearest(fs: Files, m: Matcher, p: string, st: BlockState, k: nat)
    requires WellFormed(st) && st.lines != [] && st.lines[|st.lines| - 1].file in fs
    ensures
      var last := st.lines[|st.lines| - 1];
      var r := EndWith(fs, m, p, st);
      (k < |fs[last.file]| && r.end == Some(Location(last.file, k)) && r.lines == st.lines + [FileValue(fs, last.file, k)])
      <==> NearestMatchBelow(fs, m, p, last.file, last.index, k)
  {
    var last := st.lines[|st.lines| - 1];
    var found := FirstMatchFrom(fs, m, p, last.file, last.index + 1);
    if found.Some? {
      InsertAfterLast(st.lines, FileValue(fs, last.file, found.value));
    } else {
      assert EndWith(fs, m, p, st) == st;
    }
  }

  // ---------------------------------------------------------------------
  // fill_full

  /** `fill_full` can read the file it walks. */
  predicate FillFullReads(fs: Files, st: BlockState) {
    (st.start.Some? && st.end.Some? && st.start.value.file == st.end.value.file
     && st.start.value.index + 1 < st.end.value.index)
    ==> st.start.value.file in fs
  }

  /** `fill_full()`: with `start` and `end` set and in the same file, add every
      line strictly between them that the file has. */
  function FillFull(fs: Files, st: BlockState): BlockState
    requires FillFullReads(fs, st)
  {
    if st.start.None? || st.end.None? || st.start.value.file != st.end.value.file then st
    else if st.start.value.index + 1 >= st.end.value.index then st
    else AddSpan(fs, st, st.start.value.file, st.start.value.index + 1, FillLimit(fs, st))
  }

  /** Where the walk of `fill_full` stops: at `end`, or at the end of the file. */
  function FillLimit(fs: Files, st: BlockState): (hi: nat)
    requires st.start.Some? && st.end.Some? && st.start.value.file in fs
    ensures hi <= st.end.value.index && hi <= |fs[st.start.value.file]|
    ensures hi == st.end.value.index || hi == |fs[st.start.value.file]|
  {
    if st.end.value.index < |fs[st.start.value.file]| then st.end.value.index else |fs[st.start.value.file]|
  }

  /** Where the walk of `fill_full` from `start` ends (the cursor at `c`, just
      above `end` or at the end of the file), the lines through `c` are the ones
      `FillFull` adds. */
  lemma FillFullEnds(fs: Files, st: BlockState, f: string, s: nat, e: nat, c: nat)
    requires st.start == Some(Location(f, s)) && st.end.Some? && st.end.value == Location(f, e)
    requires FillFullReads(fs, st)
    requires s <= c && (c > s ==> f in fs && c < |fs[f]| && c < e)
    requires c >= e - 1 || (f in fs && c + 1 >= |fs[f]|)
    ensures FillFull(fs, st) == if f in fs then AddSpan(fs, st, f, s + 1, c + 1) else st
  {
    if s + 1 >= e {
      assert FillFull(fs, st) == st;
      if f in fs {
        AddSpanEmpty(fs, st, f, s + 1, c + 1);
      }
    } else {
      FillFullWide(fs, st, c);
    }
  }

  /** `FillFullEnds` when there are lines between `start` and `end`. */
  lemma FillFullWide(fs: Files, st: BlockState, c: nat)
    requires st.start.Some? && st.end.Some? && st.start.value.file == st.end.value.file
    requires st.start.value.file in fs && st.start.value.index + 1 < st.end.value.index
    requires var f, s, e := st.start.value.file, st.start.value.index, st.end.value.index;
      && s <= c && (c > s ==> c < |fs[f]| && c < e) && (c >= e - 1 || c + 1 >= |fs[f]|)
    ensures FillFull(fs, st) == AddSpan(fs, st, st.start.value.file, st.start.value.index + 1, c + 1)
  {
    var f, s, e := st.start.value.file, st.start.value.index, st.end.value.index;
    var hi := FillLimit(fs, st);
    if c == s {
      AddSpanEmpty(fs, st, f, s + 1, hi);
      AddSpanEmpty(fs, st, f, s + 1, c + 1);
    } else {
      assert hi == c + 1;
    }
  }

  /** The lines strictly between `start` and `end` in their file (and in the file). */
  function Between(fs: Files, st: BlockState): set<Location>
    requires st.start.Some? && st.end.Some? && st.start.value.file in fs
  {
    var f := st.start.value.file;
    set k: nat | st.start.value.index < k < st.end.value.index && k < |fs[f]| :: Location(f, k)
  }

  lemma BetweenIsSpan(fs: Files, st: BlockState)
    requires st.start.Some? && st.end.Some? && st.start.value.file in fs
    ensures Between(fs, st) == SpanLocs(st.start.value.file, st.start.value.index + 1, FillLimit(fs, st))
  {
    var f, hi := st.start.value.file, FillLimit(fs, st);
    forall l | l in SpanLocs(f, st.start.value.index + 1, hi)
      ensures l in Between(fs, st)
    {
      var k: nat :| st.start.value.index + 1 <= k < hi && l == Location(f, k);
    }
  }

  /** With `start` and `end` set in one file, `fill_full` adds exactly the lines
      strictly between them. */
  lemma FillFullAdds(fs: Files, st: BlockState)
    requires WellFormed(st) && st.start.Some? && st.end.Some?
    requires st.start.value.file == st.end.value.file && st.start.value.file in fs
    ensures var r := FillFull(fs, st);
      WellFormed(r) && r.start == st.start && r.end == st.end && Locs(r.lines) == Locs(st.lines) + Between(fs, st)
  {
    FillFullIsSpan(fs, st);
    AddSpanLocs(fs, st, st.start.value.file, st.start.value.index + 1, FillLimit(fs, st));
    BetweenIsSpan(fs, st);
  }

  /** With `start` and `end` in one file, `fill_full` adds the run from just after
      `start` up to `end` or the end of the file, whichever comes first. */
  lemma FillFullIsSpan(fs: Files, st: BlockState)
    requires st.start.Some? && st.end.Some?
    requires st.start.value.file == st.end.value.file && st.start.value.file in fs
    ensures FillFull(fs, st) == AddSpan(fs, st, st.start.value.file, st.start.value.index + 1, FillLimit(fs, st))
  {
    if st.start.value.index + 1 >= st.end.value.index {
      AddSpanEmpty(fs, st, st.start.value.file, st.start.value.index + 1, FillLimit(fs, st));
    }
  }

  /** `fill_full` is a no-op unless `start` and `end` are set in one file; then it
      adds exactly the lines strictly between them, and keeps the block well formed. */
  lemma FillFullBetween(fs: Files, st: BlockState)
    requires WellFormed(st) && FillFullReads(fs, st)
    ensures var r := FillFull(fs, st);
      && WellFormed(r) && r.start == st.start && r.end == st.end
      && (st.start.None? || st.end.None? || st.start.value.file != st.end.value.file ==> r == st)
      && (st.start.Some? && st.end.Some? && st.start.value.file == st.end.value.file && st.start.value.file in fs
          ==> Locs(r.lines) == Locs(st.lines) + Between(fs, st))
  {
    if st.start.Some? && st.end.Some? && st.start.value.file == st.end.value.file {
      if st.start.value.file in fs {
        FillFullAdds(fs, st);
      }
    }
  }

  // ---------------------------------------------------------------------
  // What the primitives keep

  /** Adding a run read afresh from the file keeps every snapshot the block held. */
  lemma AddSpanKeepsLine(fs: Files, st: BlockState, f: string, lo: nat, hi: nat, v: LineValue)
    requires f in fs && (lo < hi ==> hi <= |fs[f]|) && v in st.lines
    ensures v in AddSpan(fs, st, f, lo, hi).lines
  {
    InsertAllKeepsHeld(st.lines, Span(fs, f, lo, hi), v);
  }

  /** `add_start_with`, in either form, keeps every snapshot the block held: the
      line it adds was read afresh and has no highlight. */
  lemma StartWithKeepsLine(fs: Files, m: Matcher, p: string, st: BlockState, v: LineValue)
    requires (st.lines != [] ==> CanMoveUp(fs, st.lines[0])) && v in st.lines
    ensures v in StartWith(fs, m, p, st).lines && v in StartWithInclusive(fs, m, p, st).lines
  {
    if st.lines[0].index > 0 {
      var found := NearestAbove(fs, m, p, st.lines[0].file, st.lines[0].index);
      if found.Some? {
        InsertKeepsHeld(st.lines, FileValue(fs, st.lines[0].file, found.value), v);
      }
    }
  }

  /** `fill_start_until`, in either form, keeps every snapshot the block held. */
  lemma FillKeepsLine(fs: Files, m: Matcher, p: string, st: BlockState, v: LineValue)
    requires (st.lines != [] ==> st.lines[0].file in fs) && v in st.lines
    ensures v in FillUntilOrEnd(fs, m, p, st).lines
    ensures FillEnds(fs, m, p, st) ==> v in FillUntil(fs, m, p, st).lines
  {
    var f, i := st.lines[0].file, st.lines[0].index;
    AddSpanKeepsLine(fs, st, f, i + 1, FillStopOrEnd(fs, m, p, st.lines[0]) + 1, v);
    if FillEnds(fs, m, p, st) {
      FillUntilOrEndAgrees(fs, m, p, st);
    }
  }

  /** `add_end_with` keeps every snapshot the block held. */
  lemma EndWithKeepsLine(fs: Files, m: Matcher, p: string, st: BlockState, v: LineValue)
    requires (st.lines != [] ==> st.lines[|st.lines| - 1].file in fs) && v in st.lines
    ensures v in EndWith(fs, m, p, st).lines
  {
    var last := st.lines[|st.lines| - 1];
    var found := FirstMatchFrom(fs, m, p, last.file, last.index + 1);
    if found.Some? {
      InsertKeepsHeld(st.lines, FileValue(fs, last.file, found.value), v);
    }
  }

  /** `fill_full` keeps every snapshot the block held. */
  lemma FillFullKeepsLine(fs: Files, st: BlockState, v: LineValue)
    requires FillFullReads(fs, st) && v in st.lines
    ensures v in FillFull(fs, st).lines
  {
    if st.start.Some? && st.end.Some? && st.start.value.file == st.end.value.file
       && st.start.value.index + 1 < st.end.value.index {
      AddSpanKeepsLine(fs, st, st.start.value.file, st.start.value.index + 1, FillLimit(fs, st), v);
    }
  }
}
