/**
 * `Line`: a cursor on one line of one file. It carries the file name, a
 * zero-based index, the line's text and an optional highlight pattern; two
 * lines are the same line when they share file name and index. Moving the
 * cursor re-reads the text from the file and drops the highlight.
 */
module Lines {
  import opened Text
  import opened Snapshots

  class Line {
    const fileName: string
    var index: nat
    var content: string
    var highlight: Option<string>

    constructor (fileName: string, index: nat, content: string, highlight: Option<string>)
      ensures Value() == LineValue(fileName, index, content, highlight)
    {
      this.fileName := fileName;
      this.index := index;
      this.content := content;
      this.highlight := highlight;
    }

    function Loc(): Location
      reads this`index
    {
      Location(fileName, index)
    }

    /** The snapshot of this object's current state. */
    function Value(): LineValue
      reads this
    {
      LineValue(fileName, index, content, highlight)
    }

    method Clone() returns (c: Line)
      ensures fresh(c) && c.Value() == Value()
    {
      c := new Line(fileName, index, content, highlight);
    }

    /** `__eq__`: equal lines are exactly those that neither precede the other
        in the `(file_name, index)` order that blocks and merges sort by. */
    predicate Equals(other: Line)
      reads this, other
      ensures Equals(other) <==> !LocLess(Loc(), other.Loc()) && !LocLess(other.Loc(), Loc())
    {
      LocLessTrichotomy(Loc(), other.Loc());
      LocLessIrreflexive(Loc());
      fileName == other.fileName && index == other.index
    }

    /** `match`: the pattern is found in the current text. */
    predicate Match(m: Matcher, pattern: string)
      reads this
    {
      m(pattern, content)
    }

    /** `move_up`: refuses at the first line; otherwise steps up one line of the
        same file, re-reads its text and clears the highlight. */
    method MoveUp(fs: Files) returns (moved: bool)
      requires index == 0 || (fileName in fs && index <= |fs[fileName]|)
      modifies this
      ensures moved <==> old(index) > 0
      ensures moved ==> Value() == FileValue(fs, fileName, old(index) - 1)
      ensures !moved ==> Value() == old(Value())
    {
      if index == 0 {
        return false;
      }
      var lines := fs[fileName];
      index := index - 1;
      highlight := None;
      content := RStrip(lines[index]);
      return true;
    }

    /** `move_down`: refuses at the last line; otherwise steps down one line of
        the same file, re-reads its text and clears the highlight. */
    method MoveDown(fs: Files) returns (moved: bool)
      requires fileName in fs
      modifies this
      ensures moved <==> old(index) + 1 < |fs[fileName]|
      ensures moved ==> Value() == FileValue(fs, fileName, old(index) + 1)
      ensures !moved ==> Value() == old(Value())
    {
      var lines := fs[fileName];
      if index + 1 >= |lines| {
        return false;
      }
      index := index + 1;
      highlight := None;
      content := RStrip(lines[index]);
      return true;
    }

    /** `merge`: take the other line's highlight when it is truthy. */
    method Merge(other: Line)
      modifies this`highlight
      ensures Value() == Merged(old(Value()), old(other.Value()))
    {
      if Truthy(other.highlight) {
        highlight := other.highlight;
      }
    }
  }

  /** A line object showing a line of a file as read from the file matches a
      pattern exactly when that file line does: `match` on a cursor is the test
      the scans of `Block` apply to the file. */
  lemma MatchFileLine(l: Line, fs: Files, m: Matcher, p: string)
    requires HasLine(fs, l.fileName, l.index) && l.Value() == FileValue(fs, l.fileName, l.index)
    ensures l.Match(m, p) <==> LineMatches(fs, m, p, l.fileName, l.index)
  {
  }

  /** The snapshots of a list of lines, in order. */
  ghost function Values(ls: seq<Line>): seq<LineValue>
    reads ls
  {
    if ls == [] then [] else [ls[0].Value()] + Values(ls[1..])
  }

  lemma {:induction false} ValuesLength(ls: seq<Line>)
    ensures |Values(ls)| == |ls|
  {
    if ls != [] {
      ValuesLength(ls[1..]);
    }
  }

  lemma ValuesHead(ls: seq<Line>)
    requires ls != []
    ensures |Values(ls)| == |ls| && Values(ls)[0] == ls[0].Value()
  {
    ValuesLength(ls);
  }

  lemma ValuesLast(ls: seq<Line>)
    requires ls != []
    ensures |Values(ls)| == |ls| && Values(ls)[|ls| - 1] == ls[|ls| - 1].Value()
  {
    ValuesAt(ls);
  }

  lemma {:induction false} ValuesAt(ls: seq<Line>)
    ensures |Values(ls)| == |ls|
    ensures forall i :: 0 <= i < |ls| ==> Values(ls)[i] == ls[i].Value()
  {
    if ls != [] {
      ValuesAt(ls[1..]);
    }
  }

  lemma {:induction false} ValuesDrop(ls: seq<Line>, k: nat)
    requires k <= |ls|
    ensures |Values(ls)| == |ls| && Values(ls[k..]) == Values(ls)[k..]
  {
    ValuesAt(ls);
    ValuesAt(ls[k..]);
  }

  /** `ValuesAt` in the earlier of two states. */
  twostate lemma {:induction false} OldValuesAt(ls: seq<Line>)
    ensures |old(Values(ls))| == |ls|
    ensures forall i :: 0 <= i < |ls| ==> old(Values(ls))[i] == old(ls[i].Value())
  {
    if ls != [] {
      OldValuesAt(ls[1..]);
    }
  }

  /** Lines whose snapshots did not change between two states have the same list of snapshots. */
  twostate lemma {:induction false} ValuesUnchanged(ls: seq<Line>)
    requires forall k :: 0 <= k < |ls| ==> ls[k].Value() == old(ls[k].Value())
    ensures Values(ls) == old(Values(ls))
  {
    if ls != [] {
      ValuesUnchanged(ls[1..]);
    }
  }

  lemma ValuesSnoc(ls: seq<Line>, l: Line)
    ensures Values(ls + [l]) == Values(ls) + [l.Value()]
  {
    ValuesAppend(ls, [l]);
  }

  lemma {:induction false} ValuesAppend(a: seq<Line>, b: seq<Line>)
    ensures Values(a + b) == Values(a) + Values(b)
  {
    if a != [] {
      ValuesAppend(a[1..], b);
      assert (a + b)[1..] == a[1..] + b;
    } else {
      assert a + b == b;
    }
  }

  lemma {:induction false} ValuesTake(ls: seq<Line>, k: nat)
    requires k <= |ls|
    ensures |Values(ls)| == |ls| && Values(ls[..k]) == Values(ls)[..k]
  {
    ValuesAt(ls);
    ValuesAt(ls[..k]);
  }

  /** Inserting an object at position `p` inserts its snapshot at `p`. */
  lemma ValuesInsert(ls: seq<Line>, p: nat, l: Line)
    requires p <= |ls|
    ensures |Values(ls)| == |ls|
    ensures Values(ls[..p] + [l] + ls[p..]) == Values(ls)[..p] + [l.Value()] + Values(ls)[p..]
  {
    ValuesTake(ls, p);
    ValuesDrop(ls, p);
    ValuesSnoc(ls[..p], l);
    ValuesAppend(ls[..p] + [l], ls[p..]);
  }
}
