/**
 * `merge_lines(lines1, lines2)`: a two-pointer merge of two lists ordered by
 * `(file_name, index)`. A line present in both lists is kept as the `lines1`
 * object, which takes the `lines2` highlight when that one is truthy.
 */
module Merging {
  import opened Snapshots
  import opened Ordered
  import opened Lines

  /** No two snapshots share a location. */
  predicate DistinctLocs(vs: seq<LineValue>) {
    forall i, j :: 0 <= i < j < |vs| ==> vs[i].Loc() != vs[j].Loc()
  }

  /** How the objects of the two lists may be shared, given their snapshots
      `v1` and `v2` taken together: no object twice in `lines1`, and an object
      in both lists has the same snapshot in both. */
  ghost predicate Sharing(lines1: seq<Line>, lines2: seq<Line>, v1: seq<LineValue>, v2: seq<LineValue>) {
    && |lines1| == |v1| && |lines2| == |v2|
    && (forall a, b :: 0 <= a < b < |lines1| ==> lines1[a] != lines1[b])
    && (forall a, b :: 0 <= a < |lines1| && 0 <= b < |lines2| && lines1[a] == lines2[b] ==> v1[a] == v2[b])
  }

  lemma SharingOf(lines1: seq<Line>, lines2: seq<Line>)
    requires DistinctLocs(Values(lines1))
    ensures Sharing(lines1, lines2, Values(lines1), Values(lines2))
  {
    ValuesAt(lines1);
    ValuesAt(lines2);
    var v1 := Values(lines1);
    forall a, b | 0 <= a < b < |lines1|
      ensures lines1[a] != lines1[b]
    {
      assert v1[a].Loc() != v1[b].Loc();
    }
  }

  /** What the two-pointer loop keeps: `out` is the merge so far and, followed by
      the merge of what is left, gives the whole merge; the lines not yet
      visited still have their original snapshots; every line placed so far
      comes from a visited position, and every visited `lines1` line is placed. */
  ghost predicate Progress(lines1: seq<Line>, lines2: seq<Line>, v1: seq<LineValue>, v2: seq<LineValue>,
                           result: seq<Line>, out: seq<LineValue>, i: nat, j: nat)
    reads lines1, lines2, result
  {
    && i <= |lines1| == |v1| && j <= |lines2| == |v2|
    && out + MergeSpec(v1[i..], v2[j..]) == MergeSpec(v1, v2)
    && Values(result) == out
    && Values(lines1[i..]) == v1[i..]
    && Values(lines2) == v2
    && (forall x :: x in result ==> x in lines1[..i] || x in lines2[..j])
    && (forall k :: 0 <= k < i ==> lines1[k] in result)
  }

  /** The source replaces the contents of `lines1` with the merged list; here the
      merged list is returned. The `lines1` objects may have their highlight changed. */
  method MergeLines(lines1: seq<Line>, lines2: seq<Line>) returns (merged: seq<Line>)
    requires DistinctLocs(Values(lines1)) && DistinctLocs(Values(lines2))
    modifies lines1`highlight
    ensures Values(merged) == MergeSpec(old(Values(lines1)), old(Values(lines2)))
    ensures lines2 == [] ==> merged == lines1
    ensures lines1 == [] ==> merged == lines2
    ensures forall x :: x in lines1 ==> x in merged
    ensures forall x :: x in merged ==> x in lines1 || x in lines2
    ensures Values(lines2) == old(Values(lines2))
    ensures forall k :: 0 <= k < |lines1| ==>
      lines1[k].Value() == old(lines1[k].Value()).(highlight := lines1[k].highlight)
  {
    if lines2 == [] {
      return lines1;
    }
    if lines1 == [] {
      return lines2;
    }
    ghost var v1 := Values(lines1);
    ghost var v2 := Values(lines2);
    ValuesLength(lines1);
    ValuesLength(lines2);
    SharingOf(lines1, lines2);
    var result: seq<Line> := [];
    ghost var out: seq<LineValue> := [];
    var i, j := 0, 0;
    while i < |lines1| && j < |lines2|
      invariant Progress(lines1, lines2, v1, v2, result, out, i, j)
      decreases |lines1| - i + |lines2| - j
    {
      result, out, i, j := Step(lines1, lines2, v1, v2, result, out, i, j);
    }
    ghost var done := result;
    if i < |lines1| {
      result := result + lines1[i..];
    }
    if j < |lines2| {
      result := result + lines2[j..];
    }
    Finish(lines1, lines2, v1, v2, done, out, i, j, result);
    merged := result;
  }

  /** One round of the loop: place the earlier head, or merge the `lines2` head
      into the `lines1` head when they are the same line and place that. */
  method Step(lines1: seq<Line>, lines2: seq<Line>, ghost v1: seq<LineValue>, ghost v2: seq<LineValue>,
              result: seq<Line>, ghost out: seq<LineValue>, i: nat, j: nat)
    returns (result': seq<Line>, ghost out': seq<LineValue>, i': nat, j': nat)
    requires Progress(lines1, lines2, v1, v2, result, out, i, j)
    requires Sharing(lines1, lines2, v1, v2) && DistinctLocs(v2)
    requires i < |lines1| && j < |lines2|
    modifies lines1`highlight
    ensures Progress(lines1, lines2, v1, v2, result', out', i', j')
    ensures i <= i' && j <= j' && i + j < i' + j'
  {
    var line1 := lines1[i];
    var line2 := lines2[j];
    if LocLess(line1.Loc(), line2.Loc()) {
      StepFirst(lines1, lines2, v1, v2, result, out, i, j);
      return result + [line1], out + [v1[i]], i + 1, j;
    } else if LocLess(line2.Loc(), line1.Loc()) {
      StepSecond(lines1, lines2, v1, v2, result, out, i, j);
      return result + [line2], out + [v2[j]], i, j + 1;
    } else {
      MergeReady(lines1, lines2, v1, v2, result, out, i, j);
      label BeforeMerge:
      line1.Merge(line2);
      StepBoth@BeforeMerge(lines1, lines2, v1, v2, result, out, i, j);
      return result + [line1], out + [Merged(v1[i], v2[j])], i + 1, j + 1;
    }
  }

  /** The head of `lines1` is earlier: it is placed as it is. */
  lemma StepFirst(lines1: seq<Line>, lines2: seq<Line>, v1: seq<LineValue>, v2: seq<LineValue>,
                  result: seq<Line>, out: seq<LineValue>, i: nat, j: nat)
    requires Progress(lines1, lines2, v1, v2, result, out, i, j)
    requires i < |lines1| && j < |lines2| && LocLess(lines1[i].Loc(), lines2[j].Loc())
    ensures Progress(lines1, lines2, v1, v2, result + [lines1[i]], out + [v1[i]], i + 1, j)
  {
    ValuesAdvance(lines1, v1, i);
    ValuesIndex(lines2, v2, j);
    TakeSnoc(lines1, i);
    TakeFirst(v1, v2, i, j, out);
    ValuesSnoc(result, lines1[i]);
  }

  /** The head of `lines2` is earlier: it is placed as it is. */
  lemma StepSecond(lines1: seq<Line>, lines2: seq<Line>, v1: seq<LineValue>, v2: seq<LineValue>,
                   result: seq<Line>, out: seq<LineValue>, i: nat, j: nat)
    requires Progress(lines1, lines2, v1, v2, result, out, i, j)
    requires i < |lines1| && j < |lines2| && LocLess(lines2[j].Loc(), lines1[i].Loc())
    ensures Progress(lines1, lines2, v1, v2, result + [lines2[j]], out + [v2[j]], i, j + 1)
  {
    ValuesAdvance(lines1, v1, i);
    ValuesIndex(lines2, v2, j);
    TakeSnoc(lines2, j);
    TakeSecond(v1, v2, i, j, out);
    ValuesSnoc(result, lines2[j]);
  }

  /** Both heads are the same line. Before `merge`: the snapshots at the heads are
      the original ones, and the `lines1` head occurs nowhere else. */
  lemma MergeReady(lines1: seq<Line>, lines2: seq<Line>, v1: seq<LineValue>, v2: seq<LineValue>,
                   result: seq<Line>, out: seq<LineValue>, i: nat, j: nat)
    requires Progress(lines1, lines2, v1, v2, result, out, i, j)
    requires Sharing(lines1, lines2, v1, v2) && DistinctLocs(v2)
    requires i < |lines1| && j < |lines2|
    requires !LocLess(lines1[i].Loc(), lines2[j].Loc()) && !LocLess(lines2[j].Loc(), lines1[i].Loc())
    ensures lines1[i].Value() == v1[i] && lines2[j].Value() == v2[j]
    ensures Values(lines1[i + 1..]) == v1[i + 1..]
    ensures (out + [Merged(v1[i], v2[j])]) + MergeSpec(v1[i + 1..], v2[j + 1..]) == MergeSpec(v1, v2)
    ensures lines1[i] !in result && lines1[i] !in lines1[i + 1..]
    ensures forall k :: 0 <= k < |lines2| && k != j ==> lines2[k] != lines1[i]
    ensures forall x :: x in result + [lines1[i]] ==> x in lines1[..i + 1] || x in lines2[..j + 1]
    ensures forall k :: 0 <= k < i + 1 ==> lines1[k] in result + [lines1[i]]
  {
    ValuesAdvance(lines1, v1, i);
    ValuesIndex(lines2, v2, j);
    LocLessTrichotomy(lines1[i].Loc(), lines2[j].Loc());
    TakeBoth(v1, v2, i, j, out);
    NotAliasedElsewhere(lines1, lines2, v1, v2, result, i, j);
    TakeSnoc(lines1, i);
    TakeSnoc(lines2, j);
  }

  /** After `merge`, the merged `lines1` head is placed. */
  twostate lemma StepBoth(lines1: seq<Line>, new lines2: seq<Line>, new v1: seq<LineValue>, new v2: seq<LineValue>,
                          new result: seq<Line>, new out: seq<LineValue>, new i: nat, new j: nat)
    requires old(allocated(lines2)) && old(allocated(result))
    requires i < |lines1| == |v1| && j < |lines2| == |v2|
    requires Sharing(lines1, lines2, v1, v2)
    requires old(Values(result)) == out && old(Values(lines2)) == v2
    requires old(lines1[i].Value()) == v1[i] && old(lines2[j].Value()) == v2[j]
    requires old(Values(lines1[i + 1..])) == v1[i + 1..]
    requires (out + [Merged(v1[i], v2[j])]) + MergeSpec(v1[i + 1..], v2[j + 1..]) == MergeSpec(v1, v2)
    requires lines1[i] !in result && lines1[i] !in lines1[i + 1..]
    requires forall k :: 0 <= k < |lines2| && k != j ==> lines2[k] != lines1[i]
    requires forall x :: x in result + [lines1[i]] ==> x in lines1[..i + 1] || x in lines2[..j + 1]
    requires forall k :: 0 <= k < i + 1 ==> lines1[k] in result + [lines1[i]]
    requires lines1[i].Value() == Merged(old(lines1[i].Value()), old(lines2[j].Value()))
    requires forall x :: x in result && x != lines1[i] ==> x.Value() == old(x.Value())
    requires forall x :: x in lines1 && x != lines1[i] ==> x.Value() == old(x.Value())
    requires forall x :: x in lines2 && x != lines1[i] ==> x.Value() == old(x.Value())
    ensures Progress(lines1, lines2, v1, v2, result + [lines1[i]], out + [Merged(v1[i], v2[j])], i + 1, j + 1)
  {
    ValuesUnchanged(result);
    ValuesUnchanged(lines1[i + 1..]);
    forall k | 0 <= k < |lines2|
      ensures lines2[k].Value() == old(lines2[k].Value())
    {
      if k == j && lines2[j] == lines1[i] {
        assert v1[i] == v2[j];
      }
    }
    ValuesUnchanged(lines2);
    ValuesSnoc(result, lines1[i]);
    assert lines1[i + 1..] == lines1[i + 1..][0..];
  }

  lemma ValuesAdvance(ls: seq<Line>, vs: seq<LineValue>, i: nat)
    requires i < |ls| == |vs| && Values(ls[i..]) == vs[i..]
    ensures ls[i].Value() == vs[i] && Values(ls[i + 1..]) == vs[i + 1..]
  {
    assert ls[i..][1..] == ls[i + 1..];
    assert vs[i..] == [vs[i]] + vs[i + 1..];
  }

  lemma ValuesIndex(ls: seq<Line>, vs: seq<LineValue>, j: nat)
    requires j < |ls| == |vs| && Values(ls) == vs
    ensures ls[j].Value() == vs[j]
  {
    ValuesAt(ls);
  }

  /** The merge steps: the earlier head goes first; equal heads go out merged. */
  lemma TakeFirst(v1: seq<LineValue>, v2: seq<LineValue>, i: nat, j: nat, out: seq<LineValue>)
    requires i < |v1| && j < |v2| && LocLess(v1[i].Loc(), v2[j].Loc())
    ensures out + MergeSpec(v1[i..], v2[j..]) == (out + [v1[i]]) + MergeSpec(v1[i + 1..], v2[j..])
  {
    MergeSpecStep(v1, v2, i, j);
  }

  lemma TakeSecond(v1: seq<LineValue>, v2: seq<LineValue>, i: nat, j: nat, out: seq<LineValue>)
    requires i < |v1| && j < |v2| && LocLess(v2[j].Loc(), v1[i].Loc())
    ensures out + MergeSpec(v1[i..], v2[j..]) == (out + [v2[j]]) + MergeSpec(v1[i..], v2[j + 1..])
  {
    MergeSpecStep(v1, v2, i, j);
    LocLessIrreflexive(v1[i].Loc());
    if LocLess(v1[i].Loc(), v2[j].Loc()) {
      LocLessTransitive(v1[i].Loc(), v2[j].Loc(), v1[i].Loc());
    }
  }

  lemma TakeBoth(v1: seq<LineValue>, v2: seq<LineValue>, i: nat, j: nat, out: seq<LineValue>)
    requires i < |v1| && j < |v2| && v1[i].Loc() == v2[j].Loc()
    ensures out + MergeSpec(v1[i..], v2[j..]) ==
      (out + [Merged(v1[i], v2[j])]) + MergeSpec(v1[i + 1..], v2[j + 1..])
  {
    MergeSpecStep(v1, v2, i, j);
    LocLessIrreflexive(v1[i].Loc());
  }

  /** Once either list is used up, the rest of the other follows unchanged, and
      every line of `lines1` has been placed. */
  lemma Finish(lines1: seq<Line>, lines2: seq<Line>, v1: seq<LineValue>, v2: seq<LineValue>,
               done: seq<Line>, out: seq<LineValue>, i: nat, j: nat, result: seq<Line>)
    requires i <= |lines1| == |v1| && j <= |lines2| == |v2| && (i == |v1| || j == |v2|)
    requires out + MergeSpec(v1[i..], v2[j..]) == MergeSpec(v1, v2)
    requires Values(done) == out && Values(lines1[i..]) == v1[i..] && Values(lines2) == v2
    requires forall x :: x in done ==> x in lines1[..i] || x in lines2[..j]
    requires forall k :: 0 <= k < i ==> lines1[k] in done
    requires result == done + (if i < |lines1| then lines1[i..] else []) + (if j < |lines2| then lines2[j..] else [])
    ensures Values(result) == MergeSpec(v1, v2)
    ensures forall x :: x in lines1 ==> x in result
    ensures forall x :: x in result ==> x in lines1 || x in lines2
  {
    assert result == done + lines1[i..] + lines2[j..];
    FinishValues(lines1, lines2, v1, v2, done, out, i, j);
    FinishOrigins(lines1, lines2, done, i, j);
  }

  lemma FinishValues(lines1: seq<Line>, lines2: seq<Line>, v1: seq<LineValue>, v2: seq<LineValue>,
                     done: seq<Line>, out: seq<LineValue>, i: nat, j: nat)
    requires i <= |lines1| == |v1| && j <= |lines2| == |v2| && (i == |v1| || j == |v2|)
    requires out + MergeSpec(v1[i..], v2[j..]) == MergeSpec(v1, v2)
    requires Values(done) == out && Values(lines1[i..]) == v1[i..] && Values(lines2) == v2
    ensures Values(done + lines1[i..] + lines2[j..]) == MergeSpec(v1, v2)
  {
    ValuesDrop(lines2, j);
    TakeRest(v1, v2, i, j);
    ValuesAppend(done, lines1[i..]);
    ValuesAppend(done + lines1[i..], lines2[j..]);
  }

  /** Once either list is used up, the merge of what is left is the other's rest. */
  lemma TakeRest(v1: seq<LineValue>, v2: seq<LineValue>, i: nat, j: nat)
    requires i <= |v1| && j <= |v2| && (i == |v1| || j == |v2|)
    ensures MergeSpec(v1[i..], v2[j..]) == v1[i..] + v2[j..]
  {
  }

  lemma FinishOrigins<T>(lines1: seq<T>, lines2: seq<T>, done: seq<T>, i: nat, j: nat)
    requires i <= |lines1| && j <= |lines2|
    requires forall x :: x in done ==> x in lines1[..i] || x in lines2[..j]
    requires forall k :: 0 <= k < i ==> lines1[k] in done
    ensures forall x :: x in lines1 ==> x in done + lines1[i..] + lines2[j..]
    ensures forall x :: x in done + lines1[i..] + lines2[j..] ==> x in lines1 || x in lines2
  {
    var result := done + lines1[i..] + lines2[j..];
    forall x | x in lines1
      ensures x in result
    {
      var k :| 0 <= k < |lines1| && lines1[k] == x;
      if k >= i {
        assert x == lines1[i..][k - i];
      }
    }
    forall x | x in result
      ensures x in lines1 || x in lines2
    {
      if x in done {
        if x in lines1[..i] {
          InPart(lines1, 0, i, x);
        } else {
          InPart(lines2, 0, j, x);
        }
      } else if x in lines1[i..] {
        InPart(lines1, i, |lines1|, x);
      } else {
        InPart(lines2, j, |lines2|, x);
      }
    }
  }

  lemma InPart<T>(s: seq<T>, lo: nat, hi: nat, x: T)
    requires lo <= hi <= |s| && x in s[lo..hi]
    ensures x in s
  {
    var k :| 0 <= k < hi - lo && s[lo..hi][k] == x;
    assert s[lo + k] == x;
  }

  lemma TakeSnoc<T>(s: seq<T>, i: nat)
    requires i < |s|
    ensures s[..i + 1] == s[..i] + [s[i]]
  {
  }

  /** The `lines1` entry being merged is no other entry of either list and is not
      yet in the result, so merging it changes no other snapshot. */
  lemma NotAliasedElsewhere(lines1: seq<Line>, lines2: seq<Line>, v1: seq<LineValue>, v2: seq<LineValue>,
                             result: seq<Line>, i: nat, j: nat)
    requires Sharing(lines1, lines2, v1, v2) && DistinctLocs(v2)
    requires i < |lines1| && j < |lines2| && v1[i].Loc() == v2[j].Loc()
    requires forall x :: x in result ==> x in lines1[..i] || x in lines2[..j]
    ensures lines1[i] !in result && lines1[i] !in lines1[i + 1..]
    ensures forall k :: 0 <= k < |lines2| && k != j ==> lines2[k] != lines1[i]
  {
    forall k | 0 <= k < |lines2| && k != j
      ensures lines2[k] != lines1[i]
    {
    }
  }
}
