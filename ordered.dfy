/**
 * Ordered, location-unique sequences of line snapshots: the value-level
 * meaning of `Block.add` (sorted insertion that merges on an equal location)
 * and of `merge_lines` (two-pointer merge of two sorted lists).
 */
module Ordered {
  import opened Snapshots

  /** Strictly ascending by `(file_name, index)`, hence no two equal locations. */
  predicate Sorted(vs: seq<LineValue>) {
    forall i, j {:trigger LocLess(vs[i].Loc(), vs[j].Loc())} :: 0 <= i < j < |vs| ==> LocLess(vs[i].Loc(), vs[j].Loc())
  }

  function Locs(vs: seq<LineValue>): set<Location> {
    set v | v in vs :: v.Loc()
  }

  lemma LocsCons(v: LineValue, vs: seq<LineValue>)
    ensures Locs([v] + vs) == {v.Loc()} + Locs(vs)
  {
    assert forall w :: w in [v] + vs <==> w == v || w in vs;
  }

  /** The first snapshot at location `l`, if any. */
  function At(vs: seq<LineValue>, l: Location): (r: Option<LineValue>)
    ensures r.Some? <==> l in Locs(vs)
    ensures r.Some? ==> r.value in vs && r.value.Loc() == l
  {
    if vs == [] then None
    else if vs[0].Loc() == l then Some(vs[0])
    else At(vs[1..], l)
  }

  /** What one location holds after an incoming snapshot has been merged into it. */
  function Combine(existing: Option<LineValue>, incoming: Option<LineValue>): Option<LineValue> {
    match (existing, incoming)
    case (None, _) => incoming
    case (_, None) => existing
    case (Some(v), Some(w)) => Some(Merged(v, w))
  }

  /** `Block.add` on the snapshots of a sorted block. */
  function Insert(vs: seq<LineValue>, v: LineValue): (r: seq<LineValue>)
    ensures r != []
  {
    if vs == [] then [v]
    else if vs[0].Loc() == v.Loc() then [Merged(vs[0], v)] + vs[1..]
    else if LocLess(vs[0].Loc(), v.Loc()) then [vs[0]] + Insert(vs[1..], v)
    else [v] + vs
  }

  /** Repeated `Block.add`, in order. */
  function InsertAll(vs: seq<LineValue>, ws: seq<LineValue>): seq<LineValue>
    decreases |ws|
  {
    if ws == [] then vs else InsertAll(Insert(vs, ws[0]), ws[1..])
  }

  /** `merge_lines(a, b)`: the contents of `a` afterwards. */
  function MergeSpec(a: seq<LineValue>, b: seq<LineValue>): seq<LineValue>
    decreases |a| + |b|
  {
    if a == [] then b
    else if b == [] then a
    else if LocLess(a[0].Loc(), b[0].Loc()) then [a[0]] + MergeSpec(a[1..], b)
    else if LocLess(b[0].Loc(), a[0].Loc()) then [b[0]] + MergeSpec(a, b[1..])
    else [Merged(a[0], b[0])] + MergeSpec(a[1..], b[1..])
  }

  /** Adding a snapshot adds its location and no other. */
  lemma {:induction false} InsertLocs(vs: seq<LineValue>, v: LineValue)
    ensures Locs(Insert(vs, v)) == Locs(vs) + {v.Loc()}
  {
    if vs != [] {
      assert vs == [vs[0]] + vs[1..];
      LocsCons(vs[0], vs[1..]);
      if vs[0].Loc() == v.Loc() {
        LocsCons(Merged(vs[0], v), vs[1..]);
      } else if LocLess(vs[0].Loc(), v.Loc()) {
        InsertLocs(vs[1..], v);
        LocsCons(vs[0], Insert(vs[1..], v));
      } else {
        LocsCons(v, vs);
      }
    }
  }

  lemma {:induction false} InsertAllLocs(vs: seq<LineValue>, ws: seq<LineValue>)
    ensures Locs(InsertAll(vs, ws)) == Locs(vs) + Locs(ws)
    decreases |ws|
  {
    if ws != [] {
      InsertLocs(vs, ws[0]);
      InsertAllLocs(Insert(vs, ws[0]), ws[1..]);
      assert ws == [ws[0]] + ws[1..];
      LocsCons(ws[0], ws[1..]);
    }
  }

  /** `merge_lines` loses no location and invents none. */
  lemma {:induction false} MergeSpecLocs(a: seq<LineValue>, b: seq<LineValue>)
    ensures Locs(MergeSpec(a, b)) == Locs(a) + Locs(b)
    decreases |a| + |b|
  {
    if a != [] && b != [] {
      assert a == [a[0]] + a[1..] && b == [b[0]] + b[1..];
      LocsCons(a[0], a[1..]);
      LocsCons(b[0], b[1..]);
      if LocLess(a[0].Loc(), b[0].Loc()) {
        MergeSpecLocs(a[1..], b);
        LocsCons(a[0], MergeSpec(a[1..], b));
      } else if LocLess(b[0].Loc(), a[0].Loc()) {
        MergeSpecLocs(a, b[1..]);
        LocsCons(b[0], MergeSpec(a, b[1..]));
      } else {
        LocLessTrichotomy(a[0].Loc(), b[0].Loc());
        MergeSpecLocs(a[1..], b[1..]);
        LocsCons(Merged(a[0], b[0]), MergeSpec(a[1..], b[1..]));
      }
    }
  }

  // ---------------------------------------------------------------------
  // Helpers on sorted sequences

  lemma SortedTail(vs: seq<LineValue>)
    requires Sorted(vs) && vs != []
    ensures Sorted(vs[1..])
    ensures forall l :: l in Locs(vs[1..]) ==> LocLess(vs[0].Loc(), l)
  {
    forall l | l in Locs(vs[1..])
      ensures LocLess(vs[0].Loc(), l)
    {
      var v :| v in vs[1..] && v.Loc() == l;
      var k :| 0 <= k < |vs[1..]| && vs[1..][k] == v;
      assert vs[k + 1] == v;
    }
  }

  lemma SortedCons(v: LineValue, vs: seq<LineValue>)
    requires Sorted(vs)
    requires forall l :: l in Locs(vs) ==> LocLess(v.Loc(), l)
    ensures Sorted([v] + vs)
  {
    var r := [v] + vs;
    forall i, j | 0 <= i < j < |r|
      ensures LocLess(r[i].Loc(), r[j].Loc())
    {
      if i == 0 {
        assert r[j] == vs[j - 1];
        assert r[j].Loc() in Locs(vs);
      } else {
        assert r[i] == vs[i - 1] && r[j] == vs[j - 1];
      }
    }
  }

  /** Everything in a sorted sequence lies at or after its head. */
  lemma SortedHeadLeast(vs: seq<LineValue>, l: Location)
    requires Sorted(vs) && vs != []
    requires LocLess(l, vs[0].Loc())
    ensures l !in Locs(vs)
    ensures forall x :: x in Locs(vs) ==> LocLess(l, x)
  {
    forall x | x in Locs(vs)
      ensures LocLess(l, x)
    {
      var v :| v in vs && v.Loc() == x;
      var k :| 0 <= k < |vs| && vs[k] == v;
      if k > 0 {
        LocLessTransitive(l, vs[0].Loc(), x);
      }
    }
    if l in Locs(vs) {
      LocLessIrreflexive(l);
    }
  }

  // ---------------------------------------------------------------------
  // Block.add

  /** Adding keeps a block sorted; it grows by one exactly when the location is new. */
  lemma {:induction false} InsertSorted(vs: seq<LineValue>, v: LineValue)
    requires Sorted(vs)
    ensures Sorted(Insert(vs, v))
    ensures |Insert(vs, v)| == if v.Loc() in Locs(vs) then |vs| else |vs| + 1
  {
    if vs == [] {
    } else if vs[0].Loc() == v.Loc() {
      SortedTail(vs);
      SortedCons(Merged(vs[0], v), vs[1..]);
    } else if LocLess(vs[0].Loc(), v.Loc()) {
      SortedTail(vs);
      InsertSorted(vs[1..], v);
      InsertLocs(vs[1..], v);
      forall l | l in Locs(Insert(vs[1..], v))
        ensures LocLess(vs[0].Loc(), l)
      {
      }
      SortedCons(vs[0], Insert(vs[1..], v));
      assert v.Loc() in Locs(vs) <==> v.Loc() in Locs(vs[1..]) by {
        assert vs == [vs[0]] + vs[1..];
      }
    } else {
      LocLessTrichotomy(vs[0].Loc(), v.Loc());
      SortedHeadLeast(vs, v.Loc());
      SortedCons(v, vs);
    }
  }

  /** Adding a snapshot at a location the block holds merges only that entry's highlight. */
  lemma {:induction false} InsertMerges(vs: seq<LineValue>, v: LineValue, k: nat)
    requires Sorted(vs) && k < |vs| && vs[k].Loc() == v.Loc()
    ensures Insert(vs, v) == vs[k := Merged(vs[k], v)]
  {
    if k > 0 {
      assert LocLess(vs[0].Loc(), vs[k].Loc());
      LocLessIrreflexive(v.Loc());
      SortedTail(vs);
      InsertMerges(vs[1..], v, k - 1);
    }
  }

  /** Adding a snapshot at a new location inserts it at the point that keeps the order. */
  lemma SplitCons<T>(x: T, t: seq<T>, v: T, q: nat)
    requires q <= |t|
    ensures [x] + (t[..q] + [v] + t[q..]) == ([x] + t)[..q + 1] + [v] + ([x] + t)[q + 1..]
  {
    assert ([x] + t)[..q + 1] == [x] + t[..q];
    assert ([x] + t)[q + 1..] == t[q..];
  }

  lemma InsertPastHead(vs: seq<LineValue>, v: LineValue)
    requires vs != [] && LocLess(vs[0].Loc(), v.Loc())
    ensures Insert(vs, v) == [vs[0]] + Insert(vs[1..], v)
  {
    LocLessIrreflexive(v.Loc());
  }

  lemma {:induction false} InsertAtGap(vs: seq<LineValue>, v: LineValue, p: nat)
    requires Sorted(vs) && p <= |vs|
    requires forall i :: 0 <= i < p ==> LocLess(vs[i].Loc(), v.Loc())
    requires p < |vs| ==> LocLess(v.Loc(), vs[p].Loc())
    ensures Insert(vs, v) == vs[..p] + [v] + vs[p..]
  {
    LocLessIrreflexive(v.Loc());
    if p > 0 {
      var tail := vs[1..];
      SortedTail(vs);
      forall i | 0 <= i < p - 1
        ensures LocLess(tail[i].Loc(), v.Loc())
      {
        assert tail[i] == vs[i + 1];
      }
      InsertAtGap(tail, v, p - 1);
      InsertPastHead(vs, v);
      assert vs == [vs[0]] + tail;
      SplitCons(vs[0], tail, v, p - 1);
    } else if vs != [] {
      if LocLess(vs[0].Loc(), v.Loc()) {
        LocLessTransitive(v.Loc(), vs[0].Loc(), v.Loc());
      }
    }
  }

  /** The location-wise effect of `Block.add`: the new snapshot is merged in at its own location. */
  lemma {:induction false} InsertAt(vs: seq<LineValue>, v: LineValue, l: Location)
    requires Sorted(vs)
    ensures At(Insert(vs, v), l) == if l == v.Loc() then Combine(At(vs, l), Some(v)) else At(vs, l)
  {
    if vs == [] {
    } else if vs[0].Loc() == v.Loc() {
    } else if LocLess(vs[0].Loc(), v.Loc()) {
      SortedTail(vs);
      InsertAt(vs[1..], v, l);
    } else {
      LocLessTrichotomy(vs[0].Loc(), v.Loc());
      SortedHeadLeast(vs, v.Loc());
    }
  }

  lemma {:induction false} InsertAllSorted(vs: seq<LineValue>, ws: seq<LineValue>)
    requires Sorted(vs)
    ensures Sorted(InsertAll(vs, ws))
    decreases |ws|
  {
    if ws != [] {
      InsertSorted(vs, ws[0]);
      InsertAllSorted(Insert(vs, ws[0]), ws[1..]);
    }
  }

  /** Adding one more snapshot after a batch is the same as adding the longer batch. */
  lemma {:induction false} InsertAllSnoc(vs: seq<LineValue>, ws: seq<LineValue>, w: LineValue)
    ensures InsertAll(vs, ws + [w]) == Insert(InsertAll(vs, ws), w)
    decreases |ws|
  {
    if ws == [] {
      assert ws + [w] == [w];
    } else {
      assert (ws + [w])[1..] == ws[1..] + [w];
      InsertAllSnoc(Insert(vs, ws[0]), ws[1..], w);
    }
  }

  /** Adding a snapshot with no highlight keeps every snapshot already held: a
      merge with it leaves the held highlight as it is. */
  lemma {:induction false} InsertKeepsHeld(vs: seq<LineValue>, w: LineValue, v: LineValue)
    requires v in vs && !Truthy(w.highlight)
    ensures v in Insert(vs, w)
    decreases |vs|
  {
    if vs[0].Loc() == w.Loc() {
      assert Insert(vs, w) == vs;
    } else if LocLess(vs[0].Loc(), w.Loc()) && v != vs[0] {
      assert v in vs[1..];
      InsertKeepsHeld(vs[1..], w, v);
    }
  }

  /** The same for a batch of snapshots with no highlight. */
  lemma {:induction false} InsertAllKeepsHeld(vs: seq<LineValue>, ws: seq<LineValue>, v: LineValue)
    requires v in vs && forall i :: 0 <= i < |ws| ==> !Truthy(ws[i].highlight)
    ensures v in InsertAll(vs, ws)
    decreases |ws|
  {
    if ws != [] {
      InsertKeepsHeld(vs, ws[0], v);
      InsertAllKeepsHeld(Insert(vs, ws[0]), ws[1..], v);
    }
  }

  /** Adding a snapshot a sorted block already holds with the same highlight changes nothing. */
  lemma InsertPresent(vs: seq<LineValue>, k: nat)
    requires Sorted(vs) && k < |vs|
    ensures Insert(vs, vs[k]) == vs
  {
    InsertMerges(vs, vs[k], k);
  }

  /** In a sorted block, the snapshot found at a held location is the one held there. */
  lemma {:induction false} AtSorted(vs: seq<LineValue>, k: nat)
    requires Sorted(vs) && k < |vs|
    ensures At(vs, vs[k].Loc()) == Some(vs[k])
  {
    if k > 0 {
      assert LocLess(vs[0].Loc(), vs[k].Loc());
      LocLessIrreflexive(vs[0].Loc());
      SortedTail(vs);
      AtSorted(vs[1..], k - 1);
    }
  }

  /** A snapshot beyond every location of a sorted block is appended. */
  lemma InsertAfterLast(vs: seq<LineValue>, v: LineValue)
    requires Sorted(vs)
    requires vs != [] ==> LocLess(vs[|vs| - 1].Loc(), v.Loc())
    ensures Insert(vs, v) == vs + [v]
  {
    forall i | 0 <= i < |vs|
      ensures LocLess(vs[i].Loc(), v.Loc())
    {
      if i < |vs| - 1 {
        LocLessTransitive(vs[i].Loc(), vs[|vs| - 1].Loc(), v.Loc());
      }
    }
    InsertAtGap(vs, v, |vs|);
    assert vs[..|vs|] == vs;
  }

  /** A snapshot before every location of a sorted block is prepended. */
  lemma InsertBeforeFirst(vs: seq<LineValue>, v: LineValue)
    requires Sorted(vs)
    requires vs != [] ==> LocLess(v.Loc(), vs[0].Loc())
    ensures Insert(vs, v) == [v] + vs
  {
    InsertAtGap(vs, v, 0);
  }

  // ---------------------------------------------------------------------
  // merge_lines

  /** One step of the two-pointer merge, from positions `i` and `j`. */
  lemma MergeSpecStep(a: seq<LineValue>, b: seq<LineValue>, i: nat, j: nat)
    requires i < |a| && j < |b|
    ensures MergeSpec(a[i..], b[j..]) ==
      if LocLess(a[i].Loc(), b[j].Loc()) then [a[i]] + MergeSpec(a[i + 1..], b[j..])
      else if LocLess(b[j].Loc(), a[i].Loc()) then [b[j]] + MergeSpec(a[i..], b[j + 1..])
      else [Merged(a[i], b[j])] + MergeSpec(a[i + 1..], b[j + 1..])
  {
    assert a[i..][1..] == a[i + 1..];
    assert b[j..][1..] == b[j + 1..];
  }

  /** Merging two sorted lists gives a sorted list. */
  lemma {:induction false} MergeSpecSorted(a: seq<LineValue>, b: seq<LineValue>)
    requires Sorted(a) && Sorted(b)
    ensures Sorted(MergeSpec(a, b))
    decreases |a| + |b|
  {
    if a == [] || b == [] {
    } else if LocLess(a[0].Loc(), b[0].Loc()) {
      SortedTail(a);
      MergeSpecSorted(a[1..], b);
      MergeSpecLocs(a[1..], b);
      SortedHeadLeast(b, a[0].Loc());
      SortedCons(a[0], MergeSpec(a[1..], b));
    } else if LocLess(b[0].Loc(), a[0].Loc()) {
      SortedTail(b);
      MergeSpecSorted(a, b[1..]);
      MergeSpecLocs(a, b[1..]);
      SortedHeadLeast(a, b[0].Loc());
      SortedCons(b[0], MergeSpec(a, b[1..]));
    } else {
      LocLessTrichotomy(a[0].Loc(), b[0].Loc());
      SortedTail(a);
      SortedTail(b);
      MergeSpecSorted(a[1..], b[1..]);
      MergeSpecLocs(a[1..], b[1..]);
      SortedCons(Merged(a[0], b[0]), MergeSpec(a[1..], b[1..]));
    }
  }

  /** Location by location, `merge_lines` takes the union of both lists and merges on a shared location. */
  lemma {:induction false} MergeSpecAt(a: seq<LineValue>, b: seq<LineValue>, l: Location)
    requires Sorted(a) && Sorted(b)
    ensures At(MergeSpec(a, b), l) == Combine(At(a, l), At(b, l))
    decreases |a| + |b|
  {
    if a == [] || b == [] {
    } else if LocLess(a[0].Loc(), b[0].Loc()) {
      SortedTail(a);
      MergeSpecAt(a[1..], b, l);
      if l == a[0].Loc() {
        SortedHeadLeast(b, l);
      }
    } else if LocLess(b[0].Loc(), a[0].Loc()) {
      SortedTail(b);
      MergeSpecAt(a, b[1..], l);
      if l == b[0].Loc() {
        SortedHeadLeast(a, l);
      }
    } else {
      LocLessTrichotomy(a[0].Loc(), b[0].Loc());
      SortedTail(a);
      SortedTail(b);
      MergeSpecAt(a[1..], b[1..], l);
      if l == a[0].Loc() {
        LocLessIrreflexive(l);
      }
    }
  }
}
