/**
 * Values the line engine works with: a source location `(file_name, index)`,
 * a snapshot of a line (location, text and highlight pattern), the files the
 * engine reads, and the scans that look for the nearest line matching a pattern
 * above or below a given line.
 *
 * Files are a fixed map from file name to the list `readlines()` returns; a
 * pattern test is an opaque oracle `m(pattern, text)` standing for
 * `re.search(pattern, text) is not None`.
 */
module Snapshots {
  import opened Text

  datatype Option<T> = None | Some(value: T)

  /** File name -> its lines as read, each still carrying its line terminator. */
  type Files = map<string, seq<string>>

  /** `m(pattern, text)` holds when the regular expression `pattern` is found in `text`. */
  type Matcher = (string, string) -> bool

  /** A source location: file name and zero-based line index. */
  datatype Location = Location(file: string, index: nat)

  /** Python's tuple order on `(file_name, index)`. */
  predicate LocLess(a: Location, b: Location) {
    LexLess(a.file, b.file) || (a.file == b.file && a.index < b.index)
  }

  lemma LocLessIrreflexive(a: Location)
    ensures !LocLess(a, a)
  {
    LexLessIrreflexive(a.file);
  }

  lemma LocLessTransitive(a: Location, b: Location, c: Location)
    requires LocLess(a, b) && LocLess(b, c)
    ensures LocLess(a, c)
  {
    if LexLess(a.file, b.file) && LexLess(b.file, c.file) {
      LexLessTransitive(a.file, b.file, c.file);
    }
  }

  lemma LocLessTotal(a: Location, b: Location)
    requires a != b
    ensures LocLess(a, b) || LocLess(b, a)
  {
    if a.file != b.file {
      LexLessTotal(a.file, b.file);
    }
  }

  lemma LocLessTrichotomy(a: Location, b: Location)
    ensures a == b || LocLess(a, b) || LocLess(b, a)
  {
    if a != b {
      LocLessTotal(a, b);
    }
  }

  /** The state of one `Line` object at one moment. */
  datatype LineValue = LineValue(file: string, index: nat, content: string, highlight: Option<string>)
  {
    function Loc(): Location {
      Location(file, index)
    }
  }

  /** Python truthiness of a highlight: `None` and `""` are false. */
  predicate Truthy(h: Option<string>) {
    h.Some? && h.value != ""
  }

  /** `Line.merge`: the incoming highlight wins when it is truthy. */
  function Merged(v: LineValue, incoming: LineValue): LineValue {
    if Truthy(incoming.highlight) then v.(highlight := incoming.highlight) else v
  }

  predicate HasLine(fs: Files, f: string, i: nat) {
    f in fs && i < |fs[f]|
  }

  /** The text a cursor shows at line `i`: the file's line, right-stripped. */
  function FileLine(fs: Files, f: string, i: nat): string
    requires HasLine(fs, f, i)
  {
    RStrip(fs[f][i])
  }

  /** A snapshot freshly read from the file, as after `move_up`/`move_down`. */
  function FileValue(fs: Files, f: string, i: nat): LineValue
    requires HasLine(fs, f, i)
  {
    LineValue(f, i, FileLine(fs, f, i), None)
  }

  predicate LineMatches(fs: Files, m: Matcher, pattern: string, f: string, i: nat)
    requires HasLine(fs, f, i)
  {
    m(pattern, FileLine(fs, f, i))
  }

  /** The nearest line strictly above line `i` that matches `pattern`. */
  function NearestAbove(fs: Files, m: Matcher, pattern: string, f: string, i: nat): (r: Option<nat>)
    requires f in fs && i <= |fs[f]|
    ensures r.Some? ==> r.value < i && LineMatches(fs, m, pattern, f, r.value)
    ensures r.Some? ==> forall k :: r.value < k < i ==> !LineMatches(fs, m, pattern, f, k)
    ensures r.None? ==> forall k :: 0 <= k < i ==> !LineMatches(fs, m, pattern, f, k)
  {
    if i == 0 then None
    else if LineMatches(fs, m, pattern, f, i - 1) then Some(i - 1)
    else NearestAbove(fs, m, pattern, f, i - 1)
  }

  /** The first line at or below line `i` that matches `pattern`. */
  function FirstMatchFrom(fs: Files, m: Matcher, pattern: string, f: string, i: nat): (r: Option<nat>)
    requires f in fs
    ensures r.Some? ==> i <= r.value < |fs[f]| && LineMatches(fs, m, pattern, f, r.value)
    ensures r.Some? ==> forall k :: i <= k < r.value ==> !LineMatches(fs, m, pattern, f, k)
    ensures r.None? ==> forall k :: i <= k < |fs[f]| ==> !LineMatches(fs, m, pattern, f, k)
    decreases |fs[f]| - i
  {
    if i >= |fs[f]| then None
    else if LineMatches(fs, m, pattern, f, i) then Some(i)
    else FirstMatchFrom(fs, m, pattern, f, i + 1)
  }

  /** A matching line with no match between it and line `i` is the nearest above. */
  lemma {:induction false} NearestAboveIs(fs: Files, m: Matcher, pattern: string, f: string, i: nat, k: nat)
    requires f in fs && k < i <= |fs[f]| && LineMatches(fs, m, pattern, f, k)
    requires forall q :: k < q < i ==> !LineMatches(fs, m, pattern, f, q)
    ensures NearestAbove(fs, m, pattern, f, i) == Some(k)
  {
    if k < i - 1 {
      NearestAboveIs(fs, m, pattern, f, i - 1, k);
    }
  }

  /** A matching line with no match between line `i` and it is the first from `i`. */
  lemma {:induction false} FirstMatchFromIs(fs: Files, m: Matcher, pattern: string, f: string, i: nat, k: nat)
    requires f in fs && i <= k < |fs[f]| && LineMatches(fs, m, pattern, f, k)
    requires forall q :: i <= q < k ==> !LineMatches(fs, m, pattern, f, q)
    ensures FirstMatchFrom(fs, m, pattern, f, i) == Some(k)
    decreases k - i
  {
    if i < k {
      FirstMatchFromIs(fs, m, pattern, f, i + 1, k);
    }
  }

  /** Fresh snapshots of lines `lo .. hi-1` of file `f`, in order. */
  function Span(fs: Files, f: string, lo: nat, hi: nat): (r: seq<LineValue>)
    requires f in fs && (lo < hi ==> hi <= |fs[f]|)
    ensures |r| == if lo < hi then hi - lo else 0
    ensures forall k :: 0 <= k < |r| ==> r[k] == FileValue(fs, f, lo + k)
    decreases hi
  {
    if lo >= hi then [] else Span(fs, f, lo, hi - 1) + [FileValue(fs, f, hi - 1)]
  }

  /** The locations `Span(fs, f, lo, hi)` covers. */
  function SpanLocs(f: string, lo: nat, hi: nat): set<Location> {
    set k: nat | lo <= k < hi :: Location(f, k)
  }
}
