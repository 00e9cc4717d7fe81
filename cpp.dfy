/**
 * The C/C++ recipes: from one line (typically a `grep` hit) find the
 * definition it belongs to. A `#define` line yields the macro with its
 * backslash-continued lines; any other line that is neither a call
 * statement nor a control statement yields the enclosing
 * `typedef`/`enum`/`struct`/`class` declaration.
 *
 * The recipes are given twice at the value level: `DefineBlockAsWritten`
 * follows the original recipe step by step, including the paths where it
 * raises or never returns, and `DefineBlock` is the recipe with those
 * defects repaired. The methods `GetDefineMacro` and `GetDefineBlock` run
 * the `Block` primitives and are proved to build exactly `DefineBlock`.
 */
module Cpp {
  import opened Text
  import opened Snapshots
  import opened Ordered
  import opened Lines
  import opened BlockSpec
  import opened Blocks

  /** The language tag the recipes give their blocks. */
  const CppLang: string := "Cpp"

  /** Start of a declaration: a `typedef`, `enum`, `struct` or `class` line not ending in `;`. */
  const DeclPattern: string := "^\\s*(typedef|enum|struct|class)\\b.*[^;]$"
  /** The line that opens the declaration's body. */
  const OpenBrace: string := "{"
  /** The line that closes the declaration: indented, with `}` and then `;`. */
  const EndPattern: string := "^\\s.*}.*;"
  /** A macro definition line. */
  const DefinePattern: string := "#define"
  /** A line that does not continue on the next one (no trailing backslash). */
  const ContinuationEnd: string := "[^\\\\]$"
  /** A call statement: parentheses followed by `;`. */
  const CallPattern: string := "\\(.*\\).*;"
  /** A control statement keyword. */
  const ControlPattern: string := "\\b(else|if|switch|do|while)\\b"

  /** `_is_define_syntax`: the line is neither a call statement nor a control statement. */
  predicate IsDefineSyntax(m: Matcher, content: string) {
    !m(CallPattern, content) && !m(ControlPattern, content)
  }

  /** A seed line the recipes can start from: its file is known and it is at
      most one past the file's last line. */
  predicate Readable(fs: Files, seed: LineValue) {
    seed.file in fs && seed.index <= |fs[seed.file]|
  }

  /** Every line of the block is in file `f`. */
  predicate InFile(st: BlockState, f: string) {
    forall l :: l in Locs(st.lines) ==> l.file == f
  }

  /** A block grown from `seed`: well formed, in the seed's (known) file, and
      holding the seed's location. */
  predicate Grown(fs: Files, st: BlockState, seed: LineValue) {
    && WellFormed(st) && seed.file in fs && InFile(st, seed.file)
    && seed.Loc() in Locs(st.lines)
    && st.lines != [] && st.lines[0].file == seed.file && st.lines[|st.lines| - 1].file == seed.file
  }

  // ---------------------------------------------------------------------
  // What each step keeps

  /** A well-formed block in the seed's file that holds the seed is grown from it. */
  lemma GrownOf(fs: Files, st: BlockState, seed: LineValue)
    requires WellFormed(st) && seed.file in fs && InFile(st, seed.file) && seed.Loc() in Locs(st.lines)
    ensures Grown(fs, st, seed) && FillFullReads(fs, st)
  {
    var v :| v in st.lines && v.Loc() == seed.Loc();
    assert st.lines[0] in st.lines && st.lines[0].Loc() in Locs(st.lines);
    assert st.lines[|st.lines| - 1] in st.lines && st.lines[|st.lines| - 1].Loc() in Locs(st.lines);
  }

  lemma InitGrown(fs: Files, seed: LineValue)
    requires Readable(fs, seed)
    ensures Grown(fs, Init(Some(seed)), seed) && Init(Some(seed)).lines == [seed]
  {
    InitHolds(Some(seed));
    assert seed in [seed];
    assert Locs([seed]) == {seed.Loc()};
    GrownOf(fs, Init(Some(seed)), seed);
  }

  /** The scan up from the seed (the seed itself not tested) keeps the block grown. */
  lemma StartWithGrown(fs: Files, m: Matcher, p: string, seed: LineValue)
    requires Readable(fs, seed)
    ensures Grown(fs, StartWith(fs, m, p, Init(Some(seed))), seed)
    ensures StartWith(fs, m, p, Init(Some(seed))).end == None
  {
    var st := Init(Some(seed));
    InitGrown(fs, seed);
    StartWithKeepsWellFormed(fs, m, p, st);
    if seed.index > 0 {
      var found := NearestAbove(fs, m, p, seed.file, seed.index);
      if found.Some? {
        InsertLocs(st.lines, FileValue(fs, seed.file, found.value));
      }
    }
    GrownOf(fs, StartWith(fs, m, p, st), seed);
  }

  /** The scan up from the seed, the seed itself tested first, keeps the block grown. */
  lemma StartWithInclusiveGrown(fs: Files, m: Matcher, p: string, seed: LineValue)
    requires Readable(fs, seed)
    ensures Grown(fs, StartWithInclusive(fs, m, p, Init(Some(seed))), seed)
    ensures StartWithInclusive(fs, m, p, Init(Some(seed))).end == None
  {
    InitGrown(fs, seed);
    if !m(p, seed.content) {
      StartWithGrown(fs, m, p, seed);
    } else {
      assert seed in Init(Some(seed)).lines;
      GrownOf(fs, StartWithInclusive(fs, m, p, Init(Some(seed))), seed);
    }
  }

  lemma FillUntilOrEndGrown(fs: Files, m: Matcher, p: string, st: BlockState, seed: LineValue)
    requires Grown(fs, st, seed)
    ensures Grown(fs, FillUntilOrEnd(fs, m, p, st), seed)
    ensures FillUntilOrEnd(fs, m, p, st).start == st.start && FillUntilOrEnd(fs, m, p, st).end == st.end
  {
    FillUntilOrEndContiguous(fs, m, p, st);
    GrownOf(fs, FillUntilOrEnd(fs, m, p, st), seed);
  }

  lemma FillUntilGrown(fs: Files, m: Matcher, p: string, st: BlockState, seed: LineValue)
    requires Grown(fs, st, seed)
    requires FillEnds(fs, m, p, st)
    ensures Grown(fs, FillUntil(fs, m, p, st), seed)
    ensures FillUntil(fs, m, p, st).start == st.start && FillUntil(fs, m, p, st).end == st.end
  {
    FillUntilContiguous(fs, m, p, st);
    GrownOf(fs, FillUntil(fs, m, p, st), seed);
  }

  lemma EndWithGrown(fs: Files, m: Matcher, p: string, st: BlockState, seed: LineValue)
    requires Grown(fs, st, seed)
    ensures Grown(fs, EndWith(fs, m, p, st), seed)
    ensures EndWith(fs, m, p, st).start == st.start
  {
    EndWithKeepsWellFormed(fs, m, p, st);
    var last := st.lines[|st.lines| - 1];
    var found := FirstMatchFrom(fs, m, p, last.file, last.index + 1);
    if found.Some? {
      InsertLocs(st.lines, FileValue(fs, last.file, found.value));
    }
    GrownOf(fs, EndWith(fs, m, p, st), seed);
  }

  lemma FillFullGrown(fs: Files, st: BlockState, seed: LineValue)
    requires Grown(fs, st, seed)
    ensures Grown(fs, FillFull(fs, st), seed)
    ensures FillFull(fs, st).start == st.start && FillFull(fs, st).end == st.end
    ensures st.start.Some? && st.end.Some? ==> Locs(FillFull(fs, st).lines) == Locs(st.lines) + Between(fs, st)
  {
    GrownOf(fs, st, seed);
    FillFullBetween(fs, st);
    GrownOf(fs, FillFull(fs, st), seed);
  }

  // ---------------------------------------------------------------------
  // The recipes as written

  /** How a recipe as written ends: no block, a block, an exception, or a loop
      that never returns. */
  datatype Outcome = Rejected | Built(block: BlockState) | Crashes | LoopsForever

  /** `get_define_macro` as written: scan up from the line above the seed for
      `#define`, then walk down to the first line without a trailing backslash;
      that walk never returns when no such line exists down to the end of the file. */
  function DefineMacroAsWritten(fs: Files, m: Matcher, seed: LineValue): (r: Outcome)
    requires Readable(fs, seed)
    ensures r.Built? ==> Grown(fs, r.block, seed)
  {
    StartWithGrown(fs, m, DefinePattern, seed);
    var st1 := StartWith(fs, m, DefinePattern, Init(Some(seed)));
    if !FillEnds(fs, m, ContinuationEnd, st1) then LoopsForever
    else
      FillUntilGrown(fs, m, ContinuationEnd, st1, seed);
      Built(FillUntil(fs, m, ContinuationEnd, st1))
  }

  /** `get_define_block` as written. The comparison `line == blk.end` raises
      when no end line was found, because `Line.__eq__` reads the fields of
      `None`. */
  function DefineBlockAsWritten(fs: Files, m: Matcher, seed: LineValue): (r: Outcome)
    requires Readable(fs, seed)
    ensures r.Built? ==> Grown(fs, r.block, seed)
  {
    if !IsDefineSyntax(m, seed.content) then Rejected
    else if StartsWith(seed.content, DefinePattern) then DefineMacroAsWritten(fs, m, seed)
    else
      StartWithGrown(fs, m, DeclPattern, seed);
      var st1 := StartWith(fs, m, DeclPattern, Init(Some(seed)));
      if st1.start.None? || Contains(LineAt(st1, st1.start.value).content, "=") then Rejected
      else DeclarationAsWritten(fs, m, seed, st1)
  }

  /** The rest of `get_define_block` as written once `start` is found. */
  function DeclarationAsWritten(fs: Files, m: Matcher, seed: LineValue, st1: BlockState): (r: Outcome)
    requires Grown(fs, st1, seed) && st1.start.Some?
    ensures r.Built? ==> Grown(fs, r.block, seed) && r.block.start == st1.start
  {
    if !FillEnds(fs, m, OpenBrace, st1) then LoopsForever
    else
      FillUntilGrown(fs, m, OpenBrace, st1, seed);
      var st2 := FillUntil(fs, m, OpenBrace, st1);
      EndWithGrown(fs, m, EndPattern, st2, seed);
      var st3 := EndWith(fs, m, EndPattern, st2);
      FillFullGrown(fs, st3, seed);
      if seed.Loc() == st3.start.value then Built(FillFull(fs, st3))
      else if st3.end.None? then Crashes
      else if seed.Loc() == st3.end.value || Contains(LineAt(st3, st3.start.value).content, "enum")
      then Built(FillFull(fs, st3))
      else Built(st3)
  }

  /** As written, the scan for the start line begins above the seed, so the
      seed never becomes `start`: the test `line == blk.start` is always false. */
  lemma StartNeverSeed(fs: Files, m: Matcher, p: string, seed: LineValue)
    requires Readable(fs, seed)
    ensures StartWith(fs, m, p, Init(Some(seed))).start != Some(seed.Loc())
  {
    InitGrown(fs, seed);
    if seed.index > 0 {
      var found := NearestAbove(fs, m, p, seed.file, seed.index);
      if found.Some? {
        InsertBeforeFirst([seed], FileValue(fs, seed.file, found.value));
      }
    }
  }

  /** As written, a macro whose lines all end in a backslash down to the end of
      the file sends `fill_start_until` round forever: every line its cursor can
      stand on fails the pattern, and at the last line `move_down` refuses. */
  lemma MacroNeverEnds(fs: Files, m: Matcher, seed: LineValue, c: LineValue)
    requires Readable(fs, seed) && DefineMacroAsWritten(fs, m, seed) == LoopsForever
    ensures var st1 := StartWith(fs, m, DefinePattern, Init(Some(seed)));
      Walking(fs, st1, c) ==> !m(ContinuationEnd, c.content)
  {
    StartWithGrown(fs, m, DefinePattern, seed);
    var st1 := StartWith(fs, m, DefinePattern, Init(Some(seed)));
    if Walking(fs, st1, c) && c.index > st1.lines[0].index {
      FirstMatchFromNone(fs, m, ContinuationEnd, c.file, st1.lines[0].index + 1, c.index);
      assert m(ContinuationEnd, c.content) == LineMatches(fs, m, ContinuationEnd, c.file, c.index);
    }
  }

  /** When the forward scan from line `i` finds nothing, no line from `i` on matches. */
  lemma {:induction false} FirstMatchFromNone(fs: Files, m: Matcher, p: string, f: string, i: nat, k: nat)
    requires f in fs && i <= k < |fs[f]| && FirstMatchFrom(fs, m, p, f, i).None?
    ensures !LineMatches(fs, m, p, f, k)
    decreases k - i
  {
    if i < k {
      FirstMatchFromNone(fs, m, p, f, i + 1, k);
    }
  }

  // ---------------------------------------------------------------------
  // The recipes repaired

  /** `get_define_macro` with the seed tested first and the walk down bounded by
      the end of the file. */
  function DefineMacro(fs: Files, m: Matcher, seed: LineValue): (r: BlockState)
    requires Readable(fs, seed)
    ensures Grown(fs, r, seed) && r.end == None
  {
    StartWithInclusiveGrown(fs, m, DefinePattern, seed);
    var st1 := StartWithInclusive(fs, m, DefinePattern, Init(Some(seed)));
    FillUntilOrEndGrown(fs, m, ContinuationEnd, st1, seed);
    FillUntilOrEnd(fs, m, ContinuationEnd, st1)
  }

  /** `get_define_block` with the seed tested as a start line, the walk down to
      `{` bounded by the end of the file, and `end` compared only when set. */
  function DefineBlock(fs: Files, m: Matcher, seed: LineValue): (r: Option<BlockState>)
    requires Readable(fs, seed)
    ensures r.Some? ==> Grown(fs, r.value, seed) && (r.value.start.Some? || StartsWith(seed.content, DefinePattern))
  {
    if !IsDefineSyntax(m, seed.content) then None
    else if StartsWith(seed.content, DefinePattern) then Some(DefineMacro(fs, m, seed))
    else
      StartWithInclusiveGrown(fs, m, DeclPattern, seed);
      var st1 := StartWithInclusive(fs, m, DeclPattern, Init(Some(seed)));
      if st1.start.None? || Contains(LineAt(st1, st1.start.value).content, "=") then None
      else Some(DeclarationFrom(fs, m, seed, st1))
  }

  /** The rest of the repaired `get_define_block` once `start` is found: walk
      down to `{`, look for the end line, and fill the lines between `start` and
      `end` when the seed is one of them or the declaration is an `enum`. */
  function DeclarationFrom(fs: Files, m: Matcher, seed: LineValue, st1: BlockState): (r: BlockState)
    requires Grown(fs, st1, seed) && st1.start.Some?
    ensures Grown(fs, r, seed) && r.start == st1.start
  {
    FillUntilOrEndGrown(fs, m, OpenBrace, st1, seed);
    var st2 := FillUntilOrEnd(fs, m, OpenBrace, st1);
    EndWithGrown(fs, m, EndPattern, st2, seed);
    var st3 := EndWith(fs, m, EndPattern, st2);
    FillIfAround(fs, seed, st3)
  }

  /** `fill_full` when the seed is `start` or `end`, or `start` opens an `enum`;
      otherwise the block as it is. */
  function FillIfAround(fs: Files, seed: LineValue, st: BlockState): (r: BlockState)
    requires Grown(fs, st, seed) && st.start.Some?
    ensures Grown(fs, r, seed) && r.start == st.start && r.end == st.end
  {
    FillFullGrown(fs, st, seed);
    if seed.Loc() == st.start.value || (st.end.Some? && seed.Loc() == st.end.value)
       || Contains(LineAt(st, st.start.value).content, "enum")
    then FillFull(fs, st)
    else st
  }

  // ---------------------------------------------------------------------
  // What the recipes give

  /** Scanning above a lone line, `start` is the nearest line above it that
      matches, holding that line's text, or stays unset when none does. */
  lemma StartAbove(fs: Files, m: Matcher, p: string, seed: LineValue)
    requires Readable(fs, seed)
    ensures var st1 := StartWith(fs, m, p, Init(Some(seed)));
      && (st1.start.None? <==> forall k :: !NearestMatchAbove(fs, m, p, seed.file, seed.index, k))
      && (st1.start.Some? ==>
            && st1.start.value.file == seed.file && st1.start.value in Locs(st1.lines)
            && NearestMatchAbove(fs, m, p, seed.file, seed.index, st1.start.value.index)
            && LineAt(st1, st1.start.value).content == FileLine(fs, seed.file, st1.start.value.index))
  {
    var f, i := seed.file, seed.index;
    InitGrown(fs, seed);
    StartWithGrown(fs, m, p, seed);
    var st1 := StartWith(fs, m, p, Init(Some(seed)));
    if i > 0 && NearestAbove(fs, m, p, f, i).Some? {
      var k := NearestAbove(fs, m, p, f, i).value;
      assert NearestMatchAbove(fs, m, p, f, i, k);
      InsertBeforeFirst([seed], FileValue(fs, f, k));
      assert LineAt(st1, Location(f, k)) == FileValue(fs, f, k);
    }
  }

  /** Testing the line itself first, `start` is that line when it matches, and
      otherwise the scan above it. */
  lemma StartAtOrAbove(fs: Files, m: Matcher, p: string, seed: LineValue)
    requires Readable(fs, seed)
    ensures var st1 := StartWithInclusive(fs, m, p, Init(Some(seed)));
      && (m(p, seed.content) ==> st1.start == Some(seed.Loc()) && seed.Loc() in Locs(st1.lines) && LineAt(st1, seed.Loc()) == seed)
      && (!m(p, seed.content) ==> st1 == StartWith(fs, m, p, Init(Some(seed))))
  {
    InitGrown(fs, seed);
    var st1 := StartWithInclusive(fs, m, p, Init(Some(seed)));
    if m(p, seed.content) {
      assert st1.lines == [seed];
      assert LineAt(st1, seed.Loc()) == seed;
    }
  }

  /** As written, `get_define_block` gives no block exactly for a call or control
      statement, or for a line outside `#define` with no declaration start above
      it or whose nearest declaration start above contains `=`. */
  lemma AsWrittenRejects(fs: Files, m: Matcher, seed: LineValue)
    requires Readable(fs, seed)
    ensures DefineBlockAsWritten(fs, m, seed) == Rejected <==>
      || !IsDefineSyntax(m, seed.content)
      || (&& !StartsWith(seed.content, DefinePattern)
          && forall k :: NearestMatchAbove(fs, m, DeclPattern, seed.file, seed.index, k) ==>
               Contains(FileLine(fs, seed.file, k), "="))
  {
    StartAbove(fs, m, DeclPattern, seed);
  }

  /** Repaired, `get_define_block` gives no block exactly for a call or control
      statement, or for a line outside `#define` whose nearest declaration start
      (the line itself, else the nearest line above) is missing or contains `=`;
      a `#define` line gives its macro. */
  lemma DefineBlockNone(fs: Files, m: Matcher, seed: LineValue)
    requires Readable(fs, seed)
    ensures !IsDefineSyntax(m, seed.content) ==> DefineBlock(fs, m, seed).None?
    ensures IsDefineSyntax(m, seed.content) && StartsWith(seed.content, DefinePattern) ==>
      DefineBlock(fs, m, seed) == Some(DefineMacro(fs, m, seed))
    ensures IsDefineSyntax(m, seed.content) && !StartsWith(seed.content, DefinePattern) ==>
      (DefineBlock(fs, m, seed).None? <==>
        if m(DeclPattern, seed.content) then Contains(seed.content, "=")
        else forall k :: NearestMatchAbove(fs, m, DeclPattern, seed.file, seed.index, k) ==>
               Contains(FileLine(fs, seed.file, k), "="))
  {
    StartAtOrAbove(fs, m, DeclPattern, seed);
    StartAbove(fs, m, DeclPattern, seed);
  }

  /** Outside `#define`, the block's `start` is the line itself when it starts a
      declaration, else the nearest declaration start above it, and its text has
      no `=`; when the line is `start` or `end`, every line strictly between
      `start` and `end` is in the block. */
  lemma DefineBlockFound(fs: Files, m: Matcher, seed: LineValue)
    requires Readable(fs, seed) && !StartsWith(seed.content, DefinePattern)
    requires DefineBlock(fs, m, seed).Some?
    ensures var st := DefineBlock(fs, m, seed).value;
      && st.start.Some? && st.start.value.file == seed.file
      && (m(DeclPattern, seed.content) ==> st.start.value == seed.Loc() && !Contains(seed.content, "="))
      && (!m(DeclPattern, seed.content) ==>
            && NearestMatchAbove(fs, m, DeclPattern, seed.file, seed.index, st.start.value.index)
            && !Contains(FileLine(fs, seed.file, st.start.value.index), "="))
      && (st.end.Some? && (st.start.value == seed.Loc() || st.end.value == seed.Loc()) ==>
            Between(fs, st) <= Locs(st.lines))
  {
    StartWithInclusiveGrown(fs, m, DeclPattern, seed);
    StartAtOrAbove(fs, m, DeclPattern, seed);
    StartAbove(fs, m, DeclPattern, seed);
    var st1 := StartWithInclusive(fs, m, DeclPattern, Init(Some(seed)));
    var st2 := FillUntilOrEnd(fs, m, OpenBrace, st1);
    FillUntilOrEndGrown(fs, m, OpenBrace, st1, seed);
    var st3 := EndWith(fs, m, EndPattern, st2);
    EndWithGrown(fs, m, EndPattern, st2, seed);
    FillFullGrown(fs, st3, seed);
  }

  /** Repaired, a `#define` line is its macro's `start`, and the macro holds
      exactly the lines from it down to the first line with no trailing
      backslash, or to the end of the file. */
  lemma DefineMacroSpan(fs: Files, m: Matcher, seed: LineValue)
    requires Readable(fs, seed) && m(DefinePattern, seed.content)
    ensures var r := DefineMacro(fs, m, seed);
      && r.start == Some(seed.Loc()) && r.end == None
      && Locs(r.lines) == SpanLocs(seed.file, seed.index, FillStopOrEnd(fs, m, ContinuationEnd, seed) + 1)
  {
    InitGrown(fs, seed);
    var st1 := StartWithInclusive(fs, m, DefinePattern, Init(Some(seed)));
    assert st1.lines == [seed];
    FillUntilOrEndContiguous(fs, m, ContinuationEnd, st1);
    var stop := FillStopOrEnd(fs, m, ContinuationEnd, seed);
    assert Locs([seed]) == {seed.Loc()};
    forall k: nat | seed.index <= k < stop + 1
      ensures Location(seed.file, k) == seed.Loc() || Location(seed.file, k) in SpanLocs(seed.file, seed.index + 1, stop + 1)
    {
    }
  }

  /** `_is_define_syntax` is the first gate of `get_define_block`: a call
      statement or a control statement gives no block, as written and repaired;
      past the gate, a `#define` line goes to the macro recipe. */
  lemma DefineSyntaxGate(fs: Files, m: Matcher, seed: LineValue)
    requires Readable(fs, seed)
    ensures m(CallPattern, seed.content) || m(ControlPattern, seed.content) ==>
      DefineBlockAsWritten(fs, m, seed) == Rejected && DefineBlock(fs, m, seed) == None
    ensures IsDefineSyntax(m, seed.content) && StartsWith(seed.content, DefinePattern) ==>
      DefineBlockAsWritten(fs, m, seed) == DefineMacroAsWritten(fs, m, seed)
      && DefineBlock(fs, m, seed) == Some(DefineMacro(fs, m, seed))
  {
  }

  // ---------------------------------------------------------------------
  // Three inputs on which the recipes as written go wrong

  /** A header with a declaration that has no closing line. */
  function OpenStruct(): Files {
    map["s.h" := ["struct S {\n", "  int x;\n"]]
  }

  /** Two macros, the second continued onto the next line. */
  function TwoMacros(): Files {
    map["m.h" := ["#define A 1\n", "#define B \\\n", "  2\n"]]
  }

  /** A macro whose last line still ends in a backslash. */
  function DanglingMacro(): Files {
    map["d.h" := ["#define A \\\n"]]
  }

  /** The first steps from the member line of `OpenStruct`: the scan up finds
      the `struct` line, and the walk down to `{` and the scan for an end line
      add nothing. */
  lemma OpenStructSteps(m: Matcher)
    requires !m(DeclPattern, "  int x;") && m(DeclPattern, "struct S {") && m(OpenBrace, "struct S {")
    ensures var fs := OpenStruct();
      var v0, v1 := FileValue(fs, "s.h", 0), FileValue(fs, "s.h", 1);
      var st1 := BlockState([v0, v1], Some(v0.Loc()), None);
      && v0.content == "struct S {" && v1.content == "  int x;" && !StartsWith(v1.content, DefinePattern)
      && StartWith(fs, m, DeclPattern, Init(Some(v1))) == st1
      && StartWithInclusive(fs, m, DeclPattern, Init(Some(v1))) == st1
      && WellFormed(st1) && LineAt(st1, v0.Loc()) == v0
      && !Contains(v0.content, "=") && !Contains(v0.content, "enum")
      && FillEnds(fs, m, OpenBrace, st1)
      && FillUntil(fs, m, OpenBrace, st1) == st1 && FillUntilOrEnd(fs, m, OpenBrace, st1) == st1
      && EndWith(fs, m, EndPattern, st1) == st1
  {
    var fs, f := OpenStruct(), "s.h";
    RStripNewline("struct S {");
    RStripNewline("  int x;");
    assert fs[f][0] == "struct S {" + "\n" && fs[f][1] == "  int x;" + "\n";
    var v0, v1 := FileValue(fs, f, 0), FileValue(fs, f, 1);
    assert v0.content == "struct S {" && v1.content == "  int x;";
    assert !StartsWith(v1.content, DefinePattern) by {
      assert v1.content[..7][0] != DefinePattern[0];
    }
    var st0 := Init(Some(v1));
    InitGrown(fs, v1);
    assert NearestAbove(fs, m, DeclPattern, f, 1) == Some(0) by {
      assert LineMatches(fs, m, DeclPattern, f, 0);
    }
    InsertBeforeFirst([v1], v0);
    var st1 := BlockState([v0, v1], Some(v0.Loc()), None);
    assert StartWith(fs, m, DeclPattern, st0) == st1;
    StartWithGrown(fs, m, DeclPattern, v1);
    assert LineAt(st1, v0.Loc()) == v0;
    StructLineText();
    assert FillStop(fs, m, OpenBrace, v0) == 0 && FillStopOrEnd(fs, m, OpenBrace, v0) == 0;
    AddSpanEmpty(fs, st1, f, 1, 1);
    assert FirstMatchFrom(fs, m, EndPattern, f, 2) == None;
  }

  /** The `struct` line of `OpenStruct` has no `=` and no `enum`. */
  lemma StructLineText()
    ensures !Contains("struct S {", "=") && !Contains("struct S {", "enum")
  {
    var t := "struct S {";
    assert forall i :: 0 <= i < |t| ==> t[i] != '=' && t[i] != 'e';
    LacksFirst(t, "=");
    LacksFirst(t, "enum");
  }

  /** From a member line of a declaration with no closing line, the recipe as
      written raises (`line == blk.end` with no end). */
  lemma OpenStructCrashes(m: Matcher)
    requires !m(CallPattern, "  int x;") && !m(ControlPattern, "  int x;") && !m(DeclPattern, "  int x;")
    requires m(DeclPattern, "struct S {") && m(OpenBrace, "struct S {")
    ensures var fs := OpenStruct();
      DefineBlockAsWritten(fs, m, FileValue(fs, "s.h", 1)) == Crashes
  {
    OpenStructSteps(m);
  }

  /** Repaired, the same line gives the declaration's first line and the member line. */
  lemma OpenStructRepaired(m: Matcher)
    requires !m(CallPattern, "  int x;") && !m(ControlPattern, "  int x;") && !m(DeclPattern, "  int x;")
    requires m(DeclPattern, "struct S {") && m(OpenBrace, "struct S {")
    ensures var fs := OpenStruct();
      DefineBlock(fs, m, FileValue(fs, "s.h", 1))
        == Some(BlockState([FileValue(fs, "s.h", 0), FileValue(fs, "s.h", 1)], Some(Location("s.h", 0)), None))
  {
    OpenStructSteps(m);
  }

  /** The lines of `TwoMacros` as a cursor shows them. */
  lemma TwoMacrosText()
    ensures var fs := TwoMacros();
      && FileLine(fs, "m.h", 0) == "#define A 1" && FileLine(fs, "m.h", 1) == "#define B \\"
      && FileLine(fs, "m.h", 2) == "  2" && StartsWith("#define B \\", DefinePattern)
  {
    var fs := TwoMacros();
    RStripNewline("#define A 1");
    RStripNewline("#define B \\");
    RStripNewline("  2");
    assert fs["m.h"][0] == "#define A 1" + "\n" && fs["m.h"][1] == "#define B \\" + "\n" && fs["m.h"][2] == "  2" + "\n";
    assert "#define B \\"[..7] == DefinePattern;
  }

  /** From the second of two macros, the recipe as written starts at the first
      macro and leaves out the continuation line of the second. */
  lemma MacroSkipsSeed(m: Matcher)
    requires IsDefineSyntax(m, "#define B \\")
    requires m(DefinePattern, "#define A 1") && m(ContinuationEnd, "#define A 1")
    ensures var fs := TwoMacros();
      DefineBlockAsWritten(fs, m, FileValue(fs, "m.h", 1))
        == Built(BlockState([FileValue(fs, "m.h", 0), FileValue(fs, "m.h", 1)], Some(Location("m.h", 0)), None))
  {
    var fs, f := TwoMacros(), "m.h";
    TwoMacrosText();
    var v0, v1 := FileValue(fs, f, 0), FileValue(fs, f, 1);
    var st0 := Init(Some(v1));
    InitGrown(fs, v1);
    assert NearestAbove(fs, m, DefinePattern, f, 1) == Some(0) by {
      assert LineMatches(fs, m, DefinePattern, f, 0);
    }
    InsertBeforeFirst([v1], v0);
    var st1 := BlockState([v0, v1], Some(v0.Loc()), None);
    assert StartWith(fs, m, DefinePattern, st0) == st1;
    assert FillStop(fs, m, ContinuationEnd, v0) == 0;
    AddSpanEmpty(fs, st1, f, 1, 1);
    assert FillUntil(fs, m, ContinuationEnd, st1) == st1;
  }

  /** The walk down from the second macro of `TwoMacros` ends at its continuation line. */
  lemma SecondMacroWalk(m: Matcher)
    requires !m(ContinuationEnd, "#define B \\") && m(ContinuationEnd, "  2")
    ensures var fs := TwoMacros();
      var v1 := FileValue(fs, "m.h", 1);
      var st := BlockState([v1], Some(v1.Loc()), None);
      FillUntilOrEnd(fs, m, ContinuationEnd, st) == BlockState([v1, FileValue(fs, "m.h", 2)], Some(v1.Loc()), None)
  {
    var fs, f := TwoMacros(), "m.h";
    TwoMacrosText();
    var v1, v2 := FileValue(fs, f, 1), FileValue(fs, f, 2);
    assert FirstMatchFrom(fs, m, ContinuationEnd, f, 2) == Some(2) by {
      assert LineMatches(fs, m, ContinuationEnd, f, 2);
    }
    assert FillStopOrEnd(fs, m, ContinuationEnd, v1) == 2;
    assert Span(fs, f, 2, 3) == [v2];
    InsertAfterLast([v1], v2);
    assert InsertAll([v1], [v2]) == [v1, v2];
  }

  /** Repaired, the same line gives the second macro and its continuation line. */
  lemma MacroFromSeed(m: Matcher)
    requires IsDefineSyntax(m, "#define B \\")
    requires m(DefinePattern, "#define B \\") && !m(ContinuationEnd, "#define B \\") && m(ContinuationEnd, "  2")
    ensures var fs := TwoMacros();
      DefineBlock(fs, m, FileValue(fs, "m.h", 1))
        == Some(BlockState([FileValue(fs, "m.h", 1), FileValue(fs, "m.h", 2)], Some(Location("m.h", 1)), None))
  {
    var fs := TwoMacros();
    TwoMacrosText();
    var v1 := FileValue(fs, "m.h", 1);
    InitGrown(fs, v1);
    assert StartWithInclusive(fs, m, DefinePattern, Init(Some(v1))) == BlockState([v1], Some(v1.Loc()), None);
    SecondMacroWalk(m);
  }

  /** From a macro whose backslash continues past the end of the file, the
      recipe as written never returns; repaired, it gives the macro line alone. */
  lemma DanglingMacroLoops(m: Matcher)
    requires IsDefineSyntax(m, "#define A \\")
    requires m(DefinePattern, "#define A \\") && !m(ContinuationEnd, "#define A \\")
    ensures var fs := DanglingMacro();
      DefineBlockAsWritten(fs, m, FileValue(fs, "d.h", 0)) == LoopsForever
    ensures var fs := DanglingMacro();
      DefineBlock(fs, m, FileValue(fs, "d.h", 0))
        == Some(BlockState([FileValue(fs, "d.h", 0)], Some(Location("d.h", 0)), None))
  {
    var fs, f := DanglingMacro(), "d.h";
    RStripNewline("#define A \\");
    assert fs[f][0] == "#define A \\" + "\n";
    var v0 := FileValue(fs, f, 0);
    assert v0.content == "#define A \\";
    assert StartsWith(v0.content, DefinePattern) by {
      assert v0.content[..7] == DefinePattern;
    }
    var st0 := Init(Some(v0));
    InitGrown(fs, v0);
    assert StartWith(fs, m, DefinePattern, st0) == st0;
    assert FirstMatchFrom(fs, m, ContinuationEnd, f, 1) == None;
    assert !FillEnds(fs, m, ContinuationEnd, st0);
    var st1 := st0.(start := Some(v0.Loc()));
    assert StartWithInclusive(fs, m, DefinePattern, st0) == st1;
    assert FillStopOrEnd(fs, m, ContinuationEnd, v0) == 0;
    AddSpanEmpty(fs, st1, f, 1, 1);
    assert FillUntilOrEnd(fs, m, ContinuationEnd, st1) == st1;
  }

  // ---------------------------------------------------------------------
  // The seed is left as it was

  /** The repaired `get_define_block` keeps the seed's snapshot as it was: every
      line it adds is read afresh from the file, with no highlight, so a merge
      into the seed never changes it. */
  lemma BlockKeepsSeed(fs: Files, m: Matcher, seed: LineValue)
    requires Readable(fs, seed)
    ensures DefineBlock(fs, m, seed).Some? ==> seed in DefineBlock(fs, m, seed).value.lines
  {
    MacroKeepsSeed(fs, m, seed);
    var st0 := Init(Some(seed));
    InitHolds(Some(seed));
    StartWithKeepsLine(fs, m, DeclPattern, st0, seed);
    StartWithInclusiveGrown(fs, m, DeclPattern, seed);
    var st1 := StartWithInclusive(fs, m, DeclPattern, st0);
    if st1.start.Some? {
      DeclarationKeepsSeed(fs, m, seed, st1);
    }
  }

  /** `get_define_block` as written keeps the seed's snapshot too, whenever it
      builds a block. */
  lemma AsWrittenKeepsSeed(fs: Files, m: Matcher, seed: LineValue)
    requires Readable(fs, seed)
    ensures DefineBlockAsWritten(fs, m, seed).Built? ==> seed in DefineBlockAsWritten(fs, m, seed).block.lines
  {
    MacroKeepsSeed(fs, m, seed);
    var st0 := Init(Some(seed));
    InitHolds(Some(seed));
    StartWithKeepsLine(fs, m, DeclPattern, st0, seed);
    StartWithGrown(fs, m, DeclPattern, seed);
    var st1 := StartWith(fs, m, DeclPattern, st0);
    if st1.start.Some? {
      DeclarationAsWrittenKeepsSeed(fs, m, seed, st1);
    }
  }

  /** The macro recipe, as written and repaired, keeps the seed's snapshot. */
  lemma MacroKeepsSeed(fs: Files, m: Matcher, seed: LineValue)
    requires Readable(fs, seed)
    ensures seed in DefineMacro(fs, m, seed).lines
    ensures DefineMacroAsWritten(fs, m, seed).Built? ==> seed in DefineMacroAsWritten(fs, m, seed).block.lines
  {
    var st0 := Init(Some(seed));
    InitHolds(Some(seed));
    InitGrown(fs, seed);
    StartWithKeepsLine(fs, m, DefinePattern, st0, seed);
    StartWithInclusiveGrown(fs, m, DefinePattern, seed);
    StartWithGrown(fs, m, DefinePattern, seed);
    FillKeepsLine(fs, m, ContinuationEnd, StartWithInclusive(fs, m, DefinePattern, st0), seed);
    FillKeepsLine(fs, m, ContinuationEnd, StartWith(fs, m, DefinePattern, st0), seed);
  }

  /** The repaired steps after `start` keep the seed's snapshot. */
  lemma DeclarationKeepsSeed(fs: Files, m: Matcher, seed: LineValue, st1: BlockState)
    requires Grown(fs, st1, seed) && st1.start.Some? && seed in st1.lines
    ensures seed in DeclarationFrom(fs, m, seed, st1).lines
  {
    FillKeepsLine(fs, m, OpenBrace, st1, seed);
    FillUntilOrEndGrown(fs, m, OpenBrace, st1, seed);
    var st2 := FillUntilOrEnd(fs, m, OpenBrace, st1);
    EndWithGrown(fs, m, EndPattern, st2, seed);
    EndWithKeepsLine(fs, m, EndPattern, st2, seed);
    var st3 := EndWith(fs, m, EndPattern, st2);
    FillFullGrown(fs, st3, seed);
    FillFullKeepsLine(fs, st3, seed);
    assert DeclarationFrom(fs, m, seed, st1) == FillIfAround(fs, seed, st3);
  }

  /** The steps after `start` as written keep the seed's snapshot whenever they
      build a block. */
  lemma DeclarationAsWrittenKeepsSeed(fs: Files, m: Matcher, seed: LineValue, st1: BlockState)
    requires Grown(fs, st1, seed) && st1.start.Some? && seed in st1.lines
    ensures DeclarationAsWritten(fs, m, seed, st1).Built? ==> seed in DeclarationAsWritten(fs, m, seed, st1).block.lines
  {
    if FillEnds(fs, m, OpenBrace, st1) {
      FillKeepsLine(fs, m, OpenBrace, st1, seed);
      FillUntilGrown(fs, m, OpenBrace, st1, seed);
      var st2 := FillUntil(fs, m, OpenBrace, st1);
      EndWithGrown(fs, m, EndPattern, st2, seed);
      EndWithKeepsLine(fs, m, EndPattern, st2, seed);
      var st3 := EndWith(fs, m, EndPattern, st2);
      FillFullGrown(fs, st3, seed);
      FillFullKeepsLine(fs, st3, seed);
    }
  }

  // ---------------------------------------------------------------------
  // The recipes on `Block` objects

  /** `get_define_macro`, repaired: the seed object itself becomes one of the
      block's lines, and it is left as it was. */
  method GetDefineMacro(fs: Files, m: Matcher, line: Line) returns (blk: Block)
    requires Readable(fs, line.Value())
    modifies line`highlight
    ensures fresh(blk) && blk.Valid()
    ensures blk.State() == DefineMacro(fs, m, old(line.Value()))
    ensures line in blk.lines && line.Value() == old(line.Value())
  {
    ghost var seed := line.Value();
    blk := new Block(CppLang, line);
    blk.AddStartWithInclusive(fs, m, DefinePattern);
    StartWithInclusiveGrown(fs, m, DefinePattern, seed);
    blk.FillStartUntilOrEnd(fs, m, ContinuationEnd);
    MacroKeepsSeed(fs, m, seed);
    ShowsHeld(blk.lines, line, seed);
  }

  /** `get_define_block`, repaired: `null` exactly when `DefineBlock` gives no
      block, and otherwise a block in exactly the state `DefineBlock` describes,
      holding the seed object. On every path the seed is left as it was, so the
      recipe can be run on the same line again. */
  method GetDefineBlock(fs: Files, m: Matcher, line: Line) returns (blk: Block?)
    requires Readable(fs, line.Value())
    modifies line`highlight
    ensures blk == null <==> DefineBlock(fs, m, old(line.Value())).None?
    ensures blk != null ==> fresh(blk) && blk.Valid() && blk.State() == DefineBlock(fs, m, old(line.Value())).value
    ensures blk != null ==> line in blk.lines
    ensures line.Value() == old(line.Value())
  {
    if !IsDefineSyntax(m, line.content) {
      return null;
    }
    if StartsWith(line.content, DefinePattern) {
      blk := GetDefineMacro(fs, m, line);
      return;
    }
    ghost var seed := line.Value();
    blk := new Block(CppLang, line);
    blk.AddStartWithInclusive(fs, m, DeclPattern);
    StartWithInclusiveGrown(fs, m, DeclPattern, seed);
    InitHolds(Some(seed));
    StartWithKeepsLine(fs, m, DeclPattern, Init(Some(seed)), seed);
    ShowsHeld(blk.lines, line, seed);
    if blk.start == null {
      return null;
    }
    blk.StartIsLine();
    if Contains(blk.start.content, "=") {
      return null;
    }
    GrowDeclaration(fs, m, line, blk, seed);
    BlockKeepsSeed(fs, m, seed);
    ShowsHeld(blk.lines, line, seed);
  }

  /** The steps of `get_define_block` after `start` is found, on the block. */
  method GrowDeclaration(fs: Files, m: Matcher, line: Line, blk: Block, ghost seed: LineValue)
    requires blk.Valid() && blk.start != null && Grown(fs, blk.State(), seed) && line.Loc() == seed.Loc()
    requires line in blk.lines
    modifies blk, (set x | x in blk.lines)`highlight
    ensures blk.Valid() && blk.State() == DeclarationFrom(fs, m, seed, old(blk.State()))
    ensures line in blk.lines
  {
    ghost var st1 := blk.State();
    blk.FillStartUntilOrEnd(fs, m, OpenBrace);
    FillUntilOrEndGrown(fs, m, OpenBrace, st1, seed);
    ghost var st2 := blk.State();
    blk.AddEndWith(fs, m, EndPattern);
    EndWithGrown(fs, m, EndPattern, st2, seed);
    FillAround(fs, line, blk, seed);
  }

  /** The last step of `get_define_block`: fill between `start` and `end` when
      the seed is one of them or the declaration is an `enum`. */
  method FillAround(fs: Files, line: Line, blk: Block, ghost seed: LineValue)
    requires blk.Valid() && blk.start != null && Grown(fs, blk.State(), seed) && line.Loc() == seed.Loc()
    requires line in blk.lines
    modifies blk, (set x | x in blk.lines)`highlight
    ensures blk.Valid() && blk.State() == FillIfAround(fs, seed, old(blk.State()))
    ensures line in blk.lines
  {
    FillFullGrown(fs, blk.State(), seed);
    blk.StartIsLine();
    if line.Equals(blk.start) || (blk.end != null && line.Equals(blk.end)) || Contains(blk.start.content, "enum") {
      blk.FillFull(fs);
    }
  }
}
