// The generator of lit-magic-strings.inc.h (tools/gen-magic-strings.py).
module MagicStrings {
  import opened Preprocessor

  // A condition of a directive: its text, or the name given to #ifdef or #ifndef.
  datatype Condition = Expression(text: string) | Defined(name: string) | NotDefined(name: string)

  // A condition, or the negation made for #elif and #else.
  datatype Guard = Plain(condition: Condition) | Not(guard: Guard)

  // What the macros make of each condition.
  datatype Valuation = Valuation(expression: string -> bool, defined: string -> bool)

  predicate Meets(c: Condition, v: Valuation) {
    match c
    case Expression(text) => v.expression(text)
    case Defined(name) => v.defined(name)
    case NotDefined(name) => !v.defined(name)
  }

  predicate Holds(g: Guard, v: Valuation) {
    match g
    case Plain(c) => Meets(c, v)
    case Not(h) => !Holds(h, v)
  }

  // A set of guards holds when all do; a set of sets when one of them does.
  predicate AllHold(guards: set<Guard>, v: Valuation) {
    forall g :: g in guards ==> Holds(g, v)
  }

  predicate AnyHolds(sets: set<set<Guard>>, v: Valuation) {
    exists s :: s in sets && AllHold(s, v)
  }

  // ---- source lines

  // A line with its directive, if it is one, and the magic strings that it mentions.
  datatype Line = Line(kind: Kind, condition: Condition, refs: seq<string>)

  // The open groups after n lines.
  ghost function FramesAt(lines: seq<Line>, n: nat, v: Valuation): seq<Frame>
    requires n <= |lines|
  {
    if n == 0 then []
    else Step(FramesAt(lines, n - 1, v), lines[n - 1].kind, Meets(lines[n - 1].condition, v))
  }

  // Every directive is in order.
  ghost predicate WellFormed(lines: seq<Line>) {
    forall i :: 0 <= i < |lines| ==> InOrder(FramesAt(lines, i, NothingDefined()), lines[i].kind)
  }

  function NothingDefined(): Valuation {
    Valuation((x: string) => false, (x: string) => false)
  }

  predicate SameShape(f: seq<Frame>, g: seq<Frame>) {
    |f| == |g| && forall i :: 0 <= i < |f| ==> f[i].elseSeen == g[i].elseSeen
  }

  lemma ShapeStep(f: seq<Frame>, g: seq<Frame>, kind: Kind, x: bool, y: bool)
    requires SameShape(f, g)
    ensures InOrder(f, kind) <==> InOrder(g, kind)
    ensures SameShape(Step(f, kind, x), Step(g, kind, y))
  {}

  lemma FramesNext(lines: seq<Line>, n: nat, v: Valuation)
    requires n < |lines|
    ensures FramesAt(lines, n + 1, v) == Step(FramesAt(lines, n, v), lines[n].kind, Meets(lines[n].condition, v))
  {
    hide Step, Meets;
  }

  lemma FramesStart(lines: seq<Line>, v: Valuation)
    ensures FramesAt(lines, 0, v) == [] && SameShape([], [])
  {}

  // The order of directives does not depend on the truth of the conditions.
  lemma {:induction false} OrderIsSyntactic(lines: seq<Line>, n: nat, v: Valuation, w: Valuation)
    requires n <= |lines|
    ensures SameShape(FramesAt(lines, n, v), FramesAt(lines, n, w))
    ensures n < |lines| ==> (InOrder(FramesAt(lines, n, v), lines[n].kind) <==> InOrder(FramesAt(lines, n, w), lines[n].kind))
  {
    hide *;
    if n == 0 {
      FramesStart(lines, v);
      FramesStart(lines, w);
    } else {
      OrderIsSyntactic(lines, n - 1, v, w);
      FramesNext(lines, n - 1, v);
      FramesNext(lines, n - 1, w);
      ShapeStep(FramesAt(lines, n - 1, v), FramesAt(lines, n - 1, w), lines[n - 1].kind,
                Meets(lines[n - 1].condition, v), Meets(lines[n - 1].condition, w));
    }
    if n < |lines| {
      ShapeStep(FramesAt(lines, n, v), FramesAt(lines, n, w), lines[n].kind, true, true);
    }
  }

  // Line i is kept by the preprocessor.
  ghost predicate IsKept(lines: seq<Line>, i: nat, v: Valuation)
    requires i < |lines|
  {
    Kept(FramesAt(lines, i + 1, v))
  }

  // Some of the first n lines mentions ref and is kept.
  ghost predicate KeptMention(lines: seq<Line>, n: nat, ref: string, v: Valuation)
    requires n <= |lines|
  {
    exists i :: 0 <= i < n && ref in lines[i].refs && IsKept(lines, i, v)
  }

  // ---- the guard stack

  function Negated(guards: seq<Guard>): seq<Guard> {
    if guards == [] then []
    else guards[..|guards| - 1] + [Not(guards[|guards| - 1])]
  }

  predicate SeqHolds(guards: seq<Guard>, v: Valuation) {
    forall g :: g in guards ==> Holds(g, v)
  }

  // A list of guards says when the current branch is kept, and, until #else, its last guard
  // says whether a branch was taken.
  ghost predicate FrameMatches(guards: seq<Guard>, f: Frame, v: Valuation) {
    && guards != []
    && (f.active <==> SeqHolds(guards, v))
    && (!f.elseSeen ==> (f.taken <==> !SeqHolds(Negated(guards), v)))
  }

  ghost predicate StackMatches(stack: seq<seq<Guard>>, frames: seq<Frame>, v: Valuation) {
    |stack| == |frames| && forall i :: 0 <= i < |stack| ==> FrameMatches(stack[i], frames[i], v)
  }

  // What process_file does to the stack.
  function StackStep(stack: seq<seq<Guard>>, kind: Kind, c: Condition): seq<seq<Guard>> {
    var n := |stack| - 1;
    if kind == Text then stack
    else if kind == If then stack + [[Plain(c)]]
    else if stack == [] then stack
    else if kind == Elif then stack[..n] + [Negated(stack[n]) + [Plain(c)]]
    else if kind == Else then stack[..n] + [Negated(stack[n])]
    else stack[..n]
  }

  function StackAt(lines: seq<Line>, n: nat): seq<seq<Guard>>
    requires n <= |lines|
  {
    if n == 0 then [] else StackStep(StackAt(lines, n - 1), lines[n - 1].kind, lines[n - 1].condition)
  }

  lemma StackNext(lines: seq<Line>, n: nat)
    requires n < |lines|
    ensures StackAt(lines, n + 1) == StackStep(StackAt(lines, n), lines[n].kind, lines[n].condition)
    ensures StackAt(lines, 0) == []
  {
    hide StackStep;
  }

  lemma InOrderAt(lines: seq<Line>, n: nat)
    requires WellFormed(lines) && n < |lines|
    ensures InOrder(FramesAt(lines, n, NothingDefined()), lines[n].kind)
  {
    hide FramesAt, InOrder;
  }

  lemma {:induction false} StackAtMatches(lines: seq<Line>, n: nat, v: Valuation)
    requires WellFormed(lines) && n <= |lines|
    ensures StackMatches(StackAt(lines, n), FramesAt(lines, n, v), v)
  {
    hide *;
    if n == 0 {
      StackStart(lines, v);
    } else {
      StackAtMatches(lines, n - 1, v);
      OrderIsSyntactic(lines, n - 1, v, NothingDefined());
      InOrderAt(lines, n - 1);
      FramesNext(lines, n - 1, v);
      StackNext(lines, n - 1);
      StackStepMatches(StackAt(lines, n - 1), FramesAt(lines, n - 1, v), lines[n - 1].kind, lines[n - 1].condition, v);
    }
  }

  lemma StackStart(lines: seq<Line>, v: Valuation)
    ensures StackMatches(StackAt(lines, 0), FramesAt(lines, 0, v), v)
  {}

  lemma NegatedHolds(guards: seq<Guard>, v: Valuation)
    requires guards != []
    ensures SeqHolds(guards, v) <==> SeqHolds(guards[..|guards| - 1], v) && Holds(guards[|guards| - 1], v)
    ensures SeqHolds(Negated(guards), v) <==> SeqHolds(guards[..|guards| - 1], v) && !Holds(guards[|guards| - 1], v)
  {
    var n := |guards| - 1;
    assert guards == guards[..n] + [guards[n]];
    AppendHolds(guards[..n], guards[n], v);
    AppendHolds(guards[..n], Not(guards[n]), v);
  }

  lemma AppendHolds(guards: seq<Guard>, g: Guard, v: Valuation)
    ensures SeqHolds(guards + [g], v) <==> SeqHolds(guards, v) && Holds(g, v)
  {
    assert g in guards + [g];
    forall h | h in guards ensures h in guards + [g] {}
  }

  lemma FirstBranch(c: Condition, v: Valuation)
    ensures FrameMatches([Plain(c)], Frame(Meets(c, v), Meets(c, v), false), v)
  {
    var gs := [Plain(c)];
    NegatedHolds(gs, v);
    assert gs[..0] == [];
    assert SeqHolds([], v);
  }

  lemma NextBranch(guards: seq<Guard>, f: Frame, c: Condition, v: Valuation)
    requires FrameMatches(guards, f, v) && !f.elseSeen
    ensures FrameMatches(Negated(guards) + [Plain(c)], Frame(!f.taken && Meets(c, v), f.taken || Meets(c, v), false), v)
    ensures FrameMatches(Negated(guards), Frame(!f.taken, true, true), v)
  {
    hide SeqHolds;
    var gs := Negated(guards) + [Plain(c)];
    NegatedHolds(guards, v);
    AppendHolds(Negated(guards), Plain(c), v);
    NegatedHolds(gs, v);
    assert gs[..|gs| - 1] == Negated(guards);
  }

  lemma StackStepMatches(stack: seq<seq<Guard>>, frames: seq<Frame>, kind: Kind, c: Condition, v: Valuation)
    requires StackMatches(stack, frames, v) && InOrder(frames, kind)
    ensures StackMatches(StackStep(stack, kind, c), Step(frames, kind, Meets(c, v)), v)
  {
    hide FrameMatches, Negated, Meets;
    var n := |stack| - 1;
    match kind
    case Text =>
    case Endif =>
    case If => FirstBranch(c, v);
    case Elif => NextBranch(stack[n], frames[n], c, v);
    case Else => NextBranch(stack[n], frames[n], c, v);
  }

  // The union of all guards on the stack.
  function GuardSet(stack: seq<seq<Guard>>): set<Guard> {
    set i, g | 0 <= i < |stack| && g in stack[i] :: g
  }

  lemma GuardSetHolds(stack: seq<seq<Guard>>, frames: seq<Frame>, v: Valuation)
    requires StackMatches(stack, frames, v)
    ensures AllHold(GuardSet(stack), v) <==> Kept(frames)
  {
    if AllHold(GuardSet(stack), v) {
      forall i | 0 <= i < |frames| ensures frames[i].active {
        assert FrameMatches(stack[i], frames[i], v);
        forall g | g in stack[i] ensures Holds(g, v) {
          assert g in GuardSet(stack);
        }
      }
    }
    if Kept(frames) {
      forall g | g in GuardSet(stack) ensures Holds(g, v) {
        var i :| 0 <= i < |stack| && g in stack[i];
        assert FrameMatches(stack[i], frames[i], v);
        assert SeqHolds(stack[i], v);
      }
    }
  }

  // ---- collecting the references

  const EXCLUDED: set<string> := {
    "LIT_MAGIC_STRING_DEF", "LIT_MAGIC_STRING_FIRST_STRING_WITH_SIZE",
    "LIT_MAGIC_STRING_LENGTH_LIMIT", "LIT_MAGIC_STRING__COUNT"
  }

  // What the generator passes over.
  lemma ExcludedAre(ref: string)
    ensures ref in EXCLUDED <==>
              || ref == "LIT_MAGIC_STRING_DEF" || ref == "LIT_MAGIC_STRING_FIRST_STRING_WITH_SIZE"
              || ref == "LIT_MAGIC_STRING_LENGTH_LIMIT" || ref == "LIT_MAGIC_STRING__COUNT"
  {}

  // The sets of guards under which each magic string is mentioned.
  type Results = map<string, set<set<Guard>>>

  function AddRef(results: Results, ref: string, guards: set<Guard>): Results {
    if ref in EXCLUDED then results
    else results[ref := (if ref in results then results[ref] else {}) + {guards}]
  }

  function AddRefs(results: Results, refs: seq<string>, guards: set<Guard>): Results {
    if refs == [] then results
    else AddRef(AddRefs(results, refs[..|refs| - 1], guards), refs[|refs| - 1], guards)
  }

  function AddLines(results: Results, lines: seq<Line>, n: nat): Results
    requires n <= |lines|
  {
    if n == 0 then results
    else AddRefs(AddLines(results, lines, n - 1), lines[n - 1].refs, GuardSet(StackAt(lines, n)))
  }

  // The results say that ref is used under v.
  ghost predicate Used(results: Results, ref: string, v: Valuation) {
    ref in results && AnyHolds(results[ref], v)
  }

  ghost predicate NoneEmpty(results: Results) {
    forall ref :: ref in results ==> results[ref] != {}
  }

  lemma {:induction false} AddRefsMeaning(results: Results, refs: seq<string>, guards: set<Guard>, ref: string, v: Valuation)
    ensures Used(AddRefs(results, refs, guards), ref, v)
            <==> Used(results, ref, v) || (ref in refs && ref !in EXCLUDED && AllHold(guards, v))
    ensures NoneEmpty(results) ==> NoneEmpty(AddRefs(results, refs, guards))
  {
    if refs != [] {
      var n := |refs| - 1;
      AddRefsMeaning(results, refs[..n], guards, ref, v);
      AddRefMeaning(AddRefs(results, refs[..n], guards), refs[n], guards, ref, v);
      assert refs == refs[..n] + [refs[n]];
    }
  }

  lemma AddRefMeaning(results: Results, name: string, guards: set<Guard>, ref: string, v: Valuation)
    ensures Used(AddRef(results, name, guards), ref, v)
            <==> Used(results, ref, v) || (ref == name && ref !in EXCLUDED && AllHold(guards, v))
    ensures NoneEmpty(results) ==> NoneEmpty(AddRef(results, name, guards))
  {
    hide AllHold;
    if name !in EXCLUDED && ref == name {
      var sets := if ref in results then results[ref] else {};
      assert AddRef(results, name, guards)[ref] == sets + {guards};
      assert AllHold(guards, v) ==> guards in sets + {guards};
      assert forall s :: s in sets ==> s in sets + {guards};
    }
  }

  // A string is used under v exactly when a line that mentions it is kept.
  lemma {:induction false} AddLinesMeaning(results: Results, lines: seq<Line>, n: nat, ref: string, v: Valuation)
    requires WellFormed(lines) && n <= |lines|
    ensures Used(AddLines(results, lines, n), ref, v)
            <==> Used(results, ref, v) || (ref !in EXCLUDED && KeptMention(lines, n, ref, v))
    ensures NoneEmpty(results) ==> NoneEmpty(AddLines(results, lines, n))
  {
    hide Used, WellFormed, AddRefs, GuardSet, NoneEmpty, FramesAt, StackAt, StackMatches, AllHold, Kept;
    if n > 0 {
      AddLinesMeaning(results, lines, n - 1, ref, v);
      AddRefsMeaning(AddLines(results, lines, n - 1), lines[n - 1].refs, GuardSet(StackAt(lines, n)), ref, v);
      StackAtMatches(lines, n, v);
      GuardSetHolds(StackAt(lines, n), FramesAt(lines, n, v), v);
      assert ref in lines[n - 1].refs ==> (IsKept(lines, n - 1, v) <==> AllHold(GuardSet(StackAt(lines, n)), v));
      assert KeptMention(lines, n, ref, v) <==> KeptMention(lines, n - 1, ref, v) || (ref in lines[n - 1].refs && IsKept(lines, n - 1, v));
    }
  }

  // Some of the first n lines mentions ref, kept or not.
  predicate Appears(lines: seq<Line>, n: nat, ref: string)
    requires n <= |lines|
  {
    exists i :: 0 <= i < n && ref in lines[i].refs
  }

  lemma {:induction false} AddRefsDomain(results: Results, refs: seq<string>, guards: set<Guard>, ref: string)
    ensures ref in AddRefs(results, refs, guards) <==> ref in results || (ref in refs && ref !in EXCLUDED)
  {
    hide EXCLUDED;
    if refs != [] {
      AddRefsDomain(results, refs[..|refs| - 1], guards, ref);
      assert refs == refs[..|refs| - 1] + [refs[|refs| - 1]];
    }
  }

  lemma {:induction false} AddLinesDomain(results: Results, lines: seq<Line>, n: nat, ref: string)
    requires n <= |lines|
    ensures ref in AddLines(results, lines, n) <==> ref in results || (ref !in EXCLUDED && Appears(lines, n, ref))
  {
    hide EXCLUDED, AddRefs, GuardSet, StackAt;
    if n > 0 {
      AddLinesDomain(results, lines, n - 1, ref);
      AddRefsDomain(AddLines(results, lines, n - 1), lines[n - 1].refs, GuardSet(StackAt(lines, n)), ref);
    }
  }

  class Extractor {
    var results: Results

    constructor ()
      ensures results == map[]
    {
      results := map[];
    }

    method ProcessLine(line: Line, guardStack: seq<seq<Guard>>)
      modifies this
      ensures results == AddRefs(old(results), line.refs, GuardSet(guardStack))
    {
      var i := 0;
      while i < |line.refs|
        invariant 0 <= i <= |line.refs|
        invariant results == AddRefs(old(results), line.refs[..i], GuardSet(guardStack))
      {
        var ref := line.refs[i];
        assert line.refs[..i + 1][..i] == line.refs[..i];
        i := i + 1;
        if ref in EXCLUDED {
          continue;
        }
        var guardSet := UnionOf(guardStack);
        if ref !in results {
          results := results[ref := {}];
        }
        results := results[ref := results[ref] + {guardSet}];
      }
      assert line.refs[..i] == line.refs;
    }

    // Every line of a file, with the guard stack kept along the way.
    method ProcessFile(lines: seq<Line>)
      requires WellFormed(lines)
      modifies this
      ensures results == AddLines(old(results), lines, |lines|)
    {
      hide StackStep, AddRefs, GuardSet, FramesAt, StackMatches, WellFormed;
      var guardStack: seq<seq<Guard>> := [];
      var i := 0;
      while i < |lines|
        invariant 0 <= i <= |lines| && guardStack == StackAt(lines, i)
        invariant results == AddLines(old(results), lines, i)
      {
        var line := lines[i];
        StackReady(lines, i);
        var n := |guardStack| - 1;
        match line.kind {
          case If =>
            guardStack := guardStack + [[Plain(line.condition)]];
          case Elif =>
            var guards := guardStack[n];
            guards := guards[|guards| - 1 := Not(guards[|guards| - 1])];
            guards := guards + [Plain(line.condition)];
            guardStack := guardStack[n := guards];
          case Else =>
            var guards := guardStack[n];
            guards := guards[|guards| - 1 := Not(guards[|guards| - 1])];
            guardStack := guardStack[n := guards];
          case Endif =>
            guardStack := guardStack[..n];
          case Text =>
        }
        StackStepIs(StackAt(lines, i), line.kind, line.condition, guardStack);
        ProcessLine(line, guardStack);
        i := i + 1;
      }
    }
  }

  // There is a guard to negate, and a group to close.
  lemma StackReady(lines: seq<Line>, i: nat)
    requires WellFormed(lines) && i < |lines|
    ensures lines[i].kind in {Elif, Else, Endif} ==> StackAt(lines, i) != []
    ensures StackAt(lines, i) != [] ==> StackAt(lines, i)[|StackAt(lines, i)| - 1] != []
  {
    hide StackAt, FramesAt, SeqHolds;
    StackAtMatches(lines, i, NothingDefined());
  }

  method UnionOf(stack: seq<seq<Guard>>) returns (guards: set<Guard>)
    ensures guards == GuardSet(stack)
  {
    guards := {};
    for i := 0 to |stack|
      invariant guards == GuardSet(stack[..i])
    {
      guards := guards + (set g | g in stack[i] :: g);
    }
    assert stack[..|stack|] == stack;
  }

  lemma StackStepIs(stack: seq<seq<Guard>>, kind: Kind, c: Condition, next: seq<seq<Guard>>)
    requires kind == Text ==> next == stack
    requires kind == If ==> next == stack + [[Plain(c)]]
    requires kind in {Elif, Else, Endif} ==> stack != []
    requires kind in {Elif, Else} ==> stack[|stack| - 1] != []
    requires kind == Elif ==>
               var g := stack[|stack| - 1]; next == stack[|stack| - 1 := g[|g| - 1 := Not(g[|g| - 1])] + [Plain(c)]]
    requires kind == Else ==> var g := stack[|stack| - 1]; next == stack[|stack| - 1 := g[|g| - 1 := Not(g[|g| - 1])]]
    requires kind == Endif ==> next == stack[..|stack| - 1]
    ensures next == StackStep(stack, kind, c)
  {
    if kind in {Elif, Else} {
      var g := stack[|stack| - 1];
      assert g[|g| - 1 := Not(g[|g| - 1])] == Negated(g);
    }
  }

  method ExtractMagicStringRefs(files: seq<seq<Line>>) returns (results: Results)
    requires forall f :: 0 <= f < |files| ==> WellFormed(files[f])
    ensures NoneEmpty(results)
    ensures UsesAre(results, files)
    ensures forall ref :: ref in results <==> ref !in EXCLUDED && AppearsIn(files, ref)
  {
    hide Used, WellFormed, AddLines, KeptMention, Appears, EXCLUDED;
    var extractor := new Extractor();
    NothingUsed();
    var f := 0;
    while f < |files|
      invariant 0 <= f <= |files| && NoneEmpty(extractor.results)
      invariant UsesAre(extractor.results, files[..f])
      invariant forall ref :: ref in extractor.results <==> ref !in EXCLUDED && AppearsIn(files[..f], ref)
    {
      ghost var before := extractor.results;
      extractor.ProcessFile(files[f]);
      forall ref, v: Valuation
        ensures Used(extractor.results, ref, v) <==> ref !in EXCLUDED && Mentioned(files[..f + 1], ref, v)
      {
        AddLinesMeaning(before, files[f], |files[f]|, ref, v);
        MentionedNext(files, f, ref, v);
      }
      forall ref ensures ref in extractor.results <==> ref !in EXCLUDED && AppearsIn(files[..f + 1], ref) {
        AddLinesDomain(before, files[f], |files[f]|, ref);
        AppearsNext(files, f, ref);
      }
      AddLinesMeaning(before, files[f], |files[f]|, "", NothingDefined());
      f := f + 1;
    }
    assert files[..f] == files;
    results := extractor.results;
  }

  ghost predicate UsesAre(uses: Results, files: seq<seq<Line>>) {
    forall ref, v: Valuation :: Used(uses, ref, v) <==> ref !in EXCLUDED && Mentioned(files, ref, v)
  }

  predicate AppearsIn(files: seq<seq<Line>>, ref: string) {
    exists f :: 0 <= f < |files| && Appears(files[f], |files[f]|, ref)
  }

  lemma AppearsNext(files: seq<seq<Line>>, f: nat, ref: string)
    requires f < |files|
    ensures AppearsIn(files[..f + 1], ref) <==> AppearsIn(files[..f], ref) || Appears(files[f], |files[f]|, ref)
  {
    hide Appears;
    assert files[..f + 1] == files[..f] + [files[f]];
    if AppearsIn(files[..f + 1], ref) {
      var k :| 0 <= k < f + 1 && Appears(files[..f + 1][k], |files[..f + 1][k]|, ref);
      if k < f { assert files[..f][k] == files[k]; }
    }
    if AppearsIn(files[..f], ref) {
      var k :| 0 <= k < f && Appears(files[..f][k], |files[..f][k]|, ref);
      assert files[..f + 1][k] == files[k];
    }
    if Appears(files[f], |files[f]|, ref) {
      assert files[..f + 1][f] == files[f];
    }
  }

  // Some line of some file mentions ref and is kept.
  ghost predicate Mentioned(files: seq<seq<Line>>, ref: string, v: Valuation) {
    exists f :: 0 <= f < |files| && KeptMention(files[f], |files[f]|, ref, v)
  }

  lemma NothingUsed()
    ensures forall ref, v: Valuation :: !Used(map[], ref, v)
  {}

  lemma MentionedNext(files: seq<seq<Line>>, f: nat, ref: string, v: Valuation)
    requires f < |files|
    ensures Mentioned(files[..f + 1], ref, v) <==> Mentioned(files[..f], ref, v) || KeptMention(files[f], |files[f]|, ref, v)
  {
    hide KeptMention;
    assert files[..f + 1] == files[..f] + [files[f]];
    if Mentioned(files[..f + 1], ref, v) {
      var k :| 0 <= k < f + 1 && KeptMention(files[..f + 1][k], |files[..f + 1][k]|, ref, v);
      if k < f { assert files[..f][k] == files[k]; }
    }
    if Mentioned(files[..f], ref, v) {
      var k :| 0 <= k < f && KeptMention(files[..f][k], |files[..f][k]|, ref, v);
      assert files[..f + 1][k] == files[k];
    }
    if KeptMention(files[f], |files[f]|, ref, v) {
      assert files[..f + 1][f] == files[f];
    }
  }

  // ---- the most general guards

  // The sets that have no proper subset among them.
  ghost function Minimal(sets: set<set<Guard>>): set<set<Guard>> {
    set s | s in sets && IsMinimal(sets, s)
  }

  ghost predicate IsMinimal(sets: set<set<Guard>>, s: set<Guard>) {
    forall t :: t in sets ==> !(t < s)
  }

  // Under every set there is a minimal one.
  lemma {:induction false} MinimalBelow(sets: set<set<Guard>>, s: set<Guard>) returns (m: set<Guard>)
    requires s in sets
    ensures m in Minimal(sets) && m <= s
    decreases |s|
  {
    m := s;
    if !IsMinimal(sets, s) {
      var t :| t in sets && t < s;
      SmallerSet(t, s);
      m := MinimalBelow(sets, t);
    }
  }

  lemma SmallerSet(t: set<Guard>, s: set<Guard>)
    requires t < s
    ensures |t| < |s|
  {
    assert s == t + (s - t) && t !! (s - t);
  }

  // Dropping the larger sets does not change when one of them holds.
  lemma MinimalMeaning(sets: set<set<Guard>>, v: Valuation)
    ensures AnyHolds(Minimal(sets), v) <==> AnyHolds(sets, v)
  {
    if AnyHolds(sets, v) {
      var s :| s in sets && AllHold(s, v);
      var m := MinimalBelow(sets, s);
      assert AllHold(m, v);
    }
    if AnyHolds(Minimal(sets), v) {
      var s :| s in Minimal(sets) && AllHold(s, v);
      assert s in sets;
    }
  }

  method Enumerate(sets: set<set<Guard>>) returns (items: seq<set<Guard>>)
    ensures forall s :: s in sets <==> s in items
  {
    items := [];
    var rest := sets;
    while rest != {}
      invariant rest <= sets
      invariant forall s :: s in sets <==> s in rest || s in items
      decreases |rest|
    {
      var s :| s in rest;
      items := items + [s];
      rest := rest - {s};
    }
  }

  datatype Maybe = Gone | Left(guard: set<Guard>)

  // What is gone was above one of the first n items.
  ghost predicate OnlyAbsorbed(items: seq<set<Guard>>, guards: seq<Maybe>, n: nat) {
    && |guards| == |items| && n <= |items|
    && forall j :: 0 <= j < |items| ==>
         if guards[j].Gone? then exists i :: 0 <= i < n && items[i] < items[j] else guards[j].guard == items[j]
  }

  // The first n items have removed all above them.
  ghost predicate AllAbsorbed(items: seq<set<Guard>>, guards: seq<Maybe>, n: nat) {
    |guards| == |items| && forall i, j :: 0 <= i < n && i < |items| && 0 <= j < |items| && items[i] < items[j] ==> guards[j].Gone?
  }

  // The two loops that remove the sets above another set.
  method Absorb(sets: set<set<Guard>>) returns (minimal: set<set<Guard>>)
    ensures minimal == Minimal(sets)
  {
    var items := Enumerate(sets);
    var guards := seq(|items|, i requires 0 <= i < |items| => Left(items[i]));
    var i := 0;
    while i < |guards|
      invariant 0 <= i <= |items| && OnlyAbsorbed(items, guards, i) && AllAbsorbed(items, guards, i)
    {
      if guards[i].Gone? {
        AlreadyAbsorbed(items, guards, i);
        i := i + 1;
        continue;
      }
      ghost var before := guards;
      var j := 0;
      while j < |guards|
        invariant 0 <= j <= |items| && |guards| == |items| && guards[i] == Left(items[i])
        invariant OnlyAbsorbed(items, guards, i + 1) && AllAbsorbed(items, guards, i)
        invariant forall k :: 0 <= k < j && items[i] < items[k] ==> guards[k].Gone?
      {
        if j != i && !guards[j].Gone? && guards[i].guard < guards[j].guard {
          guards := guards[j := Gone];
        }
        j := j + 1;
      }
      i := i + 1;
    }
    minimal := set k | 0 <= k < |guards| && !guards[k].Gone? :: guards[k].guard;
    Absorbed(sets, items, guards, minimal);
  }

  lemma AlreadyAbsorbed(items: seq<set<Guard>>, guards: seq<Maybe>, i: nat)
    requires i < |items| && OnlyAbsorbed(items, guards, i) && AllAbsorbed(items, guards, i) && guards[i].Gone?
    ensures OnlyAbsorbed(items, guards, i + 1) && AllAbsorbed(items, guards, i + 1)
  {
    var k :| 0 <= k < i && items[k] < items[i];
    forall j | 0 <= j < |items| && items[i] < items[j] ensures guards[j].Gone? {
      assert items[k] < items[j];
    }
  }

  lemma Absorbed(sets: set<set<Guard>>, items: seq<set<Guard>>, guards: seq<Maybe>, minimal: set<set<Guard>>)
    requires forall s :: s in sets <==> s in items
    requires OnlyAbsorbed(items, guards, |items|) && AllAbsorbed(items, guards, |items|)
    requires minimal == set k | 0 <= k < |guards| && !guards[k].Gone? :: guards[k].guard
    ensures minimal == Minimal(sets)
  {
    forall s ensures s in minimal <==> s in Minimal(sets) {
      if s in minimal {
        var k :| 0 <= k < |guards| && !guards[k].Gone? && guards[k].guard == s;
        assert s == items[k];
        forall t | t in sets ensures !(t < s) {
          var i :| 0 <= i < |items| && items[i] == t;
        }
      }
      if s in Minimal(sets) {
        var k :| 0 <= k < |items| && items[k] == s;
        assert forall i :: 0 <= i < |items| ==> items[i] in sets;
        assert guards[k].Left?;
      }
    }
  }

  // ---- definitions with their guards

  datatype Def = Def(ref: string, value: string)
  datatype Extended = Extended(ref: string, value: string, guards: set<set<Guard>>)

  // Definitions that are used, in their order.
  ghost function Extend(defs: seq<Def>, uses: Results): seq<Extended> {
    if defs == [] then []
    else
      var d := defs[|defs| - 1];
      Extend(defs[..|defs| - 1], uses) + if d.ref in uses then [Extended(d.ref, d.value, Minimal(uses[d.ref]))] else []
  }

  method CalculateMagicStringGuards(defs: seq<Def>, uses: Results) returns (extended: seq<Extended>)
    ensures extended == Extend(defs, uses)
  {
    extended := [];
    var i := 0;
    while i < |defs|
      invariant 0 <= i <= |defs| && extended == Extend(defs[..i], uses)
    {
      assert defs[..i + 1][..i] == defs[..i];
      if defs[i].ref in uses {
        var guards := Absorb(uses[defs[i].ref]);
        extended := extended + [Extended(defs[i].ref, defs[i].value, guards)];
      }
      i := i + 1;
    }
    assert defs[..i] == defs;
  }

  // ---- the generated header

  // A line of the header: a directive, a definition, or the first string of some size.
  datatype Output =
    | Directive(kind: Kind, guards: set<set<Guard>>)
    | Definition(ref: string, value: string)
    | First(size: nat, ref: string)

  ghost function OutputFrames(out: seq<Output>, v: Valuation): seq<Frame> {
    if out == [] then []
    else
      var o := out[|out| - 1];
      var frames := OutputFrames(out[..|out| - 1], v);
      if o.Directive? then Step(frames, o.kind, AnyHolds(o.guards, v)) else frames
  }

  // What the preprocessor leaves of the header.
  ghost function Preprocessed(out: seq<Output>, v: Valuation): seq<Output> {
    if out == [] then []
    else
      var o := out[|out| - 1];
      Preprocessed(out[..|out| - 1], v) + if !o.Directive? && Kept(OutputFrames(out, v)) then [o] else []
  }

  // Every directive is in order where it stands.
  ghost predicate Orderly(out: seq<Output>, v: Valuation) {
    forall i :: 0 <= i < |out| && out[i].Directive? ==> InOrder(OutputFrames(out[..i], v), out[i].kind)
  }

  // Every directive is in order, and every group is closed at the end.
  ghost predicate Balanced(out: seq<Output>, v: Valuation) {
    Orderly(out, v) && OutputFrames(out, v) == []
  }

  lemma OrderlyNext(out: seq<Output>, o: Output, v: Valuation)
    ensures Orderly(out + [o], v) <==> Orderly(out, v) && (o.Directive? ==> InOrder(OutputFrames(out, v), o.kind))
  {
    hide OutputFrames, InOrder;
    var next := out + [o];
    assert next[..|out|] == out;
    assert forall i :: 0 <= i < |out| ==> next[..i] == out[..i] && next[i] == out[i];
    if Orderly(next, v) {
      forall i | 0 <= i < |out| && out[i].Directive? ensures InOrder(OutputFrames(out[..i], v), out[i].kind) {
        assert next[i].Directive?;
      }
      assert o.Directive? ==> next[|out|].Directive?;
    }
  }

  lemma OutputNext(out: seq<Output>, o: Output, v: Valuation)
    ensures OutputFrames(out + [o], v)
            == if o.Directive? then Step(OutputFrames(out, v), o.kind, AnyHolds(o.guards, v)) else OutputFrames(out, v)
    ensures Preprocessed(out + [o], v)
            == Preprocessed(out, v) + if !o.Directive? && Kept(OutputFrames(out, v)) then [o] else []
    ensures Orderly(out + [o], v) <==> Orderly(out, v) && (o.Directive? ==> InOrder(OutputFrames(out, v), o.kind))
  {
    OrderlyNext(out, o, v);
    hide Orderly;
    assert (out + [o])[..|out|] == out;
  }

  // The definitions whose guards hold, in their order.
  ghost function Enabled(defs: seq<Extended>, v: Valuation): seq<Output> {
    if defs == [] then []
    else
      var d := defs[|defs| - 1];
      Enabled(defs[..|defs| - 1], v) + if AnyHolds(d.guards, v) then [Definition(d.ref, d.value)] else []
  }

  // Inside the group that is open for these guards, if one is needed.
  ghost function GroupFor(guards: set<set<Guard>>, v: Valuation): seq<Frame> {
    if {} in guards then [] else [Frame(AnyHolds(guards, v), AnyHolds(guards, v), false)]
  }

  lemma AlwaysHolds(guards: set<set<Guard>>, v: Valuation)
    ensures {} in guards ==> AnyHolds(guards, v)
    ensures Kept(GroupFor(guards, v)) <==> AnyHolds(guards, v)
  {
    assert AllHold({}, v);
    assert {} in guards ==> AnyHolds(guards, v);
    hide AnyHolds;
    if {} !in guards {
      assert GroupFor(guards, v)[0].active <==> AnyHolds(guards, v);
    }
  }

  ghost predicate DefsWritten(out: seq<Output>, defs: seq<Extended>, last: set<set<Guard>>) {
    forall v: Valuation ::
      OutputFrames(out, v) == GroupFor(last, v) && Preprocessed(out, v) == Enabled(defs, v) && Orderly(out, v)
  }

  ghost function Closed(out: seq<Output>, last: set<set<Guard>>): seq<Output> {
    if {} in last then out else out + [Directive(Endif, {})]
  }

  ghost function Opened(out: seq<Output>, guards: set<set<Guard>>): seq<Output> {
    if {} in guards then out else out + [Directive(If, guards)]
  }

  // Closing and opening a group turns one into the other.
  lemma GroupChanged(out: seq<Output>, last: set<set<Guard>>, guards: set<set<Guard>>, v: Valuation)
    requires OutputFrames(out, v) == GroupFor(last, v) && Orderly(out, v)
    ensures Orderly(Closed(out, last), v) && Orderly(Opened(Closed(out, last), guards), v)
    ensures OutputFrames(Closed(out, last), v) == [] && Preprocessed(Closed(out, last), v) == Preprocessed(out, v)
    ensures OutputFrames(Opened(Closed(out, last), guards), v) == GroupFor(guards, v)
    ensures Preprocessed(Opened(Closed(out, last), guards), v) == Preprocessed(out, v)
  {
    hide AnyHolds, Preprocessed, OutputFrames, Orderly;
    OutputNext(out, Directive(Endif, {}), v);
    OutputNext(Closed(out, last), Directive(If, guards), v);
  }

  // generate_magic_string_defs: exactly the enabled definitions are left.
  method GenerateMagicStringDefs(defs: seq<Extended>) returns (out: seq<Output>)
    ensures forall v: Valuation :: Balanced(out, v) && Preprocessed(out, v) == Enabled(defs, v)
  {
    hide AnyHolds, Preprocessed, OutputFrames, Orderly;
    out := [];
    var lastGuards: set<set<Guard>> := {{}};
    NothingWritten();
    var i := 0;
    while i < |defs|
      invariant 0 <= i <= |defs| && DefsWritten(out, defs[..i], lastGuards)
    {
      var guards := defs[i].guards;
      ghost var before := out;
      if lastGuards != guards {
        if {} !in lastGuards {
          out := out + [Directive(Endif, {})];
        }
        if {} !in guards {
          out := out + [Directive(If, guards)];
        }
      }
      ghost var inside := out;
      out := out + [Definition(defs[i].ref, defs[i].value)];
      forall v: Valuation
        ensures OutputFrames(out, v) == GroupFor(guards, v) && Preprocessed(out, v) == Enabled(defs[..i + 1], v)
        ensures Orderly(out, v)
      {
        GroupChanged(before, lastGuards, guards, v);
        OutputNext(inside, Definition(defs[i].ref, defs[i].value), v);
        AlwaysHolds(guards, v);
        assert defs[..i + 1][..i] == defs[..i];
      }
      lastGuards := guards;
      i := i + 1;
    }
    assert defs[..i] == defs;
    ghost var before := out;
    if {} !in lastGuards {
      out := out + [Directive(Endif, {})];
    }
    forall v: Valuation ensures Balanced(out, v) && Preprocessed(out, v) == Enabled(defs, v) {
      GroupChanged(before, lastGuards, {{}}, v);
    }
  }

  lemma NothingWritten()
    ensures DefsWritten([], [], {{}})
  {}

  // ---- the first string of each size

  // The first enabled definition that is long enough.
  ghost function FirstEnabled(defs: seq<Extended>, size: nat, v: Valuation): seq<Output> {
    if defs == [] then []
    else
      var d := defs[|defs| - 1];
      var earlier := FirstEnabled(defs[..|defs| - 1], size, v);
      if earlier == [] && |d.value| >= size && AnyHolds(d.guards, v) then [First(size, d.ref)] else earlier
  }

  // Between two rounds of the inner loop: before is the output at the start of the chain,
  // last the guards of the last branch ({{}} before the first branch).
  ghost predicate ChainAt(before: seq<Output>, out: seq<Output>, first: seq<Output>, last: set<set<Guard>>, v: Valuation) {
    && Preprocessed(out, v) == Preprocessed(before, v) + first && Orderly(out, v)
    && (if {} in last then first == [] && OutputFrames(out, v) == []
        else
          && |OutputFrames(out, v)| == 1 && !OutputFrames(out, v)[0].elseSeen
          && (OutputFrames(out, v)[0].taken <==> first != [])
          && (AnyHolds(last, v) ==> first != []))
  }

  ghost predicate Chained(before: seq<Output>, out: seq<Output>, defs: seq<Extended>, size: nat, last: set<set<Guard>>) {
    forall v: Valuation :: ChainAt(before, out, FirstEnabled(defs, size, v), last, v)
  }

  lemma FirstEnabledNext(defs: seq<Extended>, i: nat, size: nat, v: Valuation)
    requires i < |defs|
    ensures FirstEnabled(defs[..i + 1], size, v)
            == if FirstEnabled(defs[..i], size, v) == [] && |defs[i].value| >= size && AnyHolds(defs[i].guards, v)
               then [First(size, defs[i].ref)] else FirstEnabled(defs[..i], size, v)
  {
    hide AnyHolds;
    assert defs[..i + 1][..i] == defs[..i];
  }

  // Once a definition is found, later ones do not matter.
  lemma FirstEnabledStays(defs: seq<Extended>, i: nat, size: nat, v: Valuation)
    requires i <= |defs| && FirstEnabled(defs[..i], size, v) != []
    ensures FirstEnabled(defs, size, v) == FirstEnabled(defs[..i], size, v)
    decreases |defs| - i
  {
    hide AnyHolds, FirstEnabled;
    if i == |defs| {
      assert defs[..i] == defs;
    } else {
      FirstEnabledNext(defs, i, size, v);
      FirstEnabledStays(defs, i + 1, size, v);
    }
  }

  // A new branch: #if for the first one, #elif after that.
  lemma ChainBranch(before: seq<Output>, out: seq<Output>, first: seq<Output>, last: set<set<Guard>>, guards: set<set<Guard>>,
                    o: Output, v: Valuation)
    requires ChainAt(before, out, first, last, v) && {} !in guards && o.First?
    ensures ChainAt(before, out + [Directive(if {} in last then If else Elif, guards)] + [o],
                    if first == [] && AnyHolds(guards, v) then [o] else first, guards, v)
  {
    hide AnyHolds, Preprocessed, OutputFrames, Orderly;
    var d := Directive(if {} in last then If else Elif, guards);
    OutputNext(out, d, v);
    OutputNext(out + [d], o, v);
    var f := OutputFrames(out + [d], v);
    assert |f| == 1 && (f[0].active <==> first == [] && AnyHolds(guards, v));
    assert Kept(f) <==> f[0].active;
    assert Preprocessed(out + [d], v) == Preprocessed(out, v);
  }

  // The last branch, for guards that always hold: #else, or no group at all.
  lemma ChainElse(before: seq<Output>, out: seq<Output>, first: seq<Output>, last: set<set<Guard>>, o: Output, v: Valuation)
    requires ChainAt(before, out, first, last, v) && o.First?
    ensures var ended := (if {} in last then out else out + [Directive(Else, {})]) + [o];
            && Preprocessed(ended, v) == Preprocessed(before, v) + (if first == [] then [o] else first)
            && |OutputFrames(ended, v)| == (if {} in last then 0 else 1) && Orderly(ended, v)
  {
    hide AnyHolds, Preprocessed, OutputFrames, Orderly;
    var d := Directive(Else, {});
    if {} in last {
      OutputNext(out, o, v);
    } else {
      OutputNext(out, d, v);
      OutputNext(out + [d], o, v);
      var f := OutputFrames(out + [d], v);
      assert |f| == 1 && (f[0].active <==> first == []);
      assert Kept(f) <==> f[0].active;
      assert Preprocessed(out + [d], v) == Preprocessed(out, v);
    }
  }

  // Closing the chain.
  lemma ChainClosed(out: seq<Output>, v: Valuation)
    requires |OutputFrames(out, v)| == 1 && Orderly(out, v)
    ensures Balanced(out + [Directive(Endif, {})], v)
    ensures Preprocessed(out + [Directive(Endif, {})], v) == Preprocessed(out, v)
  {
    OutputNext(out, Directive(Endif, {}), v);
    hide Orderly, OutputFrames, Preprocessed;
  }

  // The inner loop of generate_first_magic_strings: of the entries of the chain, the first
  // enabled definition of the size is left, or none. Definitions are skipped when their
  // guards are those of the branch before, and all that follow one that is always enabled.
  method FirstWithSize(defs: seq<Extended>, size: nat, before: seq<Output>) returns (out: seq<Output>)
    requires forall v: Valuation :: Balanced(before, v)
    ensures forall v: Valuation ::
              Balanced(out, v) && Preprocessed(out, v) == Preprocessed(before, v) + FirstEnabled(defs, size, v)
  {
    hide AnyHolds, Preprocessed, OutputFrames, Orderly, FirstEnabled;
    out := before;
    var lastGuards: set<set<Guard>> := {{}};
    var i, ended := 0, false;
    ChainStart(before, size);
    assert defs[..0] == [];
    while i < |defs| && !ended
      invariant 0 <= i <= |defs|
      invariant !ended ==> Chained(before, out, defs[..i], size, lastGuards)
      invariant ended ==> forall v: Valuation ::
                    && Preprocessed(out, v) == Preprocessed(before, v) + FirstEnabled(defs, size, v)
                    && |OutputFrames(out, v)| == (if {} in lastGuards then 0 else 1) && Orderly(out, v)
      decreases |defs| - i, !ended
    {
      var guards, entry := defs[i].guards, First(size, defs[i].ref);
      ghost var was, last := out, lastGuards;
      if |defs[i].value| >= size {
        if {} in guards {
          if {} !in lastGuards {
            out := out + [Directive(Else, {})];
          }
          out := out + [entry];
          ended := true;
          forall v: Valuation
            ensures Preprocessed(out, v) == Preprocessed(before, v) + FirstEnabled(defs, size, v)
            ensures |OutputFrames(out, v)| == (if {} in lastGuards then 0 else 1) && Orderly(out, v)
          {
            AlwaysHolds(guards, v);
            FirstEnabledNext(defs, i, size, v);
            FirstEnabledStays(defs, i + 1, size, v);
            ChainElse(before, was, FirstEnabled(defs[..i], size, v), last, entry, v);
          }
        } else if {} !in lastGuards && guards == lastGuards {
          SkippedSame(before, out, defs, i, size, lastGuards);
        } else {
          out := out + [Directive(if {} in lastGuards then If else Elif, guards)];
          out := out + [entry];
          lastGuards := guards;
          ghost var next := defs[..i + 1];
          forall v: Valuation ensures ChainAt(before, out, FirstEnabled(next, size, v), guards, v) {
            FirstEnabledNext(defs, i, size, v);
            ChainBranch(before, was, FirstEnabled(defs[..i], size, v), last, guards, entry, v);
          }
        }
      } else {
        ghost var next := defs[..i + 1];
        forall v: Valuation ensures ChainAt(before, out, FirstEnabled(next, size, v), lastGuards, v) {
          FirstEnabledNext(defs, i, size, v);
        }
      }
      i := i + 1;
    }
    ghost var open := out;
    if {} !in lastGuards {
      out := out + [Directive(Endif, {})];
    }
    assert !ended ==> defs[..i] == defs;
    forall v: Valuation
      ensures Balanced(out, v) && Preprocessed(out, v) == Preprocessed(before, v) + FirstEnabled(defs, size, v)
    {
      if !ended {
        assert ChainAt(before, open, FirstEnabled(defs, size, v), lastGuards, v);
      }
      if {} !in lastGuards {
        ChainClosed(open, v);
      }
    }
  }

  lemma ChainStart(before: seq<Output>, size: nat)
    requires forall v: Valuation :: Balanced(before, v)
    ensures Chained(before, before, [], size, {{}})
  {
    hide AnyHolds, Preprocessed, OutputFrames, Orderly;
    forall v: Valuation ensures ChainAt(before, before, FirstEnabled([], size, v), {{}}, v) {
      assert Balanced(before, v);
    }
  }

  // The branch before already stands for a definition with the same guards.
  lemma SkippedSame(before: seq<Output>, out: seq<Output>, defs: seq<Extended>, i: nat, size: nat, last: set<set<Guard>>)
    requires i < |defs| && Chained(before, out, defs[..i], size, last) && {} !in last && defs[i].guards == last
    ensures Chained(before, out, defs[..i + 1], size, last)
  {
    hide AnyHolds, Preprocessed, OutputFrames, Orderly, FirstEnabled;
    var next := defs[..i + 1];
    forall v: Valuation ensures ChainAt(before, out, FirstEnabled(next, size, v), last, v) {
      FirstEnabledNext(defs, i, size, v);
      assert ChainAt(before, out, FirstEnabled(defs[..i], size, v), last, v);
    }
  }

  // The entries for the sizes below n.
  ghost function FirstStrings(defs: seq<Extended>, n: nat, v: Valuation): seq<Output> {
    if n == 0 then [] else FirstStrings(defs, n - 1, v) + FirstEnabled(defs, n - 1, v)
  }

  method GenerateFirstMagicStrings(defs: seq<Extended>, before: seq<Output>) returns (out: seq<Output>)
    requires defs != []
    requires forall v: Valuation :: Balanced(before, v)
    ensures forall v: Valuation ::
              Balanced(out, v) && Preprocessed(out, v) == Preprocessed(before, v) + FirstStrings(defs, |defs[|defs| - 1].value| + 1, v)
  {
    hide Preprocessed, OutputFrames, FirstEnabled, Balanced;
    out := before;
    var size := 0;
    while size < |defs[|defs| - 1].value| + 1
      invariant 0 <= size <= |defs[|defs| - 1].value| + 1
      invariant forall v: Valuation ::
                  Balanced(out, v) && Preprocessed(out, v) == Preprocessed(before, v) + FirstStrings(defs, size, v)
    {
      out := FirstWithSize(defs, size, out);
      size := size + 1;
    }
  }

  // ---- the whole generator

  // A definition is used when a line that mentions it is kept.
  ghost predicate IsWanted(d: Def, files: seq<seq<Line>>, v: Valuation) {
    d.ref !in EXCLUDED && Mentioned(files, d.ref, v)
  }

  // The definitions that are wanted, in their order.
  ghost function Wanted(defs: seq<Def>, files: seq<seq<Line>>, v: Valuation): seq<Output> {
    if defs == [] then []
    else
      var d := defs[|defs| - 1];
      Wanted(defs[..|defs| - 1], files, v) + if IsWanted(d, files, v) then [Definition(d.ref, d.value)] else []
  }

  // The first wanted definition that is long enough.
  ghost function FirstWanted(defs: seq<Def>, files: seq<seq<Line>>, size: nat, v: Valuation): seq<Output> {
    if defs == [] then []
    else
      var d := defs[|defs| - 1];
      var earlier := FirstWanted(defs[..|defs| - 1], files, size, v);
      if earlier == [] && |d.value| >= size && IsWanted(d, files, v) then [First(size, d.ref)] else earlier
  }

  ghost function FirstWantedStrings(defs: seq<Def>, files: seq<seq<Line>>, n: nat, v: Valuation): seq<Output> {
    if n == 0 then [] else FirstWantedStrings(defs, files, n - 1, v) + FirstWanted(defs, files, n - 1, v)
  }

  lemma {:induction false} EnabledAreWanted(defs: seq<Def>, uses: Results, files: seq<seq<Line>>, size: nat, v: Valuation)
    requires UsesAre(uses, files)
    ensures Enabled(Extend(defs, uses), v) == Wanted(defs, files, v)
    ensures FirstEnabled(Extend(defs, uses), size, v) == FirstWanted(defs, files, size, v)
  {
    hide AnyHolds, Mentioned, Minimal, EXCLUDED;
    if defs != [] {
      var n := |defs| - 1;
      EnabledAreWanted(defs[..n], uses, files, size, v);
      assert Used(uses, defs[n].ref, v) <==> IsWanted(defs[n], files, v);
      if defs[n].ref in uses {
        MinimalMeaning(uses[defs[n].ref], v);
        var e := Extend(defs[..n], uses);
        var last := Extended(defs[n].ref, defs[n].value, Minimal(uses[defs[n].ref]));
        assert (e + [last])[..|e|] == e;
      } else {
        assert Extend(defs, uses) == Extend(defs[..n], uses);
      }
    }
  }

  lemma FirstStringsAreWanted(defs: seq<Def>, uses: Results, files: seq<seq<Line>>, n: nat, v: Valuation)
    requires UsesAre(uses, files)
    ensures FirstStrings(Extend(defs, uses), n, v) == FirstWantedStrings(defs, files, n, v)
  {
    if n > 0 {
      FirstStringsAreWanted(defs, uses, files, n - 1, v);
      EnabledAreWanted(defs, uses, files, n - 1, v);
    }
  }

  predicate IsDefined(d: Def, files: seq<seq<Line>>) {
    d.ref !in EXCLUDED && AppearsIn(files, d.ref)
  }

  // The length of the last definition that is mentioned at all.
  function LastLength(defs: seq<Def>, files: seq<seq<Line>>): nat {
    if defs == [] then 0
    else if IsDefined(defs[|defs| - 1], files) then |defs[|defs| - 1].value|
    else LastLength(defs[..|defs| - 1], files)
  }

  lemma {:induction false} LastExtended(defs: seq<Def>, uses: Results, files: seq<seq<Line>>)
    requires forall ref :: ref in uses <==> ref !in EXCLUDED && AppearsIn(files, ref)
    ensures var e := Extend(defs, uses);
            && (e != [] ==> |e[|e| - 1].value| == LastLength(defs, files))
            && (e != [] <==> exists d :: d in defs && IsDefined(d, files))
  {
    hide AppearsIn, EXCLUDED, Minimal;
    if defs != [] {
      var n := |defs| - 1;
      LastExtended(defs[..n], uses, files);
      assert defs == defs[..n] + [defs[n]];
      assert IsDefined(defs[n], files) <==> defs[n].ref in uses;
      assert defs[n] in defs;
    }
  }

  // The definitions are sorted by length, so there is no string of a larger size.
  lemma {:induction false} NoLongerString(defs: seq<Def>, files: seq<seq<Line>>, size: nat, v: Valuation)
    requires forall i, j :: 0 <= i < j < |defs| ==> |defs[i].value| <= |defs[j].value|
    requires size > LastLength(defs, files)
    ensures FirstWanted(defs, files, size, v) == []
  {
    hide AppearsIn, EXCLUDED, Mentioned;
    if defs != [] {
      var n := |defs| - 1;
      WantedAppears(defs[n], files, v);
      if IsDefined(defs[n], files) {
        LastIsLongest(defs[..n], files, |defs[n].value|);
      }
      NoLongerString(defs[..n], files, size, v);
    }
  }

  lemma {:induction false} LastIsLongest(defs: seq<Def>, files: seq<seq<Line>>, most: nat)
    requires forall i :: 0 <= i < |defs| ==> |defs[i].value| <= most
    ensures LastLength(defs, files) <= most
  {
    hide IsDefined;
    if defs != [] {
      LastIsLongest(defs[..|defs| - 1], files, most);
    }
  }

  lemma WantedAppears(d: Def, files: seq<seq<Line>>, v: Valuation)
    ensures IsWanted(d, files, v) ==> IsDefined(d, files)
  {
    if IsWanted(d, files, v) {
      var f :| 0 <= f < |files| && KeptMention(files[f], |files[f]|, d.ref, v);
      assert Appears(files[f], |files[f]|, d.ref);
    }
  }

  // The header that is generated from the definitions and the source files. Without any
  // definition that is mentioned the generator fails.
  method GenerateHeader(defs: seq<Def>, files: seq<seq<Line>>) returns (ok: bool, out: seq<Output>)
    requires forall f :: 0 <= f < |files| ==> WellFormed(files[f])
    ensures ok <==> exists d :: d in defs && IsDefined(d, files)
    ensures ok ==> forall v: Valuation ::
                     Balanced(out, v) && Preprocessed(out, v) == Wanted(defs, files, v) + FirstWantedStrings(defs, files, LastLength(defs, files) + 1, v)
  {
    hide *;
    var uses := ExtractMagicStringRefs(files);
    var extended := CalculateMagicStringGuards(defs, uses);
    LastExtended(defs, uses, files);
    if extended == [] {
      return false, [];
    }
    var definitions := GenerateMagicStringDefs(extended);
    out := GenerateFirstMagicStrings(extended, definitions);
    ok := true;
    forall v: Valuation
      ensures Balanced(out, v) && Preprocessed(out, v) == Wanted(defs, files, v) + FirstWantedStrings(defs, files, LastLength(defs, files) + 1, v)
    {
      EnabledAreWanted(defs, uses, files, 0, v);
      FirstStringsAreWanted(defs, uses, files, LastLength(defs, files) + 1, v);
      assert Preprocessed(definitions, v) == Enabled(extended, v);
    }
  }

  // A definition survives exactly when a source line that mentions it survives.
  lemma {:induction false} WantedSurvives(defs: seq<Def>, files: seq<seq<Line>>, v: Valuation, ref: string, value: string)
    ensures Definition(ref, value) in Wanted(defs, files, v) <==> Def(ref, value) in defs && ref !in EXCLUDED && Mentioned(files, ref, v)
  {
    hide Mentioned, EXCLUDED;
    if defs != [] {
      var n := |defs| - 1;
      WantedSurvives(defs[..n], files, v, ref, value);
      assert defs == defs[..n] + [defs[n]];
    }
  }

  // What FirstWanted gives is wanted and long enough, and nothing before it is both.
  lemma {:induction false} FirstWantedIsFirst(defs: seq<Def>, files: seq<seq<Line>>, size: nat, v: Valuation)
    ensures |FirstWanted(defs, files, size, v)| <= 1
    ensures FirstWanted(defs, files, size, v) == [] ==> NoneWanted(defs, files, size, |defs|, v)
    ensures FirstWanted(defs, files, size, v) != [] ==>
              exists i :: 0 <= i < |defs| && NoneWanted(defs, files, size, i, v) && IsWanted(defs[i], files, v)
                          && |defs[i].value| >= size && FirstWanted(defs, files, size, v) == [First(size, defs[i].ref)]
  {
    hide IsWanted;
    if defs != [] {
      var n := |defs| - 1;
      FirstWantedIsFirst(defs[..n], files, size, v);
      if FirstWanted(defs[..n], files, size, v) != [] {
        var i :| 0 <= i < n && NoneWanted(defs[..n], files, size, i, v) && IsWanted(defs[..n][i], files, v)
                 && |defs[..n][i].value| >= size && FirstWanted(defs[..n], files, size, v) == [First(size, defs[..n][i].ref)];
        assert NoneWanted(defs, files, size, i, v);
        assert defs[i] == defs[..n][i];
      } else {
        assert NoneWanted(defs, files, size, n, v);
      }
    }
  }

  ghost predicate NoneWanted(defs: seq<Def>, files: seq<seq<Line>>, size: nat, n: nat, v: Valuation)
    requires n <= |defs|
  {
    forall i :: 0 <= i < n ==> !(|defs[i].value| >= size && IsWanted(defs[i], files, v))
  }
}
