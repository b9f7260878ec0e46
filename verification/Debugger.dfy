// Breakpoint books of the debugger client (jerry-debugger/jerry_client_main.py), next to what
// the server has been told.
module Debugger {

  class JerryBreakpoint {
    const line: int
    const offset: int
    const byteCodeCp: int
    const sourceName: string
    var activeIndex: int

    constructor (line: int, offset: int, byteCodeCp: int, sourceName: string)
      ensures this.line == line && this.offset == offset && this.byteCodeCp == byteCodeCp
      ensures this.sourceName == sourceName && activeIndex == -1
    {
      this.line, this.offset, this.byteCodeCp, this.sourceName := line, offset, byteCodeCp, sourceName;
      activeIndex := -1;
    }
  }

  // A function never changes once it is made; its breakpoints do.
  datatype JerryFunction = JerryFunction(byteCodeCp: int, sourceName: string, name: string, line: int, sourceLines: nat,
                                         lines: map<int, JerryBreakpoint>, firstLine: int)

  type Functions = map<int, JerryFunction>

  ghost function BreakpointsOf(functions: Functions): set<JerryBreakpoint> {
    set cp, l | cp in functions && l in functions[cp].lines :: functions[cp].lines[l]
  }

  // Functions are filed under their pointer, breakpoints under their line, and breakpoints of
  // one function have different offsets.
  ghost predicate FunctionOk(f: JerryFunction) {
    && f.firstLine in f.lines
    && (forall l :: l in f.lines ==> f.lines[l].line == l && f.lines[l].byteCodeCp == f.byteCodeCp && f.lines[l].sourceName == f.sourceName)
    && (forall l, k :: l in f.lines && k in f.lines && f.lines[l].offset == f.lines[k].offset ==> l == k)
  }

  ghost predicate FunctionsOk(functions: Functions) {
    forall cp :: cp in functions ==> functions[cp].byteCodeCp == cp && FunctionOk(functions[cp])
  }

  // ---- Multimap

  class Multimap {
    var map_: map<int, seq<JerryBreakpoint>>

    constructor ()
      ensures map_ == map[]
    {
      map_ := map[];
    }

    function Get(key: int): seq<JerryBreakpoint>
      reads this
    {
      if key in map_ then map_[key] else []
    }

    method Insert(key: int, value: JerryBreakpoint, ghost bps: set<JerryBreakpoint>)
      requires LinesOk(bps, map_) && value !in bps && value.line == key
      modifies this
      ensures LinesOk(bps + {value}, map_)
    {
      ghost var was := map_;
      if key in map_ {
        map_ := map_[key := map_[key] + [value]];
      } else {
        map_ := map_[key := [value]];
      }
      assert key !in was ==> [] + [value] == [value];
      Inserted(bps, was, key, value, map_);
    }

    method Delete(key: int, value: JerryBreakpoint, ghost bps: set<JerryBreakpoint>)
      requires LinesOk(bps, map_) && value in bps && value.line == key
      modifies this
      ensures LinesOk(bps - {value}, map_)
    {
      ghost var was := map_;
      var items := map_[key];
      if |items| == 1 {
        map_ := map_ - {key};
        Deleted(bps, was, key, value, 0, map_);
      } else {
        var i := IndexOf(items, value);
        map_ := map_[key := items[..i] + items[i + 1..]];
        Deleted(bps, was, key, value, i, map_);
      }
    }
  }

  method IndexOf(items: seq<JerryBreakpoint>, value: JerryBreakpoint) returns (i: nat)
    requires value in items
    ensures i < |items| && items[i] == value
  {
    i := 0;
    while items[i] != value
      invariant i < |items| && value in items[i..]
      decreases |items| - i
    {
      i := i + 1;
    }
  }

  ghost predicate NoDuplicates(items: seq<JerryBreakpoint>) {
    forall i, j :: 0 <= i < j < |items| ==> items[i] != items[j]
  }

  // The lists hold exactly the breakpoints bps, each once and under its line; no list is empty.
  ghost predicate LinesOk(bps: set<JerryBreakpoint>, m: map<int, seq<JerryBreakpoint>>) {
    && (forall l :: l in m ==> m[l] != [] && NoDuplicates(m[l]))
    && (forall l, b :: l in m && b in m[l] ==> b in bps && b.line == l)
    && (forall b :: b in bps ==> b.line in m && b in m[b.line])
  }

  lemma Inserted(bps: set<JerryBreakpoint>, m: map<int, seq<JerryBreakpoint>>, key: int, value: JerryBreakpoint,
                 next: map<int, seq<JerryBreakpoint>>)
    requires LinesOk(bps, m) && value !in bps && value.line == key
    requires next == m[key := (if key in m then m[key] else []) + [value]]
    ensures LinesOk(bps + {value}, next)
  {}

  lemma Deleted(bps: set<JerryBreakpoint>, m: map<int, seq<JerryBreakpoint>>, key: int, value: JerryBreakpoint, i: nat,
                next: map<int, seq<JerryBreakpoint>>)
    requires LinesOk(bps, m) && value in bps && value.line == key && key in m
    requires (|m[key]| == 1 && i == 0) || (|m[key]| > 1 && i < |m[key]| && m[key][i] == value)
    requires next == if |m[key]| == 1 then m - {key} else m[key := m[key][..i] + m[key][i + 1..]]
    ensures LinesOk(bps - {value}, next)
  {
    var items := m[key];
    assert items[i] == value;
    if |items| > 1 {
      var left := items[..i] + items[i + 1..];
      forall b ensures b in left <==> b in items && b != value {
        if b in items && b != value {
          var j :| 0 <= j < |items| && items[j] == b;
          assert left[if j < i then j else j - 1] == b;
        }
        if b in left {
          var j :| 0 <= j < |left| && left[j] == b;
          assert items[if j < i then j else j + 1] == b;
        }
      }
      forall j, k | 0 <= j < k < |left| ensures left[j] != left[k] {
        assert items[if j < i then j else j + 1] == left[j];
        assert items[if k < i then k else k + 1] == left[k];
      }
    }
  }

  // ---- the server, as far as it was told

  // The enabled breakpoints (function and offset), and whether it waits after parsing.
  datatype Server = Server(enabled: set<(int, int)>, waiting: bool)

  ghost function Place(b: JerryBreakpoint): (int, int) {
    (b.byteCodeCp, b.offset)
  }

  ghost function Places(active: map<int, JerryBreakpoint>): set<(int, int)> {
    set i | i in active :: Place(active[i])
  }

  // JERRY_DEBUGGER_UPDATE_BREAKPOINT
  function Update(s: Server, enable: bool, place: (int, int)): Server {
    Server(if enable then s.enabled + {place} else s.enabled - {place}, s.waiting)
  }

  // JERRY_DEBUGGER_FREE_BYTE_CODE_CP
  function Free(s: Server, cp: int): Server {
    Server((set p | p in s.enabled && p.0 != cp), s.waiting)
  }

  // JERRY_DEBUGGER_PARSER_CONFIG
  function Configure(s: Server, enable: bool): Server {
    Server(s.enabled, enable)
  }

  // ---- breakpoints that wait for their source

  // What set_break lets through: line 0 and the empty name would read as absent.
  type PositiveLine = n: int | 0 < n witness 1
  type FunctionName = s: string | |s| > 0 witness "f"

  datatype Pending = OnLine(sourceName: string, line: PositiveLine) | OnFunction(name: FunctionName)

  predicate SourceMatches(func: string, given: string) {
    || func == given
    || EndsWith(func, "/" + given)
    || EndsWith(func, "\\" + given)
  }

  // The given name is the whole name, or what follows a separator in it.
  lemma SourceMatchesMeans(func: string, given: string)
    ensures SourceMatches(func, given) <==> exists path: string :: func == path + given && IsPath(path)
  {
    hide SourceMatches, IsPath;
    if SourceMatches(func, given) {
      MatchesPath(func, given);
    }
    forall path: string | func == path + given && IsPath(path) ensures SourceMatches(func, given) {
      PathMatches(path, given);
    }
  }

  // Nothing, or a text that ends in a separator.
  predicate IsPath(path: string) {
    path == [] || path[|path| - 1] == '/' || path[|path| - 1] == '\\'
  }

  lemma MatchesPath(func: string, given: string)
    requires SourceMatches(func, given)
    ensures exists path: string :: func == path + given && IsPath(path)
  {
    if func == given {
      assert func == [] + given;
    } else if EndsWith(func, "/" + given) {
      EndsAfter(func, "/", given);
    } else {
      EndsAfter(func, "\\", given);
    }
  }

  lemma PathMatches(path: string, given: string)
    requires IsPath(path)
    ensures SourceMatches(path + given, given)
  {
    if path == [] {
      assert path + given == given;
    } else {
      var n := |path| - 1;
      assert (path + given)[n..] == [path[n]] + given;
    }
  }

  lemma EndsAfter(func: string, separator: string, given: string)
    requires |separator| == 1 && EndsWith(func, separator + given)
    ensures exists path: string :: func == path + given && path != [] && path[|path| - 1] == separator[0]
  {
    var n := |func| - |given|;
    assert func[n - 1..] == separator + given;
    assert func == func[..n] + given;
  }

  predicate EndsWith(s: string, t: string) {
    |t| <= |s| && s[|s| - |t|..] == t
  }

  // The breakpoints that the request asks for.
  ghost function AskedBy(functions: Functions, p: Pending): set<JerryBreakpoint> {
    match p
    case OnLine(name, line) =>
      set b | b in BreakpointsOf(functions) && b.line == line && SourceMatches(b.sourceName, name)
    case OnFunction(name) =>
      set cp | cp in functions && functions[cp].name == name && functions[cp].firstLine in functions[cp].lines ::
        functions[cp].lines[functions[cp].firstLine]
  }

  ghost function Matching(items: seq<JerryBreakpoint>, sourceName: string): set<JerryBreakpoint> {
    set b | b in items && SourceMatches(b.sourceName, sourceName)
  }

  // ---- the books

  // The index that each breakpoint has.
  ghost function Marks(bps: set<JerryBreakpoint>): (m: map<JerryBreakpoint, int>)
    reads bps
    ensures m.Keys == bps
  {
    map b | b in bps :: b.activeIndex
  }

  // Active breakpoints know their index, and nothing else has one.
  ghost predicate ActiveOk(bps: set<JerryBreakpoint>, active: map<int, JerryBreakpoint>, marks: map<JerryBreakpoint, int>) {
    && marks.Keys == bps
    && (forall i :: i in active ==> i >= 1 && active[i] in bps && marks[active[i]] == i)
    && (forall b :: b in bps && marks[b] >= 0 ==> marks[b] in active && active[marks[b]] == b)
  }

  // Indices are given out in turn, to active and pending breakpoints alike.
  ghost predicate IndicesOk(active: map<int, JerryBreakpoint>, pending: map<int, Pending>, last: int) {
    && (forall i :: i in active ==> 1 <= i <= last)
    && (forall i :: i in pending ==> 1 <= i <= last && i !in active)
    && (forall i, j :: i in pending && j in pending && pending[i] == pending[j] ==> i == j)
  }

  ghost predicate BooksAgree(functions: Functions, lineMap: map<int, seq<JerryBreakpoint>>, active: map<int, JerryBreakpoint>,
                             marks: map<JerryBreakpoint, int>, pending: map<int, Pending>, last: int, enabled: set<(int, int)>) {
    && FunctionsOk(functions) && LinesOk(BreakpointsOf(functions), lineMap)
    && ActiveOk(BreakpointsOf(functions), active, marks)
    && IndicesOk(active, pending, last) && last >= 0
    && enabled == Places(active)
  }

  // What the server reports about a function.
  datatype Report = Report(byteCodeCp: int, sourceName: string, name: string, line: int, sourceLines: nat,
                           lines: seq<int>, offsets: seq<int>)

  // There is a breakpoint, and every breakpoint has its own offset.
  predicate Sound(r: Report) {
    && 0 < |r.lines| == |r.offsets|
    && forall i, j :: 0 <= i < j < |r.offsets| ==> r.offsets[i] != r.offsets[j]
  }

  // A user command, or a message of the server.
  datatype Step =
    | Set(request: Pending, answer: bool)
    | Delete(index: int)
    | DeleteMany(active: bool, pending: bool)
    | Release(byteCodeCp: int)
    | Parse(reports: seq<Report>)

  // The known pointers after a step. A report that the server cannot send (an unknown function
  // released, a pointer in use given out again) is passed over.
  predicate Accepted(known: set<int>, reports: seq<Report>) {
    forall k :: 0 <= k < |reports| ==> Sound(reports[k]) && reports[k].byteCodeCp !in known
  }

  // What the server can send: every function has a breakpoint, and an offset for each of its own,
  // and pointers in use are not given out again.
  ghost predicate CanArrive(known: set<int>, reports: seq<Report>) {
    forall k :: 0 <= k < |reports| ==>
      && reports[k].byteCodeCp !in known && 0 < |reports[k].lines| == |reports[k].offsets|
      && forall i, j :: 0 <= i < j < |reports[k].offsets| ==> reports[k].offsets[i] != reports[k].offsets[j]
  }

  lemma CanArriveIs(known: set<int>, reports: seq<Report>)
    ensures CanArrive(known, reports) <==> Accepted(known, reports)
  {}

  ghost function PointersAfter(known: set<int>, step: Step): set<int> {
    match step
    case Release(cp) => known - {cp}
    case Parse(reports) =>
      if Accepted(known, reports) then known + set k | 0 <= k < |reports| :: reports[k].byteCodeCp else known
    case _ => known
  }

  ghost function PointersRun(known: set<int>, steps: seq<Step>): set<int> {
    if steps == [] then known else PointersAfter(PointersRun(known, steps[..|steps| - 1]), steps[|steps| - 1])
  }

  class JerryDebugger {
    var functionList: Functions
    const lineList: Multimap
    var activeBreakpoints: map<int, JerryBreakpoint>
    var pendingBreakpoints: map<int, Pending>
    var nextBreakpointIndex: int
    ghost var server: Server

    ghost function Breakpoints(): set<JerryBreakpoint>
      reads this`functionList
    {
      BreakpointsOf(functionList)
    }

    // The client and the server agree.
    ghost predicate Valid()
      reads this, lineList, Breakpoints()
    {
      Books() && server.waiting == (pendingBreakpoints != map[])
    }

    ghost predicate Books()
      reads this, lineList, Breakpoints()
    {
      BooksAgree(functionList, lineList.map_, activeBreakpoints, Marks(Breakpoints()), pendingBreakpoints, nextBreakpointIndex,
                 server.enabled)
    }

    constructor ()
      ensures Valid() && fresh(lineList) && functionList == map[] && activeBreakpoints == map[] && pendingBreakpoints == map[]
    {
      functionList, activeBreakpoints, pendingBreakpoints, nextBreakpointIndex := map[], map[], map[], 0;
      lineList := new Multimap();
      server := Server({}, false);
    }

    // _enable_breakpoint of a breakpoint of a known function.
    method EnableBreakpoint(b: JerryBreakpoint)
      requires Valid() && b in Breakpoints()
      modifies this`activeBreakpoints, this`nextBreakpointIndex, this`server, b
      ensures Valid() && b.activeIndex >= 1
      ensures functionList == old(functionList) && Marks(Breakpoints()) == old(Marks(Breakpoints()))[b := b.activeIndex]
      ensures old(b.activeIndex) >= 0 ==>
                b.activeIndex == old(b.activeIndex) && activeBreakpoints == old(activeBreakpoints)
                && nextBreakpointIndex == old(nextBreakpointIndex) && server == old(server)
      ensures old(b.activeIndex) < 0 ==>
                && nextBreakpointIndex == old(nextBreakpointIndex) + 1 && b.activeIndex == nextBreakpointIndex
                && activeBreakpoints == old(activeBreakpoints)[nextBreakpointIndex := b]
                && server == Update(old(server), true, Place(b))
    {
      hide FunctionsOk, LinesOk, ActiveOk, IndicesOk, Places, BreakpointsOf;
      MarkIs(Breakpoints(), activeBreakpoints, Marks(Breakpoints()), b);
      if b.activeIndex < 0 {
        ghost var active, bps, marks := activeBreakpoints, Breakpoints(), Marks(Breakpoints());
        OneMoreActive(bps, active, marks, pendingBreakpoints, b, nextBreakpointIndex);
        nextBreakpointIndex := nextBreakpointIndex + 1;
        activeBreakpoints := activeBreakpoints[nextBreakpointIndex := b];
        b.activeIndex := nextBreakpointIndex;
        server := Update(server, true, Place(b));
        PlacesAdd(active, nextBreakpointIndex, b);
        assert Marks(bps) == marks[b := nextBreakpointIndex];
      }
    }

    // Takes an active breakpoint out, as delete does.
    method DisableBreakpoint(i: int)
      requires Valid() && i in activeBreakpoints
      modifies this`activeBreakpoints, this`server, activeBreakpoints[i]
      ensures Valid() && functionList == old(functionList) && old(activeBreakpoints)[i] in Breakpoints()
      ensures Marks(Breakpoints()) == old(Marks(Breakpoints()))[old(activeBreakpoints)[i] := -1]
      ensures activeBreakpoints == old(activeBreakpoints) - {i}
      ensures server == Update(old(server), false, Place(old(activeBreakpoints)[i]))
    {
      hide FunctionsOk, LinesOk, ActiveOk, IndicesOk, Places, BreakpointsOf;
      var b := activeBreakpoints[i];
      ghost var active, bps, marks := activeBreakpoints, Breakpoints(), Marks(Breakpoints());
      OneLessActive(bps, active, marks, pendingBreakpoints, i, nextBreakpointIndex);
      PlacesRemove(functionList, activeBreakpoints, marks, i);
      activeBreakpoints := activeBreakpoints - {i};
      b.activeIndex := -1;
      server := Update(server, false, Place(b));
      assert Marks(bps) == marks[b := -1];
    }

    // delete, with an index: the breakpoint with that index is gone, or there is none.
    method DeleteIndex(i: int) returns (found: bool)
      requires Valid()
      modifies this`activeBreakpoints, this`pendingBreakpoints, this`server, Breakpoints()
      ensures Valid() && functionList == old(functionList)
      ensures found <==> i in old(activeBreakpoints) || i in old(pendingBreakpoints)
      ensures activeBreakpoints == old(activeBreakpoints) - {i} && pendingBreakpoints == old(pendingBreakpoints) - {i}
      ensures Marks(Breakpoints()) == if i in old(activeBreakpoints)
                                      then old(Marks(Breakpoints()))[old(activeBreakpoints)[i] := -1] else old(Marks(Breakpoints()))
    {
      hide FunctionsOk, LinesOk, ActiveOk, IndicesOk, Places;
      ActiveAreOurs(Breakpoints(), activeBreakpoints, Marks(Breakpoints()));
      NotBoth(activeBreakpoints, pendingBreakpoints, nextBreakpointIndex);
      if i in activeBreakpoints {
        DisableBreakpoint(i);
        assert pendingBreakpoints - {i} == pendingBreakpoints;
        return true;
      } else if i in pendingBreakpoints {
        FewerPending(activeBreakpoints, pendingBreakpoints, nextBreakpointIndex, i);
        assert activeBreakpoints - {i} == activeBreakpoints;
        pendingBreakpoints := pendingBreakpoints - {i};
        if pendingBreakpoints == map[] {
          server := Configure(server, false);
        }
        return true;
      }
      assert activeBreakpoints - {i} == activeBreakpoints && pendingBreakpoints - {i} == pendingBreakpoints;
      return false;
    }

    method DeleteAllActive()
      requires Valid()
      modifies this`activeBreakpoints, this`server, Breakpoints()
      ensures Valid() && functionList == old(functionList) && activeBreakpoints == map[]
    {
      var items := Listed(activeBreakpoints.Keys);
      var n := 0;
      while n < |items|
        invariant 0 <= n <= |items| && Valid() && functionList == old(functionList)
        invariant activeBreakpoints.Keys == SetOf(items[n..])
      {
        hide FunctionsOk, LinesOk, ActiveOk, IndicesOk, Places, SetOf, NoTwice;
        FirstGone(items, n);
        ActiveAreOurs(Breakpoints(), activeBreakpoints, Marks(Breakpoints()));
        DisableBreakpoint(items[n]);
        n := n + 1;
      }
      assert SetOf(items[n..]) == {};
      assert activeBreakpoints == map[];
    }

    // delete all, active or pending.
    method DeleteGroup(active: bool, pending: bool)
      requires Valid()
      modifies this`activeBreakpoints, this`pendingBreakpoints, this`server, Breakpoints()
      ensures Valid() && functionList == old(functionList)
      ensures activeBreakpoints == if active then map[] else old(activeBreakpoints)
      ensures pendingBreakpoints == if pending then map[] else old(pendingBreakpoints)
      ensures !active ==> Marks(Breakpoints()) == old(Marks(Breakpoints()))
    {
      hide BooksAgree;
      if active {
        DeleteAllActive();
      }
      if pending {
        DeleteAllPending();
      }
    }

    method DeleteAllPending()
      requires Valid()
      modifies this`pendingBreakpoints, this`server
      ensures Valid() && Marks(Breakpoints()) == old(Marks(Breakpoints())) && pendingBreakpoints == map[]
    {
      hide BooksAgree;
      if pendingBreakpoints != map[] {
        NoPendingBooks(functionList, lineList.map_, activeBreakpoints, Marks(Breakpoints()), pendingBreakpoints, nextBreakpointIndex,
                       server.enabled);
        pendingBreakpoints := map[];
        server := Configure(server, false);
      }
    }

    // The end of _set_breakpoint, when the user wants a pending breakpoint: the server is told
    // to wait after parsing when it is the first one; it is not added twice.
    method AddPending(p: Pending)
      requires Valid()
      modifies this`pendingBreakpoints, this`nextBreakpointIndex, this`server
      ensures Valid() && Marks(Breakpoints()) == old(Marks(Breakpoints()))
      ensures p in old(pendingBreakpoints).Values ==>
                pendingBreakpoints == old(pendingBreakpoints) && nextBreakpointIndex == old(nextBreakpointIndex)
      ensures p !in old(pendingBreakpoints).Values ==>
                && nextBreakpointIndex == old(nextBreakpointIndex) + 1
                && pendingBreakpoints == old(pendingBreakpoints)[nextBreakpointIndex := p]
    {
      hide FunctionsOk, LinesOk, ActiveOk, Places, BreakpointsOf;
      if pendingBreakpoints == map[] {
        server := Configure(server, true);
      }
      if p in pendingBreakpoints.Values {
        return;
      }
      nextBreakpointIndex := nextBreakpointIndex + 1;
      pendingBreakpoints := pendingBreakpoints[nextBreakpointIndex := p];
      assert nextBreakpointIndex in pendingBreakpoints;
    }

    // _set_breakpoint. The answer of the user counts when nothing is found and the request
    // does not come from a pending breakpoint.
    method SetBreakpoint(p: Pending, pending: bool, answer: bool) returns (found: bool)
      requires Valid()
      modifies this`activeBreakpoints, this`pendingBreakpoints, this`nextBreakpointIndex, this`server, Breakpoints()
      ensures Valid() && functionList == old(functionList)
      ensures SetAsAsked(functionList, p, old(Marks(Breakpoints())), Marks(Breakpoints()))
      ensures found <==> AskedBy(functionList, p) != {}
      ensures !found && !pending && answer ==>
                p in pendingBreakpoints.Values && (p in old(pendingBreakpoints).Values ==> pendingBreakpoints == old(pendingBreakpoints))
      ensures found || pending || !answer ==> pendingBreakpoints == old(pendingBreakpoints)
      ensures Asked(p, !pending && answer && AskedBy(functionList, p) == {}, old(pendingBreakpoints), pendingBreakpoints)
      ensures forall i :: i in old(pendingBreakpoints) ==> i in pendingBreakpoints && pendingBreakpoints[i] == old(pendingBreakpoints)[i]
    {
      hide FunctionsOk, LinesOk, ActiveOk, IndicesOk, Places, BreakpointsOf, AskedBy, SetAsAsked;
      if p.OnLine? {
        found := SetOnLine(p);
      } else {
        found := SetOnFunction(p);
      }
      if !found && !pending && answer {
        ghost var before, last := pendingBreakpoints, nextBreakpointIndex;
        IndicesFree(activeBreakpoints, pendingBreakpoints, nextBreakpointIndex);
        AddPending(p);
        assert p !in before.Values ==> pendingBreakpoints[last + 1] == p;
      }
    }

    method SetOnLine(p: Pending) returns (found: bool)
      requires Valid() && p.OnLine?
      modifies this`activeBreakpoints, this`nextBreakpointIndex, this`server, Breakpoints()
      ensures Valid() && functionList == old(functionList)
      ensures SetAsAsked(functionList, p, old(Marks(Breakpoints())), Marks(Breakpoints()))
      ensures found <==> AskedBy(functionList, p) != {}
    {
      hide FunctionsOk, LinesOk, ActiveOk, IndicesOk, Places, BreakpointsOf, SourceMatches, OnlyAsked, AskedBy, SetAsAsked;
      found := false;
      var items := lineList.Get(p.line);
      ghost var marks, done: set<JerryBreakpoint> := Marks(Breakpoints()), {};
      OnThisLine(functionList, lineList.map_, p, items);
      NothingSet(functionList, p, marks);
      var i := 0;
      while i < |items|
        invariant 0 <= i <= |items| && Valid() && functionList == old(functionList)
        invariant OnlyAsked(functionList, p, marks, Marks(Breakpoints()), done)
        invariant done == Matching(items[..i], p.sourceName)
        invariant found <==> done != {}
      {
        assert items[..i + 1] == items[..i] + [items[i]];
        if SourceMatches(items[i].sourceName, p.sourceName) {
          assert items[i] in Matching(items, p.sourceName);
          AskedAreOurs(functionList, p);
          ghost var was := Marks(Breakpoints());
          EnableBreakpoint(items[i]);
          OneSet(functionList, p, marks, was, done, items[i], items[i].activeIndex);
          found := true;
          done := done + {items[i]};
        }
        i := i + 1;
      }
      assert items[..i] == items;
      AllSet(functionList, p, marks, Marks(Breakpoints()), done);
    }

    method SetOnFunction(p: Pending) returns (found: bool)
      requires Valid() && p.OnFunction?
      modifies this`activeBreakpoints, this`nextBreakpointIndex, this`server, Breakpoints()
      ensures Valid() && functionList == old(functionList)
      ensures SetAsAsked(functionList, p, old(Marks(Breakpoints())), Marks(Breakpoints()))
      ensures found <==> AskedBy(functionList, p) != {}
    {
      hide FunctionsOk, LinesOk, ActiveOk, IndicesOk, Places, OnlyAsked, AskedBy, SetAsAsked;
      found := false;
      var keys := Listed(functionList.Keys);
      var n := 0;
      ghost var marks, done: set<JerryBreakpoint> := Marks(Breakpoints()), {};
      NothingSet(functionList, p, marks);
      while n < |keys|
        invariant 0 <= n <= |keys| && Valid() && functionList == old(functionList) && SetOf(keys) == functionList.Keys
        invariant OnlyAsked(functionList, p, marks, Marks(Breakpoints()), done)
        invariant forall cp :: cp in functionList.Keys - SetOf(keys[n..]) && functionList[cp].name == p.name ==>
                    FirstOf(functionList, cp) in done
        invariant found <==> done != {}
      {
        FirstGone(keys, n);
        var cp := keys[n];
        assert cp in SetOf(keys);
        FirstIsOne(functionList, cp, p);
        if functionList[cp].name == p.name {
          ghost var b := FirstOf(functionList, cp);
          ghost var was := Marks(Breakpoints());
          EnableBreakpoint(functionList[cp].lines[functionList[cp].firstLine]);
          OneSet(functionList, p, marks, was, done, b, b.activeIndex);
          found := true;
          done := done + {b};
        }
        n := n + 1;
      }
      AllFirst(functionList, p, done);
      AllSet(functionList, p, marks, Marks(Breakpoints()), done);
    }

    // The loop of _release_function.
    method ForgetBreakpoints(cp: int, ghost marks: map<JerryBreakpoint, int>)
      requires cp in functionList && FunctionsOk(functionList) && LinesOk(BreakpointsOf(functionList), lineList.map_)
      requires ActiveOk(BreakpointsOf(functionList), activeBreakpoints, marks)
      requires forall b :: b in LinesOf(functionList[cp]) ==> b in marks && marks[b] == b.activeIndex
      modifies this`activeBreakpoints, lineList
      ensures LinesOk(BreakpointsOf(functionList) - LinesOf(functionList[cp]), lineList.map_)
      ensures activeBreakpoints == Keep(old(activeBreakpoints), LinesOf(functionList[cp]))
    {
      hide *;
      ghost var active := activeBreakpoints;
      var func := functionList[cp];
      var lines := Listed(func.lines.Keys);
      ForgotNothing(functionList, cp, lines, active, lineList.map_);
      var n := 0;
      while n < |lines|
        invariant 0 <= n <= |lines| && Forgot(functionList, cp, lines, n, active, lineList.map_, activeBreakpoints)
      {
        var line := lines[n];
        ghost var left := ForgotAt(functionList, cp, lines, n, active, lineList.map_, activeBreakpoints);
        var b := func.lines[line];
        lineList.Delete(line, b, left);
        ForgotNext(functionList, cp, lines, n, active, marks, lineList.map_, activeBreakpoints);
        if b.activeIndex >= 0 {
          activeBreakpoints := activeBreakpoints - {b.activeIndex};
        }
        n := n + 1;
      }
      ForgotAll(functionList, cp, lines, active, lineList.map_, activeBreakpoints);
    }

    // _release_function: the function and its breakpoints leave the books, and the server may
    // reuse its pointer.
    method ReleaseFunction(cp: int)
      requires Valid() && cp in functionList
      modifies this`functionList, this`activeBreakpoints, this`server, lineList
      ensures Valid() && functionList == old(functionList) - {cp}
      ensures activeBreakpoints == Keep(old(activeBreakpoints), LinesOf(old(functionList)[cp]))
      ensures server == Free(old(server), cp)
    {
      hide BooksAgree, LinesOf, Keep, LinesOk, FunctionsOk, ActiveOk, IndicesOk, Places;
      ghost var bps, active, marks, gone := Breakpoints(), activeBreakpoints, Marks(Breakpoints()), LinesOf(functionList[cp]);
      ghost var enabled, lineMap := server.enabled, lineList.map_;
      ReleaseReady(functionList, cp, lineMap, active, marks, pendingBreakpoints, nextBreakpointIndex, enabled);
      ForgetBreakpoints(cp, marks);
      Released(functionList, cp, active, marks, pendingBreakpoints, nextBreakpointIndex, enabled, lineMap, lineList.map_);
      functionList := functionList - {cp};
      server := Free(server, cp);
      MarksLess(bps, gone, marks);
    }

    // The lines of a new function.
    method InsertFunction(f: JerryFunction, ghost bps: set<JerryBreakpoint>)
      requires FunctionOk(f) && LinesOk(bps, lineList.map_) && LinesOf(f) !! bps
      modifies lineList
      ensures LinesOk(bps + LinesOf(f), lineList.map_)
    {
      hide LinesOk, FunctionOk, LinesOf, GoneLines, NoTwice, SetOf;
      var lines := Listed(f.lines.Keys);
      NoLineYet(f);
      ghost var done: set<JerryBreakpoint> := {};
      assert bps + done == bps;
      var n := 0;
      while n < |lines|
        invariant 0 <= n <= |lines| && LinesOk(bps + done, lineList.map_) && done == GoneLines(f, lines[..n])
      {
        LineOf(f, lines, n);
        OneLineMore(f, lines, n);
        lineList.Insert(lines[n], f.lines[lines[n]], bps + done);
        assert bps + done + {f.lines[lines[n]]} == bps + (done + {f.lines[lines[n]]});
        done := done + {f.lines[lines[n]]};
        n := n + 1;
      }
      assert lines[..n] == lines;
      AllLinesGone(f, lines);
    }

    method InsertFunctions(newFunctions: Functions, ghost bps: set<JerryBreakpoint>)
      requires FunctionsOk(newFunctions) && LinesOk(bps, lineList.map_) && BreakpointsOf(newFunctions) !! bps
      modifies lineList
      ensures LinesOk(bps + BreakpointsOf(newFunctions), lineList.map_)
    {
      hide *;
      var keys := Listed(newFunctions.Keys);
      ghost var done: set<JerryBreakpoint> := {};
      SomeOf(newFunctions, keys, 0);
      assert bps + done == bps;
      var n := 0;
      while n < |keys|
        invariant 0 <= n <= |keys| && LinesOk(bps + done, lineList.map_) && done == LinesOfSome(newFunctions, keys[..n])
      {
        SomeOf(newFunctions, keys, n);
        InsertFunction(newFunctions[keys[n]], bps + done);
        assert bps + done + LinesOf(newFunctions[keys[n]]) == bps + (done + LinesOf(newFunctions[keys[n]]));
        done := done + LinesOf(newFunctions[keys[n]]);
        n := n + 1;
      }
      assert keys[..n] == keys;
      AllOf(newFunctions, keys);
    }

    // The new functions of a finished parse join the books.
    method AddFunctions(newFunctions: Functions)
      requires Valid() && FunctionsOk(newFunctions) && newFunctions.Keys !! functionList.Keys
      requires forall b :: b in BreakpointsOf(newFunctions) ==> b.activeIndex == -1
      modifies this`functionList, lineList
      ensures Valid() && functionList == old(functionList) + newFunctions
    {
      hide BooksAgree, LinesOk, FunctionsOk, Unmarked;
      ghost var functions, bps, marks, lineMap := functionList, Breakpoints(), Marks(Breakpoints()), lineList.map_;
      Grown(functions, newFunctions, lineMap, activeBreakpoints, marks, pendingBreakpoints, nextBreakpointIndex, server.enabled);
      MarksMore(bps, BreakpointsOf(newFunctions), marks);
      ghost var all := BreakpointsOf(functions + newFunctions);
      assert Marks(all) == marks + Unmarked(BreakpointsOf(newFunctions));
      InsertFunctions(newFunctions, bps);
      functionList := functionList + newFunctions;
      GrownBooks(functions, newFunctions, lineMap, lineList.map_, activeBreakpoints, marks, pendingBreakpoints, nextBreakpointIndex,
                 server.enabled);
    }

    // The pending breakpoints after a parse: those that are found become active; the others
    // stay. The server stops waiting when none is left.
    method ResolvePending(newFunctions: Functions)
      requires Valid()
      modifies this`activeBreakpoints, this`pendingBreakpoints, this`nextBreakpointIndex, this`server, Breakpoints()
      ensures Valid() && functionList == old(functionList)
      ensures Resolved(functionList, newFunctions, old(pendingBreakpoints), pendingBreakpoints, Marks(Breakpoints()))
      ensures ActiveStays(old(Marks(Breakpoints())), Marks(Breakpoints()))
    {
      hide BooksAgree, ActiveStays, Resolved;
      if pendingBreakpoints == map[] {
        NoneToResolve(functionList, newFunctions, Marks(Breakpoints()));
        StaysSame(Marks(Breakpoints()));
        return;
      }
      ResolveAll(newFunctions);
      StopWaiting();
    }

    method StopWaiting()
      requires Books() && server.waiting
      modifies this`server
      ensures Valid() && Marks(Breakpoints()) == old(Marks(Breakpoints()))
    {
      hide BooksAgree;
      if pendingBreakpoints == map[] {
        server := Configure(server, false);
      }
    }

    method DropPending(i: int)
      requires Books()
      modifies this`pendingBreakpoints
      ensures Books() && pendingBreakpoints == old(pendingBreakpoints) - {i} && Marks(Breakpoints()) == old(Marks(Breakpoints()))
    {
      FewerBooks(functionList, lineList.map_, activeBreakpoints, Marks(Breakpoints()), pendingBreakpoints, nextBreakpointIndex,
                 server.enabled, i);
      hide BooksAgree;
      pendingBreakpoints := pendingBreakpoints - {i};
    }

    method ResolveAll(newFunctions: Functions)
      requires Valid() && pendingBreakpoints != map[]
      modifies this`activeBreakpoints, this`pendingBreakpoints, this`nextBreakpointIndex, this`server, Breakpoints()
      ensures Books() && server.waiting && functionList == old(functionList)
      ensures Resolved(functionList, newFunctions, old(pendingBreakpoints), pendingBreakpoints, Marks(Breakpoints()))
      ensures ActiveStays(old(Marks(Breakpoints())), Marks(Breakpoints()))
    {
      hide BooksAgree, ActiveStays, SetAsAsked, Resolving, Resolved;
      ghost var pending, marks := pendingBreakpoints, Marks(Breakpoints());
      StaysSame(marks);
      var items := Listed(pendingBreakpoints.Keys);
      ResolvingStart(functionList, newFunctions, items, pending, marks);
      var n := 0;
      while n < |items|
        invariant 0 <= n <= |items| && Books() && server.waiting && functionList == old(functionList)
        invariant Resolving(functionList, newFunctions, items, n, pending, pendingBreakpoints, Marks(Breakpoints()))
        invariant ActiveStays(marks, Marks(Breakpoints()))
      {
        ghost var before := Marks(Breakpoints());
        ResolvingAt(functionList, newFunctions, items, n, pending, pendingBreakpoints, before);
        var i := items[n];
        var p := pendingBreakpoints[i];
        var found := TryPending(newFunctions, p);
        StaysOn(marks, before, Marks(Breakpoints()));
        ResolvingNext(functionList, newFunctions, items, n, pending, pendingBreakpoints, before, Marks(Breakpoints()), found);
        if found {
          DropPending(i);
        }
        n := n + 1;
      }
      ResolvingEnd(functionList, newFunctions, items, pending, pendingBreakpoints, Marks(Breakpoints()));
    }

    // One pending breakpoint.
    method TryPending(newFunctions: Functions, p: Pending) returns (found: bool)
      requires Valid()
      modifies this`activeBreakpoints, this`pendingBreakpoints, this`nextBreakpointIndex, this`server, Breakpoints()
      ensures Valid() && functionList == old(functionList) && pendingBreakpoints == old(pendingBreakpoints)
      ensures ActiveStays(old(Marks(Breakpoints())), Marks(Breakpoints()))
      ensures if found then Found(AskedBy(functionList, p), Marks(Breakpoints())) else Left(functionList, newFunctions, p)
    {
      hide BooksAgree, ActiveStays, Left, Found, SetAsAsked;
      ghost var before := Marks(Breakpoints());
      StaysSame(before);
      found := false;
      var enough := true;
      if p.OnLine? {
        var sourceLines := SourceLines(newFunctions, p.sourceName);
        enough := p.line <= sourceLines;
        if !enough { LeftShort(functionList, newFunctions, p, sourceLines); }
      }
      if enough {
        found := SetBreakpoint(p, true, false);
        SetMeans(functionList, p, before, Marks(Breakpoints()));
        if !found { LeftNothing(functionList, newFunctions, p); }
      }
    }

    // The end of _parse_source. The pointers of new functions are not in use.
    method ParseDone(newFunctions: Functions)
      requires Valid() && FunctionsOk(newFunctions) && newFunctions.Keys !! functionList.Keys
      requires forall b :: b in BreakpointsOf(newFunctions) ==> b.activeIndex == -1
      modifies this, lineList, Breakpoints(), BreakpointsOf(newFunctions)
      ensures Valid() && functionList == old(functionList) + newFunctions
      ensures Resolved(functionList, newFunctions, old(pendingBreakpoints), pendingBreakpoints, Marks(Breakpoints()))
      ensures forall b :: b in old(Breakpoints()) && old(b.activeIndex) >= 0 ==> b.activeIndex == old(b.activeIndex)
    {
      hide BooksAgree, Resolved, ActiveStays;
      ghost var functions, bps := functionList, Breakpoints();
      AddFunctions(newFunctions);
      Joined(functions, newFunctions);
      Kept(functions, newFunctions);
      ghost var marks := Marks(Breakpoints());
      assert forall b :: b in bps ==> b in marks && marks[b] == old(b.activeIndex);
      ResolvePending(newFunctions);
      StaysMeans(marks, Marks(Breakpoints()));
    }

    // The messages of one parse.
    method ParseReports(reports: seq<Report>)
      requires Valid() && Accepted(functionList.Keys, reports)
      modifies this, lineList, Breakpoints()
      ensures Valid() && functionList.Keys == PointersAfter(old(functionList.Keys), Parse(reports))
      ensures forall b :: b in Breakpoints() ==> b in old(Breakpoints()) || fresh(b)
      ensures Reported(old(functionList), functionList, reports)
      ensures Resolved(functionList, functionList - old(functionList.Keys), old(pendingBreakpoints), pendingBreakpoints, Marks(Breakpoints()))
      ensures forall b :: b in old(Breakpoints()) && old(b.activeIndex) >= 0 ==> b.activeIndex == old(b.activeIndex)
    {
      hide BooksAgree, Resolved, DescribedBy;
      ghost var before := functionList;
      var newFunctions := MakeFunctions(reports);
      MoreFunctions(functionList, newFunctions);
      NewPointers(functionList, newFunctions, reports);
      AddedFunctions(before, newFunctions, reports);
      ParseDone(newFunctions);
    }

    // One command, or one message: besides keeping the books, it does what it says.
    method DoStep(step: Step)
      requires Valid()
      modifies this, lineList, Breakpoints()
      ensures Valid() && functionList.Keys == PointersAfter(old(functionList.Keys), step)
      ensures forall b :: b in Breakpoints() ==> b in old(Breakpoints()) || fresh(b)
      ensures step.Set? ==>
                && functionList == old(functionList)
                && SetAsAsked(functionList, step.request, old(Marks(Breakpoints())), Marks(Breakpoints()))
                && Asked(step.request, step.answer && AskedBy(functionList, step.request) == {}, old(pendingBreakpoints), pendingBreakpoints)
      ensures step.Delete? ==>
                && functionList == old(functionList)
                && activeBreakpoints == old(activeBreakpoints) - {step.index}
                && pendingBreakpoints == old(pendingBreakpoints) - {step.index}
      ensures step.DeleteMany? ==>
                && functionList == old(functionList)
                && activeBreakpoints == (if step.active then map[] else old(activeBreakpoints))
                && pendingBreakpoints == (if step.pending then map[] else old(pendingBreakpoints))
      ensures step.Release? ==>
                && functionList == old(functionList) - {step.byteCodeCp} && pendingBreakpoints == old(pendingBreakpoints)
                && activeBreakpoints
                   == if step.byteCodeCp in old(functionList) then Keep(old(activeBreakpoints), LinesOf(old(functionList)[step.byteCodeCp]))
                      else old(activeBreakpoints)
      ensures step.Parse? && !CanArrive(old(functionList.Keys), step.reports) ==>
                && functionList == old(functionList) && activeBreakpoints == old(activeBreakpoints)
                && pendingBreakpoints == old(pendingBreakpoints)
      ensures step.Parse? && CanArrive(old(functionList.Keys), step.reports) ==>
                && Reported(old(functionList), functionList, step.reports)
                && Resolved(functionList, functionList - old(functionList.Keys), old(pendingBreakpoints), pendingBreakpoints, Marks(Breakpoints()))
                && forall b :: b in old(Breakpoints()) && old(b.activeIndex) >= 0 ==> b.activeIndex == old(b.activeIndex)
    {
      hide BooksAgree, SetAsAsked, Resolved, AskedBy, LinesOf, Keep, Reported, Asked, ActiveStays, CanArrive, Accepted;
      match step {
        case Set(p, answer) =>
          var _ := SetBreakpoint(p, false, answer);
        case Delete(i) =>
          var _ := DeleteIndex(i);
        case DeleteMany(active, pending) =>
          DeleteGroup(active, pending);
        case Release(cp) =>
          if cp in functionList {
            FewerFunctions(functionList, cp);
            ReleaseFunction(cp);
          } else {
            assert functionList - {cp} == functionList;
          }
        case Parse(reports) =>
          CanArriveIs(functionList.Keys, reports);
          if Accepted(functionList.Keys, reports) {
            ParseReports(reports);
          }
      }
    }

    // Whatever is typed and whatever the server reports, the books agree.
    method Run(steps: seq<Step>)
      requires Valid()
      modifies this, lineList, Breakpoints()
      ensures Valid() && functionList.Keys == PointersRun(old(functionList.Keys), steps)
    {
      hide BooksAgree, BreakpointsOf, PointersAfter;
      for n := 0 to |steps|
        invariant Valid() && forall b :: b in Breakpoints() ==> b in old(Breakpoints()) || fresh(b)
        invariant functionList.Keys == PointersRun(old(functionList.Keys), steps[..n])
      {
        ghost var next := steps[..n + 1];
        assert next[..n] == steps[..n];
        DoStep(steps[n]);
      }
      assert steps[..|steps|] == steps;
    }
  }

  lemma AddedFunctions(before: Functions, news: Functions, reports: seq<Report>)
    requires before.Keys !! news.Keys
    requires forall cp :: cp in news <==> exists k :: 0 <= k < |reports| && reports[k].byteCodeCp == cp
    requires forall cp :: cp in news ==> DescribedBy(reports, |reports|, news[cp])
    ensures before + news - before.Keys == news && Reported(before, before + news, reports)
  {
    hide DescribedBy;
  }

  lemma Kept(functions: Functions, news: Functions)
    requires functions.Keys !! news.Keys
    ensures BreakpointsOf(functions) <= BreakpointsOf(functions + news)
  {
    forall b | b in BreakpointsOf(functions) ensures b in BreakpointsOf(functions + news) {
      var cp, l :| cp in functions && l in functions[cp].lines && b == functions[cp].lines[l];
      assert (functions + news)[cp] == functions[cp];
    }
  }

  lemma StaysMeans(before: map<JerryBreakpoint, int>, after: map<JerryBreakpoint, int>)
    requires ActiveStays(before, after)
    ensures forall b :: b in before && before[b] >= 0 ==> b in after && after[b] == before[b]
  {}

  lemma Joined(functions: Functions, news: Functions)
    ensures BreakpointsOf(functions + news) <= BreakpointsOf(functions) + BreakpointsOf(news)
  {}

  lemma FewerFunctions(functions: Functions, cp: int)
    ensures BreakpointsOf(functions - {cp}) <= BreakpointsOf(functions)
  {}

  lemma NewPointers(functions: Functions, news: Functions, reports: seq<Report>)
    requires forall cp :: cp in news <==> exists k :: 0 <= k < |reports| && reports[k].byteCodeCp == cp
    requires Accepted(functions.Keys, reports)
    ensures news.Keys !! functions.Keys
    ensures (functions + news).Keys == PointersAfter(functions.Keys, Parse(reports))
  {
    var pointers := set k | 0 <= k < |reports| :: reports[k].byteCodeCp;
    forall cp ensures cp in news.Keys <==> cp in pointers {
      if cp in news {
        var k :| 0 <= k < |reports| && reports[k].byteCodeCp == cp;
      }
    }
    SameSet(news.Keys, pointers);
    forall cp | cp in news ensures cp !in functions {
      var k :| 0 <= k < |reports| && reports[k].byteCodeCp == cp;
    }
    assert (functions + news).Keys == functions.Keys + news.Keys;
  }

  lemma SameSet<T>(a: set<T>, b: set<T>)
    requires forall x :: x in a <==> x in b
    ensures a == b
  {}

  lemma MoreFunctions(functions: Functions, news: Functions)
    ensures BreakpointsOf(functions + news) <= BreakpointsOf(functions) + BreakpointsOf(news)
  {}

  // Where l occurs last.
  function LastIndex(lines: seq<int>, l: int): (i: int)
    ensures -1 <= i < |lines| && (i >= 0 ==> lines[i] == l) && (i >= 0 <==> l in lines)
    ensures forall k :: i < k < |lines| ==> lines[k] != l
  {
    if lines == [] then -1
    else if lines[|lines| - 1] == l then |lines| - 1
    else LastIndex(lines[..|lines| - 1], l)
  }

  // The first n reported lines have their breakpoints.
  ghost predicate Made(r: Report, n: nat, lines: map<int, JerryBreakpoint>) {
    && n <= |r.lines| == |r.offsets|
    && (forall l :: l in lines <==> l in r.lines[..n])
    && (forall l :: l in lines ==>
          && LastIndex(r.lines[..n], l) >= 0 && lines[l].line == l && lines[l].offset == r.offsets[LastIndex(r.lines[..n], l)]
          && lines[l].byteCodeCp == r.byteCodeCp && lines[l].sourceName == r.sourceName)
  }

  lemma MadeNext(r: Report, n: nat, lines: map<int, JerryBreakpoint>, b: JerryBreakpoint)
    requires Made(r, n, lines) && n < |r.lines| && b.line == r.lines[n] && b.offset == r.offsets[n]
    requires b.byteCodeCp == r.byteCodeCp && b.sourceName == r.sourceName
    ensures Made(r, n + 1, lines[b.line := b])
  {
    var before, after := r.lines[..n], r.lines[..n + 1];
    assert after == before + [r.lines[n]] && after[..|after| - 1] == before;
  }

  lemma OffsetsDiffer(r: Report, i: nat, j: nat)
    requires Sound(r) && i < |r.lines| && j < |r.lines|
    ensures r.offsets[i] == r.offsets[j] ==> i == j
  {}

  lemma MadeAll(r: Report, lines: map<int, JerryBreakpoint>, f: JerryFunction)
    requires Sound(r) && Made(r, |r.lines|, lines)
    requires f == JerryFunction(r.byteCodeCp, r.sourceName, r.name, r.line, r.sourceLines, lines, r.lines[0])
    ensures FunctionOk(f)
    ensures forall l :: l in f.lines <==> l in r.lines
    ensures forall l :: l in f.lines ==> 0 <= LastIndex(r.lines, l) && f.lines[l].offset == r.offsets[LastIndex(r.lines, l)]
  {
    assert r.lines[..|r.lines|] == r.lines;
    assert r.lines[0] in r.lines;
    forall l, k | l in lines && k in lines && lines[l].offset == lines[k].offset ensures l == k {
      var i, j := LastIndex(r.lines, l), LastIndex(r.lines, k);
      OffsetsDiffer(r, i, j);
    }
  }

  // The constructor of JerryFunction: one breakpoint for each line, the last one reported.
  method NewFunction(r: Report) returns (f: JerryFunction)
    requires Sound(r)
    ensures Describes(r, f) && f.byteCodeCp == r.byteCodeCp && FunctionOk(f)
    ensures forall b :: b in LinesOf(f) ==> fresh(b) && b.activeIndex == -1
  {
    hide Made, FunctionOk;
    var lines: map<int, JerryBreakpoint> := map[];
    MadeNone(r);
    for i := 0 to |r.lines|
      invariant Made(r, i, lines)
      invariant forall l :: l in lines ==> fresh(lines[l]) && lines[l].activeIndex == -1
    {
      var b := new JerryBreakpoint(r.lines[i], r.offsets[i], r.byteCodeCp, r.sourceName);
      MadeNext(r, i, lines, b);
      lines := lines[b.line := b];
    }
    f := JerryFunction(r.byteCodeCp, r.sourceName, r.name, r.line, r.sourceLines, lines, r.lines[0]);
    MadeAll(r, lines, f);
  }

  lemma MadeNone(r: Report)
    requires Sound(r)
    ensures Made(r, 0, map[])
  {}

  // The function is what the report says; the last offset of a line counts.
  ghost predicate Describes(r: Report, f: JerryFunction) {
    && Sound(r) && FunctionOk(f)
    && f.byteCodeCp == r.byteCodeCp && f.name == r.name && f.sourceName == r.sourceName
    && f.line == r.line && f.sourceLines == r.sourceLines && f.firstLine == r.lines[0]
    && (forall l :: l in f.lines <==> l in r.lines)
    && (forall l :: l in f.lines ==> 0 <= LastIndex(r.lines, l) && f.lines[l].offset == r.offsets[LastIndex(r.lines, l)])
  }

  // The last report with its pointer describes the function.
  ghost predicate DescribedBy(reports: seq<Report>, n: nat, f: JerryFunction)
    requires n <= |reports|
  {
    exists k :: 0 <= k < n && Describes(reports[k], f) && forall i :: k < i < n ==> reports[i].byteCodeCp != f.byteCodeCp
  }

  // The functions that were there are still there, and all others are as reported.
  ghost predicate Reported(before: Functions, after: Functions, reports: seq<Report>) {
    && (forall cp :: cp in before ==> cp in after && after[cp] == before[cp])
    && (forall k :: 0 <= k < |reports| ==> reports[k].byteCodeCp in after)
    && (forall cp :: cp in after && cp !in before ==> DescribedBy(reports, |reports|, after[cp]))
  }

  // What is asked for becomes pending, unless it is already, and nothing else changes.
  ghost predicate Asked(p: Pending, adds: bool, before: map<int, Pending>, after: map<int, Pending>) {
    if !adds || p in before.Values then after == before
    else
      && (forall i :: i in before ==> i in after && after[i] == before[i])
      && p in after.Values && forall i :: i in after && i !in before ==> after[i] == p
  }

  // The functions of one parse, by pointer.
  method MakeFunctions(reports: seq<Report>) returns (functions: Functions)
    requires forall k :: 0 <= k < |reports| ==> Sound(reports[k])
    ensures FunctionsOk(functions)
    ensures forall cp :: cp in functions <==> exists k :: 0 <= k < |reports| && reports[k].byteCodeCp == cp
    ensures forall b :: b in BreakpointsOf(functions) ==> fresh(b) && b.activeIndex == -1
    ensures forall cp :: cp in functions ==> DescribedBy(reports, |reports|, functions[cp])
  {
    hide FunctionOk, DescribedBy;
    functions := map[];
    for n := 0 to |reports|
      invariant FunctionsOk(functions)
      invariant forall cp :: cp in functions <==> exists k :: 0 <= k < n && reports[k].byteCodeCp == cp
      invariant forall b :: b in BreakpointsOf(functions) ==> fresh(b) && b.activeIndex == -1
      invariant forall cp :: cp in functions ==> DescribedBy(reports, n, functions[cp])
    {
      var f := NewFunction(reports[n]);
      StillDescribed(reports, n, functions, f, functions[f.byteCodeCp := f]);
      OneMoreFunction(functions, f);
      functions := functions[f.byteCodeCp := f];
    }
  }

  lemma StillDescribed(reports: seq<Report>, n: nat, functions: Functions, f: JerryFunction, next: Functions)
    requires next == functions[f.byteCodeCp := f]
    requires n < |reports| && Describes(reports[n], f) && FunctionsOk(functions)
    requires forall cp :: cp in functions ==> DescribedBy(reports, n, functions[cp])
    ensures forall cp :: cp in next ==> DescribedBy(reports, n + 1, next[cp])
  {
    hide FunctionOk, Sound;
    assert f.byteCodeCp == reports[n].byteCodeCp;
    hide Describes;
    forall cp | cp in next ensures DescribedBy(reports, n + 1, next[cp]) {
      if cp != f.byteCodeCp {
        var k :| 0 <= k < n && Describes(reports[k], functions[cp]) && forall i :: k < i < n ==> reports[i].byteCodeCp != functions[cp].byteCodeCp;
      }
    }
  }

  lemma OneMoreFunction(functions: Functions, f: JerryFunction)
    ensures BreakpointsOf(functions[f.byteCodeCp := f]) <= BreakpointsOf(functions) + LinesOf(f)
  {}

  lemma ReleaseReady(functions: Functions, cp: int, lineMap: map<int, seq<JerryBreakpoint>>, active: map<int, JerryBreakpoint>,
                     marks: map<JerryBreakpoint, int>, pending: map<int, Pending>, last: int, enabled: set<(int, int)>)
    requires cp in functions && BooksAgree(functions, lineMap, active, marks, pending, last, enabled)
    ensures FunctionsOk(functions) && LinesOk(BreakpointsOf(functions), lineMap) && ActiveOk(BreakpointsOf(functions), active, marks)
    ensures LinesOf(functions[cp]) <= BreakpointsOf(functions)
  {
    FunctionLines(functions, cp);
  }

  lemma OneSource(newFunctions: Functions, sourceName: string, cp: int)
    requires cp in newFunctions && SourceMatches(newFunctions[cp].sourceName, sourceName)
    ensures MayBeLines(newFunctions, sourceName, newFunctions[cp].sourceLines)
  {
    var k := newFunctions[cp].sourceLines;
    assert cp in newFunctions && SourceMatches(newFunctions[cp].sourceName, sourceName) && newFunctions[cp].sourceLines == k;
  }

  // The length of the new source with a name.
  method SourceLines(newFunctions: Functions, sourceName: string) returns (k: nat)
    ensures MayBeLines(newFunctions, sourceName, k)
  {
    var keys := Listed(newFunctions.Keys);
    var n := 0;
    while n < |keys|
      invariant 0 <= n <= |keys| && SetOf(keys) == newFunctions.Keys
      invariant forall m :: 0 <= m < |keys| ==> keys[m] in newFunctions
      invariant forall m :: 0 <= m < n ==> !SourceMatches(newFunctions[keys[m]].sourceName, sourceName)
    {
      if SourceMatches(newFunctions[keys[n]].sourceName, sourceName) {
        OneSource(newFunctions, sourceName, keys[n]);
        return newFunctions[keys[n]].sourceLines;
      }
      n := n + 1;
    }
    k := 0;
    forall cp | cp in newFunctions ensures !SourceMatches(newFunctions[cp].sourceName, sourceName) {
      assert cp in SetOf(keys);
      var m :| 0 <= m < |keys| && keys[m] == cp;
    }
  }

  // The length of a new source with that name, 0 when there is none.
  ghost predicate MayBeLines(newFunctions: Functions, sourceName: string, k: nat) {
    || (k == 0 && forall cp :: cp in newFunctions ==> !SourceMatches(newFunctions[cp].sourceName, sourceName))
    || exists cp :: cp in newFunctions && SourceMatches(newFunctions[cp].sourceName, sourceName) && newFunctions[cp].sourceLines == k
  }

  // A request stays pending when nothing is asked for, or when the new source is too short.
  ghost predicate Left(functions: Functions, newFunctions: Functions, p: Pending) {
    || AskedBy(functions, p) == {}
    || (p.OnLine? && exists k: nat :: MayBeLines(newFunctions, p.sourceName, k) && k < p.line)
  }

  ghost predicate Found(asked: set<JerryBreakpoint>, marks: map<JerryBreakpoint, int>) {
    asked != {} && forall b :: b in asked ==> b in marks && marks[b] >= 1
  }

  // Each pending breakpoint is either found, or left for a reason.
  ghost predicate Resolved(functions: Functions, newFunctions: Functions, before: map<int, Pending>, after: map<int, Pending>,
                           marks: map<JerryBreakpoint, int>) {
    && (forall i :: i in after ==> i in before && after[i] == before[i] && Left(functions, newFunctions, before[i]))
    && (forall i :: i in before && i !in after ==> Found(AskedBy(functions, before[i]), marks))
  }

  ghost predicate ActiveStays(before: map<JerryBreakpoint, int>, after: map<JerryBreakpoint, int>) {
    before.Keys == after.Keys && forall b :: b in before && before[b] >= 0 ==> after[b] == before[b]
  }

  lemma StaysSame(marks: map<JerryBreakpoint, int>)
    ensures ActiveStays(marks, marks)
  {}

  lemma StaysOn(a: map<JerryBreakpoint, int>, b: map<JerryBreakpoint, int>, c: map<JerryBreakpoint, int>)
    requires ActiveStays(a, b) && ActiveStays(b, c)
    ensures ActiveStays(a, c)
    ensures forall asked: set<JerryBreakpoint> :: Found(asked, b) ==> Found(asked, c)
  {}

  lemma SetMeans(functions: Functions, p: Pending, before: map<JerryBreakpoint, int>, after: map<JerryBreakpoint, int>)
    requires SetAsAsked(functions, p, before, after)
    ensures ActiveStays(before, after)
    ensures AskedBy(functions, p) != {} ==> Found(AskedBy(functions, p), after)
  {
    AskedAreOurs(functions, p);
    hide AskedBy, BreakpointsOf;
  }

  lemma LeftNothing(functions: Functions, newFunctions: Functions, p: Pending)
    requires AskedBy(functions, p) == {}
    ensures Left(functions, newFunctions, p)
  {}

  lemma LeftShort(functions: Functions, newFunctions: Functions, p: Pending, k: nat)
    requires p.OnLine? && MayBeLines(newFunctions, p.sourceName, k) && k < p.line
    ensures Left(functions, newFunctions, p)
  {}

  lemma FewerBooks(functions: Functions, lineMap: map<int, seq<JerryBreakpoint>>, active: map<int, JerryBreakpoint>,
                   marks: map<JerryBreakpoint, int>, pending: map<int, Pending>, last: int, enabled: set<(int, int)>, i: int)
    requires BooksAgree(functions, lineMap, active, marks, pending, last, enabled)
    ensures BooksAgree(functions, lineMap, active, marks, pending - {i}, last, enabled)
  {
    hide FunctionsOk, LinesOk, ActiveOk, Places, BreakpointsOf;
  }

  // The first n pending breakpoints are looked at.
  ghost predicate Resolving(functions: Functions, newFunctions: Functions, items: seq<int>, n: nat, before: map<int, Pending>,
                            now: map<int, Pending>, marks: map<JerryBreakpoint, int>) {
    && n <= |items| && NoTwice(items) && SetOf(items) == before.Keys
    && (forall i :: i in now ==> i in before && now[i] == before[i])
    && (forall m :: 0 <= m < |items| ==>
          && items[m] in before
          && (items[m] in now ==> now[items[m]] == before[items[m]])
          && (m >= n ==> items[m] in now)
          && (m < n && items[m] in now ==> Left(functions, newFunctions, before[items[m]]))
          && (m < n && items[m] !in now ==> Found(AskedBy(functions, before[items[m]]), marks)))
  }

  lemma NoneToResolve(functions: Functions, newFunctions: Functions, marks: map<JerryBreakpoint, int>)
    ensures Resolved(functions, newFunctions, map[], map[], marks)
  {}

  lemma ResolvingStart(functions: Functions, newFunctions: Functions, items: seq<int>, pending: map<int, Pending>,
                       marks: map<JerryBreakpoint, int>)
    requires SetOf(items) == pending.Keys && NoTwice(items)
    ensures Resolving(functions, newFunctions, items, 0, pending, pending, marks)
  {
    hide Left, Found, AskedBy;
    forall m | 0 <= m < |items| ensures items[m] in pending {
      ItemIn(items, m);
    }
  }

  lemma ResolvingAt(functions: Functions, newFunctions: Functions, items: seq<int>, n: nat, before: map<int, Pending>,
                    now: map<int, Pending>, marks: map<JerryBreakpoint, int>)
    requires Resolving(functions, newFunctions, items, n, before, now, marks) && n < |items|
    ensures items[n] in now && items[n] in before && now[items[n]] == before[items[n]] && now != map[]
  {
    hide Left, Found, AskedBy;
  }

  lemma ResolvingNext(functions: Functions, newFunctions: Functions, items: seq<int>, n: nat, before: map<int, Pending>,
                      now: map<int, Pending>, marks: map<JerryBreakpoint, int>, later: map<JerryBreakpoint, int>, found: bool)
    requires Resolving(functions, newFunctions, items, n, before, now, marks) && n < |items| && ActiveStays(marks, later)
    requires items[n] in now
    requires if found then Found(AskedBy(functions, now[items[n]]), later) else Left(functions, newFunctions, now[items[n]])
    ensures Resolving(functions, newFunctions, items, n + 1, before, if found then now - {items[n]} else now, later)
  {
    StaysOn(marks, marks, later) by { StaysSame(marks); }
    hide Left, Found, AskedBy, ActiveStays;
    forall m | 0 <= m < |items| && m != n ensures items[m] != items[n] {
      if m < n { assert items[m] != items[n]; } else { assert items[n] != items[m]; }
    }
  }

  lemma ResolvingEnd(functions: Functions, newFunctions: Functions, items: seq<int>, before: map<int, Pending>, now: map<int, Pending>,
                     marks: map<JerryBreakpoint, int>)
    requires Resolving(functions, newFunctions, items, |items|, before, now, marks)
    ensures Resolved(functions, newFunctions, before, now, marks)
  {
    hide Left, Found, AskedBy;
    forall i | i in before
      ensures (i in now ==> Left(functions, newFunctions, before[i])) && (i !in now ==> Found(AskedBy(functions, before[i]), marks))
    {
      assert i in SetOf(items);
      var m :| 0 <= m < |items| && items[m] == i;
    }
  }

  // The marks of new breakpoints, which have no index.
  ghost function Unmarked(bps: set<JerryBreakpoint>): map<JerryBreakpoint, int> {
    map b | b in bps :: -1
  }

  lemma MarksMore(bps: set<JerryBreakpoint>, news: set<JerryBreakpoint>, marks: map<JerryBreakpoint, int>)
    requires marks == Marks(bps) && bps !! news && forall b :: b in news ==> b.activeIndex == -1
    ensures Marks(bps + news) == marks + Unmarked(news)
  {}

  ghost function LinesOfSome(functions: Functions, keys: seq<int>): set<JerryBreakpoint> {
    set i, b | 0 <= i < |keys| && keys[i] in functions && b in LinesOf(functions[keys[i]]) :: b
  }

  lemma NoLineYet(f: JerryFunction)
    ensures GoneLines(f, []) == {}
  {}

  lemma LineOf(f: JerryFunction, lines: seq<int>, n: nat)
    requires FunctionOk(f) && SetOf(lines) == f.lines.Keys && n < |lines|
    ensures lines[n] in f.lines && f.lines[lines[n]].line == lines[n] && f.lines[lines[n]] in LinesOf(f)
  {
    ItemIn(lines, n);
    assert lines[n] in f.lines;
  }

  lemma SomeOf(functions: Functions, keys: seq<int>, n: nat)
    requires FunctionsOk(functions) && SetOf(keys) == functions.Keys && NoTwice(keys) && n <= |keys|
    ensures n == 0 ==> LinesOfSome(functions, keys[..n]) == {}
    ensures n < |keys| ==>
              && keys[n] in functions && FunctionOk(functions[keys[n]])
              && LinesOf(functions[keys[n]]) !! LinesOfSome(functions, keys[..n])
              && LinesOf(functions[keys[n]]) <= BreakpointsOf(functions)
              && LinesOfSome(functions, keys[..n + 1]) == LinesOfSome(functions, keys[..n]) + LinesOf(functions[keys[n]])
  {
    if n < |keys| {
      ItemIn(keys, n);
      FunctionLines(functions, keys[n]);
      forall b | b in LinesOfSome(functions, keys[..n]) ensures b !in LinesOf(functions[keys[n]]) {
        var i :| 0 <= i < n && keys[..n][i] in functions && b in LinesOf(functions[keys[..n][i]]);
        assert FunctionOk(functions[keys[i]]) && keys[i] != keys[n];
      }
      assert keys[..n + 1] == keys[..n] + [keys[n]];
      forall b
        ensures b in LinesOfSome(functions, keys[..n + 1])
                <==> b in LinesOfSome(functions, keys[..n]) || b in LinesOf(functions[keys[n]])
      {
        if b in LinesOfSome(functions, keys[..n]) {
          var i :| 0 <= i < n && keys[..n][i] in functions && b in LinesOf(functions[keys[..n][i]]);
          assert keys[..n + 1][i] == keys[..n][i];
        }
        assert keys[..n + 1][n] == keys[n];
        if b in LinesOfSome(functions, keys[..n + 1]) {
          var i :| 0 <= i < n + 1 && keys[..n + 1][i] in functions && b in LinesOf(functions[keys[..n + 1][i]]);
          assert i < n ==> keys[..n][i] == keys[..n + 1][i];
        }
      }
    }
  }

  lemma AllOf(functions: Functions, keys: seq<int>)
    requires SetOf(keys) == functions.Keys
    ensures LinesOfSome(functions, keys) == BreakpointsOf(functions)
  {
    forall b ensures b in LinesOfSome(functions, keys) <==> b in BreakpointsOf(functions) {
      if b in BreakpointsOf(functions) {
        var cp, l :| cp in functions && l in functions[cp].lines && functions[cp].lines[l] == b;
        assert cp in SetOf(keys);
        var i :| 0 <= i < |keys| && keys[i] == cp;
        InLines(functions[cp], l);
      }
      if b in LinesOfSome(functions, keys) {
        var i :| 0 <= i < |keys| && keys[i] in functions && b in LinesOf(functions[keys[i]]);
        var l :| l in functions[keys[i]].lines && functions[keys[i]].lines[l] == b;
        InFunction(functions, keys[i], l);
      }
    }
  }

  lemma JoinedFunctions(functions: Functions, news: Functions)
    requires FunctionsOk(functions) && FunctionsOk(news) && news.Keys !! functions.Keys
    ensures FunctionsOk(functions + news) && BreakpointsOf(functions) !! BreakpointsOf(news)
    ensures BreakpointsOf(functions + news) == BreakpointsOf(functions) + BreakpointsOf(news)
  {
    forall b | b in BreakpointsOf(functions) ensures b !in BreakpointsOf(news) {
      OwnedBy(functions, b);
      if b in BreakpointsOf(news) {
        OwnedBy(news, b);
        assert false;
      }
    }
    forall b ensures b in BreakpointsOf(functions + news) <==> b in BreakpointsOf(functions) || b in BreakpointsOf(news) {
      if b in BreakpointsOf(functions) {
        var cp, l :| cp in functions && l in functions[cp].lines && functions[cp].lines[l] == b;
        assert (functions + news)[cp] == functions[cp];
        InFunction(functions + news, cp, l);
      }
      if b in BreakpointsOf(news) {
        var cp, l :| cp in news && l in news[cp].lines && news[cp].lines[l] == b;
        InFunction(functions + news, cp, l);
      }
    }
  }

  lemma Grown(functions: Functions, news: Functions, lineMap: map<int, seq<JerryBreakpoint>>, active: map<int, JerryBreakpoint>,
              marks: map<JerryBreakpoint, int>, pending: map<int, Pending>, last: int, enabled: set<(int, int)>)
    requires BooksAgree(functions, lineMap, active, marks, pending, last, enabled)
    requires FunctionsOk(news) && news.Keys !! functions.Keys
    ensures LinesOk(BreakpointsOf(functions), lineMap) && BreakpointsOf(functions) !! BreakpointsOf(news)
    ensures BreakpointsOf(functions + news) == BreakpointsOf(functions) + BreakpointsOf(news)
  {
    JoinedFunctions(functions, news);
  }

  lemma GrownBooks(functions: Functions, news: Functions, before: map<int, seq<JerryBreakpoint>>, lineMap: map<int, seq<JerryBreakpoint>>,
                   active: map<int, JerryBreakpoint>, marks: map<JerryBreakpoint, int>, pending: map<int, Pending>, last: int,
                   enabled: set<(int, int)>)
    requires BooksAgree(functions, before, active, marks, pending, last, enabled)
    requires FunctionsOk(news) && news.Keys !! functions.Keys
    requires LinesOk(BreakpointsOf(functions) + BreakpointsOf(news), lineMap)
    ensures BooksAgree(functions + news, lineMap, active, marks + Unmarked(BreakpointsOf(news)), pending, last, enabled)
  {
    hide FunctionsOk, LinesOk, BreakpointsOf, IndicesOk, Places, ActiveOk, Unmarked;
    JoinedFunctions(functions, news);
    ActiveGrown(BreakpointsOf(functions), BreakpointsOf(news), active, marks);
  }

  lemma ActiveGrown(bps: set<JerryBreakpoint>, news: set<JerryBreakpoint>, active: map<int, JerryBreakpoint>,
                    marks: map<JerryBreakpoint, int>)
    requires ActiveOk(bps, active, marks) && bps !! news
    ensures ActiveOk(bps + news, active, marks + Unmarked(news))
  {}

  lemma MarksLess(bps: set<JerryBreakpoint>, gone: set<JerryBreakpoint>, marks: map<JerryBreakpoint, int>)
    requires marks.Keys == bps && forall b :: b in bps ==> marks[b] == b.activeIndex
    ensures Marks(bps - gone) == marks - gone
  {}

  // n breakpoints of the function are out of the lists and of the active ones.
  ghost predicate Forgot(functions: Functions, cp: int, lines: seq<int>, n: nat, active: map<int, JerryBreakpoint>,
                         lineMap: map<int, seq<JerryBreakpoint>>, now: map<int, JerryBreakpoint>) {
    && cp in functions && FunctionsOk(functions) && NoTwice(lines) && SetOf(lines) == functions[cp].lines.Keys && n <= |lines|
    && LinesOk(BreakpointsOf(functions) - GoneLines(functions[cp], lines[..n]), lineMap)
    && now == Keep(active, GoneLines(functions[cp], lines[..n]))
  }

  lemma ForgotNothing(functions: Functions, cp: int, lines: seq<int>, active: map<int, JerryBreakpoint>,
                      lineMap: map<int, seq<JerryBreakpoint>>)
    requires cp in functions && FunctionsOk(functions) && LinesOk(BreakpointsOf(functions), lineMap)
    requires SetOf(lines) == functions[cp].lines.Keys && NoTwice(lines)
    ensures Forgot(functions, cp, lines, 0, active, lineMap, active)
  {
    FunctionLines(functions, cp);
    KeepAll(active);
    hide LinesOk, BreakpointsOf, FunctionsOk, GoneLines, Keep, NoTwice, SetOf;
    assert lines[..0] == [];
    assert BreakpointsOf(functions) - {} == BreakpointsOf(functions);
  }

  // The next breakpoint is still in the lists.
  lemma ForgotAt(functions: Functions, cp: int, lines: seq<int>, n: nat, active: map<int, JerryBreakpoint>,
                 lineMap: map<int, seq<JerryBreakpoint>>, now: map<int, JerryBreakpoint>)
    returns (left: set<JerryBreakpoint>)
    requires Forgot(functions, cp, lines, n, active, lineMap, now) && n < |lines|
    ensures cp in functions && lines[n] in functions[cp].lines && functions[cp].lines[lines[n]].line == lines[n]
    ensures left == BreakpointsOf(functions) - GoneLines(functions[cp], lines[..n])
    ensures functions[cp].lines[lines[n]] in left && LinesOk(left, lineMap)
    ensures functions[cp].lines[lines[n]] in LinesOf(functions[cp])
    ensures now == Keep(active, GoneLines(functions[cp], lines[..n]))
  {
    ItemIn(lines, n);
    InLines(functions[cp], lines[n]);
    InFunction(functions, cp, lines[n]);
    FunctionLines(functions, cp);
    hide LinesOk, BreakpointsOf, FunctionsOk, FunctionOk, GoneLines, Keep, NoTwice, SetOf;
    OneLineMore(functions[cp], lines, n);
    left := BreakpointsOf(functions) - GoneLines(functions[cp], lines[..n]);
  }

  lemma ForgotNext(functions: Functions, cp: int, lines: seq<int>, n: nat, active: map<int, JerryBreakpoint>,
                   marks: map<JerryBreakpoint, int>, lineMap: map<int, seq<JerryBreakpoint>>, now: map<int, JerryBreakpoint>)
    requires n < |lines| && cp in functions && FunctionsOk(functions) && NoTwice(lines) && SetOf(lines) == functions[cp].lines.Keys
    requires ActiveOk(BreakpointsOf(functions), active, marks) && lines[n] in functions[cp].lines
    requires LinesOk(BreakpointsOf(functions) - GoneLines(functions[cp], lines[..n]) - {functions[cp].lines[lines[n]]}, lineMap)
    requires now == Keep(active, GoneLines(functions[cp], lines[..n]))
    ensures var b := functions[cp].lines[lines[n]];
            b in marks && Forgot(functions, cp, lines, n + 1, active, lineMap, if marks[b] >= 0 then now - {marks[b]} else now)
  {
    FunctionLines(functions, cp);
    hide LinesOk, BreakpointsOf, FunctionsOk, FunctionOk, GoneLines, Keep, NoTwice, SetOf, ActiveOk;
    var b, gone := functions[cp].lines[lines[n]], GoneLines(functions[cp], lines[..n]);
    InFunction(functions, cp, lines[n]);
    OneLineMore(functions[cp], lines, n);
    KeepStep(BreakpointsOf(functions), active, marks, gone, b);
    assert BreakpointsOf(functions) - (gone + {b}) == BreakpointsOf(functions) - gone - {b};
  }

  lemma ForgotAll(functions: Functions, cp: int, lines: seq<int>, active: map<int, JerryBreakpoint>,
                  lineMap: map<int, seq<JerryBreakpoint>>, now: map<int, JerryBreakpoint>)
    requires Forgot(functions, cp, lines, |lines|, active, lineMap, now)
    ensures cp in functions && LinesOk(BreakpointsOf(functions) - LinesOf(functions[cp]), lineMap)
    ensures now == Keep(active, LinesOf(functions[cp]))
  {
    hide LinesOk, BreakpointsOf, FunctionsOk, FunctionOk, GoneLines, Keep, NoTwice;
    assert lines[..|lines|] == lines;
    AllLinesGone(functions[cp], lines);
  }

  ghost function LinesOf(f: JerryFunction): set<JerryBreakpoint> {
    set l | l in f.lines :: f.lines[l]
  }

  ghost function GoneLines(f: JerryFunction, lines: seq<int>): set<JerryBreakpoint> {
    set i | 0 <= i < |lines| && lines[i] in f.lines :: f.lines[lines[i]]
  }

  // The entries of breakpoints that are not gone.
  ghost function Keep(active: map<int, JerryBreakpoint>, gone: set<JerryBreakpoint>): map<int, JerryBreakpoint> {
    map i | i in active && active[i] !in gone :: active[i]
  }

  lemma KeepAll(active: map<int, JerryBreakpoint>)
    ensures Keep(active, {}) == active
  {}

  lemma KeepStep(bps: set<JerryBreakpoint>, active: map<int, JerryBreakpoint>, marks: map<JerryBreakpoint, int>,
                 gone: set<JerryBreakpoint>, b: JerryBreakpoint)
    requires ActiveOk(bps, active, marks) && b in bps && b !in gone
    ensures b in marks
    ensures Keep(active, gone + {b}) == if marks[b] >= 0 then Keep(active, gone) - {marks[b]} else Keep(active, gone)
  {
    var kept := if marks[b] >= 0 then Keep(active, gone) - {marks[b]} else Keep(active, gone);
    forall i ensures i in Keep(active, gone + {b}) <==> i in kept {
      if i in active && active[i] == b { assert marks[b] == i; }
    }
    assert Keep(active, gone + {b}) == kept;
  }

  lemma FunctionLines(functions: Functions, cp: int)
    requires FunctionsOk(functions) && cp in functions
    ensures LinesOf(functions[cp]) <= BreakpointsOf(functions)
    ensures forall l :: l in functions[cp].lines ==> functions[cp].lines[l] in BreakpointsOf(functions) && functions[cp].lines[l].line == l
    ensures GoneLines(functions[cp], []) == {}
    ensures FunctionOk(functions[cp])
  {
    assert FunctionOk(functions[cp]);
  }

  lemma InFunction(functions: Functions, cp: int, l: int)
    requires cp in functions && l in functions[cp].lines
    ensures functions[cp].lines[l] in BreakpointsOf(functions)
  {}

  lemma OneLineMore(f: JerryFunction, lines: seq<int>, n: nat)
    requires n < |lines| && NoTwice(lines) && lines[n] in f.lines && FunctionOk(f)
    ensures f.lines[lines[n]] !in GoneLines(f, lines[..n])
    ensures GoneLines(f, lines[..n + 1]) == GoneLines(f, lines[..n]) + {f.lines[lines[n]]}
  {
    var before, after := lines[..n], lines[..n + 1];
    forall b ensures b in GoneLines(f, after) <==> b in GoneLines(f, before) || b == f.lines[lines[n]] {
      if b in GoneLines(f, after) {
        var i :| 0 <= i < n + 1 && after[i] in f.lines && f.lines[after[i]] == b;
        assert i < n ==> before[i] == after[i];
      }
      if b in GoneLines(f, before) {
        var i :| 0 <= i < n && before[i] in f.lines && f.lines[before[i]] == b;
        assert after[i] == before[i];
      }
      assert after[n] == lines[n];
    }
  }

  lemma InLines(f: JerryFunction, l: int)
    requires l in f.lines
    ensures f.lines[l] in LinesOf(f)
  {}

  lemma InGone(f: JerryFunction, lines: seq<int>, i: nat)
    requires i < |lines| && lines[i] in f.lines
    ensures f.lines[lines[i]] in GoneLines(f, lines)
  {}

  lemma AllLinesGone(f: JerryFunction, lines: seq<int>)
    requires SetOf(lines) == f.lines.Keys
    ensures GoneLines(f, lines) == LinesOf(f)
  {
    forall b ensures b in GoneLines(f, lines) <==> b in LinesOf(f) {
      if b in LinesOf(f) {
        var l :| l in f.lines && f.lines[l] == b;
        assert l in SetOf(lines);
        var i :| 0 <= i < |lines| && lines[i] == l;
        InGone(f, lines, i);
      }
      if b in GoneLines(f, lines) {
        var i :| 0 <= i < |lines| && lines[i] in f.lines && f.lines[lines[i]] == b;
        InLines(f, lines[i]);
      }
    }
  }

  // A breakpoint belongs to the function with its pointer.
  lemma OwnedBy(functions: Functions, b: JerryBreakpoint)
    requires FunctionsOk(functions) && b in BreakpointsOf(functions)
    ensures b.byteCodeCp in functions && b in LinesOf(functions[b.byteCodeCp])
  {
    var cp, l :| cp in functions && l in functions[cp].lines && functions[cp].lines[l] == b;
    assert FunctionOk(functions[cp]);
  }

  lemma OwnLines(functions: Functions, cp: int)
    requires FunctionsOk(functions) && cp in functions
    ensures forall b :: b in BreakpointsOf(functions) ==> (b in LinesOf(functions[cp]) <==> b.byteCodeCp == cp)
    ensures BreakpointsOf(functions - {cp}) == BreakpointsOf(functions) - LinesOf(functions[cp])
    ensures FunctionsOk(functions - {cp})
  {
    forall b | b in BreakpointsOf(functions) ensures b in LinesOf(functions[cp]) <==> b.byteCodeCp == cp {
      OwnedBy(functions, b);
      assert FunctionOk(functions[cp]);
    }
    forall b ensures b in BreakpointsOf(functions - {cp}) <==> b in BreakpointsOf(functions) && b !in LinesOf(functions[cp]) {
      if b in BreakpointsOf(functions) && b !in LinesOf(functions[cp]) {
        OwnedBy(functions, b);
        var l :| l in functions[b.byteCodeCp].lines && functions[b.byteCodeCp].lines[l] == b;
        assert b.byteCodeCp in functions - {cp};
      }
      if b in BreakpointsOf(functions - {cp}) {
        var dp, l :| dp in functions - {cp} && l in functions[dp].lines && functions[dp].lines[l] == b;
        assert b in BreakpointsOf(functions);
        assert FunctionOk(functions[dp]) && functions[dp].byteCodeCp == dp;
      }
    }
  }

  lemma Released(functions: Functions, cp: int, active: map<int, JerryBreakpoint>, marks: map<JerryBreakpoint, int>,
                 pending: map<int, Pending>, last: int, enabled: set<(int, int)>, before: map<int, seq<JerryBreakpoint>>,
                 lineMap: map<int, seq<JerryBreakpoint>>)
    requires cp in functions && BooksAgree(functions, before, active, marks, pending, last, enabled)
    requires LinesOk(BreakpointsOf(functions) - LinesOf(functions[cp]), lineMap)
    ensures var gone := LinesOf(functions[cp]);
            && BreakpointsOf(functions - {cp}) == BreakpointsOf(functions) - gone
            && BooksAgree(functions - {cp}, lineMap, Keep(active, gone), marks - gone, pending, last,
                          set p | p in enabled && p.0 != cp)
  {
    hide FunctionsOk, BreakpointsOf, LinesOf, LinesOk, ActiveOk, IndicesOk, Places, Keep;
    var gone := LinesOf(functions[cp]);
    OwnLines(functions, cp);
    PlacesKept(BreakpointsOf(functions), active, marks, gone, cp);
    ActiveKept(BreakpointsOf(functions), active, marks, pending, last, gone);
  }

  lemma PlacesKept(bps: set<JerryBreakpoint>, active: map<int, JerryBreakpoint>, marks: map<JerryBreakpoint, int>,
                   gone: set<JerryBreakpoint>, cp: int)
    requires ActiveOk(bps, active, marks) && forall b :: b in bps ==> (b in gone <==> b.byteCodeCp == cp)
    ensures Places(Keep(active, gone)) == (set p | p in Places(active) && p.0 != cp)
  {
    var kept := Keep(active, gone);
    forall p ensures p in Places(kept) <==> p in Places(active) && p.0 != cp {
      if p in Places(kept) {
        var i :| i in kept && Place(kept[i]) == p;
        assert i in active && active[i] in bps;
      }
      if p in Places(active) && p.0 != cp {
        var i :| i in active && Place(active[i]) == p;
        assert i in kept;
      }
    }
  }

  lemma ActiveKept(bps: set<JerryBreakpoint>, active: map<int, JerryBreakpoint>, marks: map<JerryBreakpoint, int>,
                   pending: map<int, Pending>, last: int, gone: set<JerryBreakpoint>)
    requires ActiveOk(bps, active, marks) && IndicesOk(active, pending, last)
    ensures ActiveOk(bps - gone, Keep(active, gone), marks - gone) && IndicesOk(Keep(active, gone), pending, last)
  {}

  lemma IndicesFree(active: map<int, JerryBreakpoint>, pending: map<int, Pending>, last: int)
    requires IndicesOk(active, pending, last)
    ensures last + 1 !in pending && last + 1 !in active
  {}

  // Only breakpoints that are asked for are changed, those of done are active, and nothing
  // that was active gets another index.
  ghost predicate OnlyAsked(functions: Functions, p: Pending, before: map<JerryBreakpoint, int>, after: map<JerryBreakpoint, int>,
                            done: set<JerryBreakpoint>) {
    && after.Keys == before.Keys == BreakpointsOf(functions)
    && done <= AskedBy(functions, p)
    && (forall b :: b in done ==> b in after && after[b] >= 1)
    && (forall b :: b in after && b !in done ==> after[b] == before[b])
    && (forall b :: b in before && before[b] >= 0 ==> after[b] == before[b])
  }

  // Exactly the breakpoints asked for are set.
  ghost predicate SetAsAsked(functions: Functions, p: Pending, before: map<JerryBreakpoint, int>, after: map<JerryBreakpoint, int>) {
    && after.Keys == before.Keys == BreakpointsOf(functions)
    && (forall b :: b in after && b in AskedBy(functions, p) ==> after[b] >= 1)
    && (forall b :: b in after && (before[b] >= 0 || b !in AskedBy(functions, p)) ==> after[b] == before[b])
  }

  lemma NothingSet(functions: Functions, p: Pending, marks: map<JerryBreakpoint, int>)
    requires marks.Keys == BreakpointsOf(functions)
    ensures OnlyAsked(functions, p, marks, marks, {})
  {}

  lemma OneSet(functions: Functions, p: Pending, before: map<JerryBreakpoint, int>, after: map<JerryBreakpoint, int>,
               done: set<JerryBreakpoint>, b: JerryBreakpoint, i: int)
    requires OnlyAsked(functions, p, before, after, done) && b in AskedBy(functions, p)
    requires i >= 1 && b in after && (after[b] >= 0 ==> i == after[b])
    ensures OnlyAsked(functions, p, before, after[b := i], done + {b})
  {
    hide AskedBy, BreakpointsOf;
  }

  lemma AllSet(functions: Functions, p: Pending, before: map<JerryBreakpoint, int>, after: map<JerryBreakpoint, int>,
               done: set<JerryBreakpoint>)
    requires OnlyAsked(functions, p, before, after, done) && AskedBy(functions, p) <= done
    ensures SetAsAsked(functions, p, before, after) && done == AskedBy(functions, p)
  {
    hide AskedBy, BreakpointsOf;
  }

  ghost predicate NoTwice<T>(items: seq<T>) {
    forall i, j :: 0 <= i < j < |items| ==> items[i] != items[j]
  }

  ghost function SetOf<T>(items: seq<T>): set<T> {
    set x | x in items
  }

  // list(d.keys()), in some order
  method Listed<T(==)>(s: set<T>) returns (items: seq<T>)
    ensures SetOf(items) == s && NoTwice(items) && items[0..] == items
  {
    items := [];
    var rest := s;
    while rest != {}
      invariant rest <= s && SetOf(items) == s - rest && NoTwice(items)
      decreases |rest|
    {
      var x :| x in rest;
      forall i | 0 <= i < |items| ensures items[i] != x {
        assert items[i] in SetOf(items);
      }
      assert SetOf(items + [x]) == SetOf(items) + {x};
      items, rest := items + [x], rest - {x};
    }
  }

  lemma ItemIn<T>(items: seq<T>, n: nat)
    requires n < |items|
    ensures items[n] in SetOf(items)
  {}

  lemma FirstGone<T>(items: seq<T>, n: nat)
    requires n < |items| && NoTwice(items)
    ensures items[n] in SetOf(items[n..]) && SetOf(items[n..]) - {items[n]} == SetOf(items[n + 1..])
  {
    assert items[n..][0] == items[n];
    assert items[n..] == [items[n]] + items[n + 1..];
  }

  ghost function FirstOf(functions: Functions, cp: int): JerryBreakpoint
    requires FunctionsOk(functions) && cp in functions
  {
    assert FunctionOk(functions[cp]);
    functions[cp].lines[functions[cp].firstLine]
  }

  lemma FirstIsOne(functions: Functions, cp: int, p: Pending)
    requires FunctionsOk(functions) && cp in functions && p.OnFunction?
    ensures functions[cp].firstLine in functions[cp].lines
    ensures FirstOf(functions, cp) in BreakpointsOf(functions)
    ensures FirstOf(functions, cp) == functions[cp].lines[functions[cp].firstLine]
    ensures functions[cp].name == p.name ==> FirstOf(functions, cp) in AskedBy(functions, p)
  {
    assert FunctionOk(functions[cp]);
  }

  lemma AllFirst(functions: Functions, p: Pending, done: set<JerryBreakpoint>)
    requires FunctionsOk(functions) && p.OnFunction?
    requires forall cp :: cp in functions.Keys && functions[cp].name == p.name ==> FirstOf(functions, cp) in done
    ensures AskedBy(functions, p) <= done
  {
    forall b | b in AskedBy(functions, p) ensures b in done {
      var cp :| cp in functions && functions[cp].name == p.name && functions[cp].firstLine in functions[cp].lines
                && b == functions[cp].lines[functions[cp].firstLine];
      assert b == FirstOf(functions, cp);
    }
  }

  // The list of a line has exactly the breakpoints of that line.
  lemma OnThisLine(functions: Functions, m: map<int, seq<JerryBreakpoint>>, p: Pending, items: seq<JerryBreakpoint>)
    requires LinesOk(BreakpointsOf(functions), m) && p.OnLine? && items == if p.line in m then m[p.line] else []
    ensures forall j :: 0 <= j < |items| ==> items[j] in BreakpointsOf(functions) && items[j].line == p.line
    ensures AskedBy(functions, p) == Matching(items, p.sourceName)
  {
    hide BreakpointsOf, SourceMatches;
    forall j | 0 <= j < |items| ensures items[j] in BreakpointsOf(functions) && items[j].line == p.line {
      assert items[j] in items;
    }
  }

  lemma AskedAreOurs(functions: Functions, p: Pending)
    ensures AskedBy(functions, p) <= BreakpointsOf(functions)
  {}

  lemma ActiveAreOurs(bps: set<JerryBreakpoint>, active: map<int, JerryBreakpoint>, marks: map<JerryBreakpoint, int>)
    requires ActiveOk(bps, active, marks)
    ensures forall i :: i in active ==> active[i] in bps
  {}

  lemma NotBoth(active: map<int, JerryBreakpoint>, pending: map<int, Pending>, last: int)
    requires IndicesOk(active, pending, last)
    ensures forall i :: i in active ==> i !in pending
  {}

  lemma FewerPending(active: map<int, JerryBreakpoint>, pending: map<int, Pending>, last: int, i: int)
    requires IndicesOk(active, pending, last)
    ensures IndicesOk(active, pending - {i}, last)
  {}

  lemma NoPendingBooks(functions: Functions, lineMap: map<int, seq<JerryBreakpoint>>, active: map<int, JerryBreakpoint>,
                       marks: map<JerryBreakpoint, int>, pending: map<int, Pending>, last: int, enabled: set<(int, int)>)
    requires BooksAgree(functions, lineMap, active, marks, pending, last, enabled)
    ensures BooksAgree(functions, lineMap, active, marks, map[], last, enabled)
  {
    hide FunctionsOk, LinesOk, ActiveOk, Places, BreakpointsOf;
  }

  lemma MarkIs(bps: set<JerryBreakpoint>, active: map<int, JerryBreakpoint>, marks: map<JerryBreakpoint, int>, b: JerryBreakpoint)
    requires ActiveOk(bps, active, marks) && b in bps
    ensures b in marks && (marks[b] >= 0 ==> marks[b] >= 1)
  {}

  lemma OneMoreActive(bps: set<JerryBreakpoint>, active: map<int, JerryBreakpoint>, marks: map<JerryBreakpoint, int>,
                      pending: map<int, Pending>, b: JerryBreakpoint, last: int)
    requires ActiveOk(bps, active, marks) && IndicesOk(active, pending, last) && last >= 0
    requires b in bps && marks[b] < 0
    ensures last + 1 !in active
    ensures ActiveOk(bps, active[last + 1 := b], marks[b := last + 1]) && IndicesOk(active[last + 1 := b], pending, last + 1)
  {}

  lemma OneLessActive(bps: set<JerryBreakpoint>, active: map<int, JerryBreakpoint>, marks: map<JerryBreakpoint, int>,
                      pending: map<int, Pending>, i: int, last: int)
    requires ActiveOk(bps, active, marks) && IndicesOk(active, pending, last) && i in active
    ensures active[i] in bps && ActiveOk(bps, active - {i}, marks[active[i] := -1]) && IndicesOk(active - {i}, pending, last)
  {}

  lemma PlacesAdd(active: map<int, JerryBreakpoint>, i: int, b: JerryBreakpoint)
    requires i !in active
    ensures Places(active[i := b]) == Places(active) + {Place(b)}
  {
    var next := active[i := b];
    forall p ensures p in Places(next) <==> p in Places(active) + {Place(b)} {
      if p in Places(active) {
        var j :| j in active && Place(active[j]) == p;
        assert j in next && next[j] == active[j];
      }
      if p == Place(b) {
        assert i in next && Place(next[i]) == p;
      }
    }
  }

  // Two breakpoints at the same place are the same.
  lemma OnePlace(functions: Functions, b: JerryBreakpoint, c: JerryBreakpoint)
    requires FunctionsOk(functions) && b in BreakpointsOf(functions) && c in BreakpointsOf(functions)
    requires Place(b) == Place(c)
    ensures b == c
  {
    var cp, l :| cp in functions && l in functions[cp].lines && functions[cp].lines[l] == b;
    var dp, k :| dp in functions && k in functions[dp].lines && functions[dp].lines[k] == c;
    assert FunctionOk(functions[cp]) && FunctionOk(functions[dp]);
  }

  lemma OneIndex(functions: Functions, active: map<int, JerryBreakpoint>, marks: map<JerryBreakpoint, int>, i: int, j: int)
    requires FunctionsOk(functions) && ActiveOk(BreakpointsOf(functions), active, marks) && i in active && j in active
    ensures Place(active[i]) == Place(active[j]) ==> i == j
  {
    if Place(active[i]) == Place(active[j]) {
      OnePlace(functions, active[i], active[j]);
    }
  }

  lemma PlacesRemove(functions: Functions, active: map<int, JerryBreakpoint>, marks: map<JerryBreakpoint, int>, i: int)
    requires FunctionsOk(functions) && ActiveOk(BreakpointsOf(functions), active, marks) && i in active
    ensures Places(active - {i}) == Places(active) - {Place(active[i])}
  {
    var rest := active - {i};
    forall p ensures p in Places(rest) <==> p in Places(active) && p != Place(active[i]) {
      if p in Places(active) {
        var j :| j in active && Place(active[j]) == p;
        if p != Place(active[i]) {
          assert j in rest && rest[j] == active[j];
        }
      }
      if p in Places(rest) {
        var j :| j in rest && Place(rest[j]) == p;
        assert j in active && active[j] == rest[j];
        OneIndex(functions, active, marks, i, j);
      }
    }
  }
}
