/**
 * The stack-bound estimator: a memoised depth-first search over an arbitrary call graph, and the
 * envelope over nested interrupts.
 */
module StackEstimator {
  import opened Machine

  type Name = string

  /** Callees in the order they are visited. */
  datatype Node = Node(calls: seq<Name>, tailCalls: seq<Name>, indirect: bool)

  /** Frames known from the compiler, the call graph, and the two reserves. */
  datatype Program = Program(frames: map<Name, int>, graph: map<Name, Node>,
                             externalReserve: int, indirectReserve: int)

  function NodeOf(p: Program, f: Name): Node {
    if f in p.graph then p.graph[f] else Node([], [], false)
  }

  // ---------------------------------------------------------------- paths

  /**
   * A way the stack may be occupied from a function on: its own frame, a function without a known
   * frame, an unresolved call, a call, or a tail call that gives the frame back first.
   */
  datatype Path =
    | Own(f: Name)
    | External(f: Name)
    | Indirect(f: Name)
    | Call(f: Name, rest: Path)
    | Tail(f: Name, rest: Path)

  predicate IsPath(p: Program, path: Path) {
    match path
    case Own(f) => f in p.frames
    case External(f) => f !in p.frames
    case Indirect(f) => f in p.frames && NodeOf(p, f).indirect
    case Call(f, rest) => f in p.frames && rest.f in NodeOf(p, f).calls && IsPath(p, rest)
    case Tail(f, rest) => f in p.frames && rest.f in NodeOf(p, f).tailCalls && IsPath(p, rest)
  }

  function Max(a: int, b: int): int { if a >= b then a else b }

  function Cost(p: Program, path: Path): int
    requires IsPath(p, path)
  {
    match path
    case Own(f) => p.frames[f]
    case External(f) => p.externalReserve
    case Indirect(f) => p.frames[f] + p.indirectReserve
    case Call(f, rest) => p.frames[f] + Cost(p, rest)
    case Tail(f, rest) => Max(p.frames[f], Cost(p, rest))
  }

  function AssumedFrames(path: Path): set<Name> {
    match path
    case Own(_) => {}
    case Indirect(_) => {}
    case External(f) => {f}
    case Call(_, rest) => AssumedFrames(rest)
    case Tail(_, rest) => AssumedFrames(rest)
  }

  function IndirectCallers(path: Path): set<Name> {
    match path
    case Own(_) => {}
    case External(_) => {}
    case Indirect(f) => {f}
    case Call(_, rest) => IndirectCallers(rest)
    case Tail(_, rest) => IndirectCallers(rest)
  }

  datatype Estimate = Estimate(bytes: int, path: Path, assumed: set<Name>, indirect: set<Name>)

  /** The estimate describes one of the paths from `f`. */
  predicate Attained(p: Program, f: Name, e: Estimate) {
    && e.path.f == f && IsPath(p, e.path) && Cost(p, e.path) == e.bytes
    && e.assumed == AssumedFrames(e.path) && e.indirect == IndirectCallers(e.path)
  }

  /** ... and no path from `f` costs more. */
  ghost predicate Exact(p: Program, f: Name, e: Estimate) {
    Attained(p, f, e) && forall q: Path :: IsPath(p, q) && q.f == f ==> Cost(p, q) <= e.bytes
  }

  /** Whatever was memoised before, the number is the same. */
  lemma ExactIsUnique(p: Program, f: Name, d: Estimate, e: Estimate)
    requires Exact(p, f, d) && Exact(p, f, e)
    ensures d.bytes == e.bytes
  {
  }

  // ---------------------------------------------------------------- cycles

  predicate Edge(p: Program, f: Name, g: Name) {
    f in p.frames && (g in NodeOf(p, f).calls || g in NodeOf(p, f).tailCalls)
  }

  predicate Walk(p: Program, w: seq<Name>) {
    w != [] && forall i :: 0 <= i < |w| - 1 ==> Edge(p, w[i], w[i + 1])
  }

  predicate Repeats(w: seq<Name>) {
    exists i, j :: 0 <= i < j < |w| && w[i] == w[j]
  }

  /** From `f` a walk comes back to where it has been: recursion. */
  ghost predicate Recursive(p: Program, f: Name) {
    exists w :: Walk(p, w) && w[0] == f && Repeats(w)
  }

  lemma ExtendWalk(p: Program, w: seq<Name>, g: Name)
    requires Walk(p, w) && Edge(p, w[|w| - 1], g)
    ensures Walk(p, w + [g])
  {
  }

  lemma WalkPart(p: Program, w: seq<Name>, from: nat, to: nat)
    requires Walk(p, w) && from < to <= |w|
    ensures Walk(p, w[from..to])
  {
    hide Edge;
    var part := w[from..to];
    forall k | 0 <= k < |part| - 1
      ensures Edge(p, part[k], part[k + 1])
    {
      assert Edge(p, w[from + k], w[from + k + 1]);
    }
  }

  /** Recursion below `f` is recursion below one of its callees. */
  lemma RecursionIsBelow(p: Program, f: Name)
    requires Recursive(p, f)
    ensures exists g :: Edge(p, f, g) && Recursive(p, g)
  {
    var w :| Walk(p, w) && w[0] == f && Repeats(w);
    var i, j :| 0 <= i < j < |w| && w[i] == w[j];
    assert Edge(p, w[0], w[0 + 1]);
    RepeatsBelow(p, w, i, j);
  }

  lemma RepeatsBelow(p: Program, w: seq<Name>, i: nat, j: nat)
    requires Walk(p, w) && i < j < |w| && w[i] == w[j]
    ensures Recursive(p, w[1])
  {
    assert Edge(p, w[0], w[0 + 1]);
    WalkPart(p, w, 1, |w|);
    WalkPart(p, w, 1, j + 1);
    hide Edge, Walk;
    if i > 0 {
      var v := w[1..];
      assert v == w[1..|w|] && v[i - 1] == v[j - 1];
      assert Walk(p, v) && v[0] == w[1] && Repeats(v);
    } else {
      var round := w[1..j + 1];
      ExtendWalk(p, round, w[1]);
      var v := round + [w[1]];
      assert v[0] == v[|round|];
      assert Walk(p, v) && v[0] == w[1] && Repeats(v);
    }
  }

  // ---------------------------------------------------------------- the search

  class StackEstimator {
    const p: Program
    var memo: map<Name, Estimate>

    /** Everything memoised is exact, and free of recursion. */
    ghost predicate Sound()
      reads this
    {
      forall f :: f in memo ==> Exact(p, f, memo[f]) && !Recursive(p, f)
    }

    constructor (p: Program)
      ensures Sound() && this.p == p && memo == map[]
    {
      this.p := p;
      memo := map[];
    }

    /** The largest candidate so far and its witness; a later one must be strictly larger. */
    method Better(best: Estimate, candidate: Estimate) returns (e: Estimate)
      ensures e in {best, candidate} && e.bytes == Max(best.bytes, candidate.bytes)
    {
      e := if candidate.bytes > best.bytes then candidate else best;
    }

    /**
     * _estimate: the exact maximum over all paths from `f`, or nothing, exactly if the search has
     * met a cycle. What is memoised stays.
     */
    method EstimateFrom(f: Name, active: seq<Name>) returns (r: Option<Estimate>)
      requires Sound() && Walk(p, active + [f])
      requires forall g :: g in active ==> g in p.frames
      modifies this
      ensures Sound() && old(memo.Keys) <= memo.Keys
      ensures forall g :: g in old(memo) ==> memo[g] == old(memo)[g]
      ensures r.Some? ==> f in memo && memo[f] == r.value && Exact(p, f, r.value) && !Recursive(p, f)
      ensures r == None ==> Recursive(p, (active + [f])[0])
      decreases p.frames.Keys - (set g | g in active), 1
    {
      hide Exact, Recursive, Walk, Through;
      if f in memo {
        return Some(memo[f]);
      }
      if f in active {
        CycleFound(p, active, f);
        return None;
      }
      if f !in p.frames {
        var e := Estimate(p.externalReserve, External(f), {f}, {});
        UnknownIsExact(p, f, e);
        memo := memo[f := e];
        return Some(e);
      }
      var node := NodeOf(p, f);
      var best := Estimate(p.frames[f], Own(f), {}, {});
      r := EstimateCallees(f, active, node.calls, false, best);
      if r == None {
        return;
      }
      r := EstimateCallees(f, active, node.tailCalls, true, r.value);
      if r == None {
        return;
      }
      best := r.value;
      if node.indirect {
        best := Better(best, Estimate(p.frames[f] + p.indirectReserve, Indirect(f), {}, {f}));
      }
      AllConsidered(p, f, best, memo);
      memo := memo[f := best];
      r := Some(best);
    }

    /** The loop over the callees of one kind. */
    method EstimateCallees(f: Name, active: seq<Name>, callees: seq<Name>, tail: bool, start: Estimate)
      returns (r: Option<Estimate>)
      requires Sound() && Walk(p, active + [f]) && f in p.frames && f !in active
      requires forall g :: g in active ==> g in p.frames
      requires callees == if tail then NodeOf(p, f).tailCalls else NodeOf(p, f).calls
      requires Attained(p, f, start)
      modifies this
      ensures Sound() && old(memo.Keys) <= memo.Keys
      ensures forall g :: g in old(memo) ==> memo[g] == old(memo)[g]
      ensures r.Some? ==> Attained(p, f, r.value) && r.value.bytes >= start.bytes
      ensures r.Some? ==> forall g :: g in callees ==>
                g in memo && Through(p, f, memo[g], tail) <= r.value.bytes
      ensures r == None ==> Recursive(p, (active + [f])[0])
      decreases p.frames.Keys - (set g | g in active), 0
    {
      hide Exact, Recursive, Walk, Attained, Through;
      var best := start;
      var k := 0;
      var nextActive := active + [f];
      MoreActive(p, active, f);
      while k < |callees|
        invariant 0 <= k <= |callees|
        invariant Sound() && old(memo.Keys) <= memo.Keys
        invariant forall g :: g in old(memo) ==> memo[g] == old(memo)[g]
        invariant Attained(p, f, best) && best.bytes >= start.bytes
        invariant forall i :: 0 <= i < k ==>
                    callees[i] in memo && Through(p, f, memo[callees[i]], tail) <= best.bytes
      {
        var g := callees[k];
        assert Edge(p, nextActive[|nextActive| - 1], g);
        ExtendWalk(p, nextActive, g);
        var child := EstimateFrom(g, nextActive);
        if child == None {
          assert (nextActive + [g])[0] == nextActive[0];
          return None;
        }
        var e := child.value;
        var candidate :=
          if tail then Estimate(Max(p.frames[f], e.bytes), Tail(f, e.path), e.assumed, e.indirect)
          else Estimate(p.frames[f] + e.bytes, Call(f, e.path), e.assumed, e.indirect);
        CandidateIsAttained(p, f, g, e, tail);
        best := Better(best, candidate);
        k := k + 1;
      }
      r := Some(best);
    }

    /** estimate: an absent root is refused; otherwise there is a result exactly without recursion. */
    method EstimateRoot(root: Name) returns (r: Option<Estimate>)
      requires Sound()
      modifies this
      ensures Sound()
      ensures r.Some? <==> (root in p.frames || root in p.graph) && !Recursive(p, root)
      ensures r.Some? ==> Exact(p, root, r.value)
    {
      if root !in p.frames && root !in p.graph {
        return None;
      }
      assert [] + [root] == [root];
      r := EstimateFrom(root, []);
    }
  }

  // ---------------------------------------------------------------- the envelope

  /** An execution context: its root and, for an interrupt, its priority (smaller preempts). */
  datatype Context = Context(root: Name, priority: int)

  predicate DistinctPriorities(contexts: seq<Context>) {
    forall i, j :: 0 <= i < j < |contexts| ==> contexts[i].priority != contexts[j].priority
  }

  function Sum(values: seq<int>): int {
    if values == [] then 0 else Sum(values[..|values| - 1]) + values[|values| - 1]
  }

  /** Every context resolved and estimated. */
  ghost predicate Estimable(p: Program, root: Name) {
    (root in p.frames || root in p.graph) && !Recursive(p, root)
  }

  /** What each interrupt adds: its software stack and the exception frame. */
  function Loads(estimates: seq<Estimate>, frame: nat): (l: seq<int>)
    ensures |l| == |estimates|
  {
    seq(|estimates|, i requires 0 <= i < |estimates| => estimates[i].bytes + frame)
  }

  /**
   * analyze: priorities must be unique and no frame dynamic; then the envelope is the main estimate
   * plus one full estimate and exception frame for every interrupt.
   */
  method Analyze(p: Program, main: Name, contexts: seq<Context>, frame: nat, dynamicFrames: set<Name>)
    returns (envelope: Option<int>, mainEstimate: Option<Estimate>, estimates: seq<Estimate>)
    ensures envelope.Some? <==>
              && DistinctPriorities(contexts) && Estimable(p, main)
              && (forall c :: c in contexts ==> Estimable(p, c.root))
              && dynamicFrames == {}
    ensures envelope.Some? ==>
              && |estimates| == |contexts| && mainEstimate.Some?
              && Exact(p, main, mainEstimate.value)
              && (forall i :: 0 <= i < |contexts| ==> Exact(p, contexts[i].root, estimates[i]))
              && envelope.value == mainEstimate.value.bytes + Sum(Loads(estimates, frame))
  {
    hide Exact, Recursive, DistinctPriorities;
    envelope, mainEstimate, estimates := None, None, [];
    var unique := UniquePriorities(contexts);
    if !unique {
      return;
    }
    var estimator := new StackEstimator(p);
    mainEstimate := estimator.EstimateRoot(main);
    if mainEstimate == None {
      return;
    }
    var total := mainEstimate.value.bytes;
    var i := 0;
    while i < |contexts|
      invariant 0 <= i <= |contexts| && |estimates| == i
      invariant estimator.Sound() && estimator.p == p && fresh(estimator)
      invariant forall k :: 0 <= k < i ==> Estimable(p, contexts[k].root)
      invariant forall k :: 0 <= k < i ==> Exact(p, contexts[k].root, estimates[k])
      invariant total == mainEstimate.value.bytes + Sum(Loads(estimates, frame))
    {
      var e := estimator.EstimateRoot(contexts[i].root);
      if e == None {
        assert contexts[i] in contexts;
        return;
      }
      assert Loads(estimates + [e.value], frame)
          == Loads(estimates, frame) + [e.value.bytes + frame];
      assert Loads(estimates + [e.value], frame)[..i] == Loads(estimates, frame);
      estimates := estimates + [e.value];
      total := total + e.value.bytes + frame;
      i := i + 1;
    }
    if dynamicFrames != {} {
      return;
    }
    envelope := Some(total);
  }

  /** The loop that looks for two contexts of the same priority. */
  method UniquePriorities(contexts: seq<Context>) returns (unique: bool)
    ensures unique <==> DistinctPriorities(contexts)
  {
    var i := 0;
    while i < |contexts|
      invariant 0 <= i <= |contexts|
      invariant DistinctPriorities(contexts[..i])
    {
      var j := 0;
      while j < i
        invariant 0 <= j <= i
        invariant forall k :: 0 <= k < j ==> contexts[k].priority != contexts[i].priority
      {
        if contexts[j].priority == contexts[i].priority {
          return false;
        }
        j := j + 1;
      }
      i := i + 1;
    }
    assert contexts[..i] == contexts;
    unique := true;
  }

  predicate NonNegative(p: Program) {
    && p.externalReserve >= 0 && p.indirectReserve >= 0
    && forall f :: f in p.frames ==> p.frames[f] >= 0
  }

  /**
   * How far the stack is filled, step by step, while a path is taken: a call leaves the frame of its
   * caller in place, a tail call gives it back before the callee claims its own.
   */
  function Heights(p: Program, path: Path, base: int): (h: seq<int>)
    requires IsPath(p, path)
    ensures h != []
  {
    match path
    case Own(f) => [base + p.frames[f]]
    case External(f) => [base + p.externalReserve]
    case Indirect(f) => [base + p.frames[f], base + p.frames[f] + p.indirectReserve]
    case Call(f, rest) => [base + p.frames[f]] + Heights(p, rest, base + p.frames[f])
    case Tail(f, rest) => [base + p.frames[f]] + Heights(p, rest, base)
  }

  predicate IsPeak(h: seq<int>, peak: int) {
    peak in h && forall i :: 0 <= i < |h| ==> h[i] <= peak
  }

  lemma PeakOfMore(first: int, h: seq<int>, peak: int)
    requires IsPeak(h, peak)
    ensures IsPeak([first] + h, Max(first, peak))
  {
    var all := [first] + h;
    assert all[0] == first;
    assert forall i :: 0 <= i < |h| ==> all[i + 1] == h[i];
  }

  /** What a path costs is the highest the stack gets while it is taken. */
  lemma {:induction false} CostIsPeak(p: Program, path: Path, base: int)
    requires NonNegative(p) && IsPath(p, path)
    ensures Cost(p, path) >= 0 && IsPeak(Heights(p, path, base), base + Cost(p, path))
    decreases path
  {
    hide IsPeak;
    match path {
      case Call(f, rest) =>
        CostIsPeak(p, rest, base + p.frames[f]);
        PeakOfMore(base + p.frames[f], Heights(p, rest, base + p.frames[f]), base + p.frames[f] + Cost(p, rest));
      case Tail(f, rest) =>
        CostIsPeak(p, rest, base);
        PeakOfMore(base + p.frames[f], Heights(p, rest, base), base + Cost(p, rest));
      case _ => PeakOfEnd(p, path, base);
    }
  }

  lemma PeakOfEnd(p: Program, path: Path, base: int)
    requires NonNegative(p) && IsPath(p, path) && !path.Call? && !path.Tail?
    ensures Cost(p, path) >= 0 && IsPeak(Heights(p, path, base), base + Cost(p, path))
  {
    var h := Heights(p, path, base);
    assert h[|h| - 1] == base + Cost(p, path);
  }

  /** Interrupts, each nested in the one before by a more urgent priority, somewhere in their code. */
  predicate IsNest(p: Program, contexts: seq<Context>, nest: seq<nat>, paths: seq<Path>) {
    && |nest| == |paths|
    && (forall i :: 0 <= i < |nest| ==> nest[i] < |contexts|)
    && (forall i, j :: 0 <= i < j < |nest| ==>
          contexts[nest[j]].priority < contexts[nest[i]].priority)
    && forall i :: 0 <= i < |nest| ==> IsPath(p, paths[i]) && paths[i].f == contexts[nest[i]].root
  }

  /** The stack in use while the nest is active. */
  function InUse(p: Program, mainPath: Path, paths: seq<Path>, frame: nat): int
    requires IsPath(p, mainPath) && forall q :: q in paths ==> IsPath(p, q)
  {
    if paths == [] then Cost(p, mainPath)
    else
      InUse(p, mainPath, paths[..|paths| - 1], frame) + Cost(p, paths[|paths| - 1]) + frame
  }

  predicate LoadsNonNegative(estimates: seq<Estimate>, frame: nat) {
    forall i :: 0 <= i < |estimates| ==> estimates[i].bytes + frame >= 0
  }

  /** What main and the interrupts do in some situation, and that it is one of theirs. */
  predicate IsSituation(p: Program, main: Name, contexts: seq<Context>, mainPath: Path,
                        nest: seq<nat>, paths: seq<Path>)
  {
    && IsPath(p, mainPath) && mainPath.f == main && IsNest(p, contexts, nest, paths)
    && forall q :: q in paths ==> IsPath(p, q)
  }

  /** In every situation the stack in use is at most the envelope. */
  ghost predicate Bounds(p: Program, main: Name, contexts: seq<Context>, frame: nat, envelope: int) {
    forall mainPath, nest, paths :: IsSituation(p, main, contexts, mainPath, nest, paths) ==>
      InUse(p, mainPath, paths, frame) <= envelope
  }

  ghost predicate Estimated(p: Program, main: Name, contexts: seq<Context>,
                            mainEstimate: Estimate, estimates: seq<Estimate>)
  {
    && |estimates| == |contexts| && Exact(p, main, mainEstimate)
    && forall i :: 0 <= i < |contexts| ==> Exact(p, contexts[i].root, estimates[i])
  }

  /** Whatever main does and however interrupts nest, the envelope is not exceeded. */
  lemma EnvelopeBoundsEveryNest(p: Program, main: Name, contexts: seq<Context>, frame: nat,
                                mainEstimate: Estimate, estimates: seq<Estimate>,
                                mainPath: Path, nest: seq<nat>, paths: seq<Path>)
    requires Estimated(p, main, contexts, mainEstimate, estimates) && NoGain(p, contexts, frame)
    requires IsSituation(p, main, contexts, mainPath, nest, paths)
    ensures InUse(p, mainPath, paths, frame)
         <= mainEstimate.bytes + Sum(Loads(estimates, frame))
  {
    NoGainIsNonNegativeLoads(p, main, contexts, frame, mainEstimate, estimates);
    var loads := Loads(estimates, frame);
    NestedCost(p, main, contexts, frame, mainEstimate, estimates, mainPath, nest, paths);
    PickedSum(loads, nest);
  }

  /** Every interrupt has somewhere a path that, with its exception frame, does not give stack back. */
  ghost predicate NoGain(p: Program, contexts: seq<Context>, frame: nat) {
    forall c :: c in contexts ==> HasLoad(p, c.root, frame)
  }

  ghost predicate HasLoad(p: Program, root: Name, frame: nat) {
    exists q: Path :: IsPath(p, q) && q.f == root && Cost(p, q) + frame >= 0
  }

  /** What that says of the program is what it says of the estimates. */
  lemma NoGainIsNonNegativeLoads(p: Program, main: Name, contexts: seq<Context>, frame: nat,
                                 mainEstimate: Estimate, estimates: seq<Estimate>)
    requires Estimated(p, main, contexts, mainEstimate, estimates)
    ensures NoGain(p, contexts, frame) <==> LoadsNonNegative(estimates, frame)
  {
    forall i | 0 <= i < |contexts|
      ensures HasLoad(p, contexts[i].root, frame) <==> estimates[i].bytes + frame >= 0
      ensures contexts[i] in contexts
    {
      var worst := estimates[i].path;
      assert IsPath(p, worst) && worst.f == contexts[i].root && Cost(p, worst) == estimates[i].bytes;
    }
    hide HasLoad, Estimated;
  }

  /** Entries that are not negative suffice, whatever the graph and the contexts. */
  lemma NonNegativeFramesSuffice(p: Program, contexts: seq<Context>, frame: nat)
    requires NonNegative(p)
    ensures NoGain(p, contexts, frame)
  {
    forall c | c in contexts
      ensures HasLoad(p, c.root, frame)
    {
      var q := if c.root in p.frames then Own(c.root) else External(c.root);
      assert IsPath(p, q) && q.f == c.root && Cost(p, q) + frame >= 0;
    }
  }

  /** A function that calls nothing. */
  lemma OwnIsExact(p: Program, f: Name)
    requires f in p.frames && p.graph == map[]
    ensures Exact(p, f, Estimate(p.frames[f], Own(f), {}, {}))
  {
  }

  // ---------------------------------------------------------------- the compiler's records

  /** A line of a stack-usage file: any whole number is read. */
  datatype Record = Record(f: Name, bytes: int)

  /** The table has every function that is recorded, with the largest of its records. */
  predicate LargestOf(records: seq<Record>, frames: map<Name, int>) {
    && (forall f :: f in frames ==> Record(f, frames[f]) in records)
    && (forall r :: r in records ==> r.f in frames && r.bytes <= frames[r.f])
  }

  /** The merging of parse_stack_usage. */
  method ReadRecords(records: seq<Record>) returns (frames: map<Name, int>)
    ensures LargestOf(records, frames)
  {
    frames := map[];
    for i := 0 to |records|
      invariant LargestOf(records[..i], frames)
    {
      var r := records[i];
      assert records[..i + 1] == records[..i] + [r];
      if r.f !in frames || r.bytes > frames[r.f] {
        frames := frames[r.f := r.bytes];
      }
    }
    assert records[..|records|] == records;
  }

  /** An entry is negative exactly if all records of its function are. */
  lemma NegativeEntry(records: seq<Record>, frames: map<Name, int>, f: Name)
    requires LargestOf(records, frames) && f in frames
    ensures frames[f] < 0 <==> forall r :: r in records && r.f == f ==> r.bytes < 0
  {
    assert Record(f, frames[f]) in records;
  }

  /** A negative record, which the reader lets pass, breaks the bound. */
  lemma NegativeFrameBreaksEnvelope() returns (records: seq<Record>, p: Program, isr: Estimate)
    ensures LargestOf(records, p.frames)
    ensures Estimated(p, "main", [Context("isr", 1)], Estimate(0, Own("main"), {}, {}), [isr])
    ensures !Bounds(p, "main", [Context("isr", 1)], 0, 0 + Sum(Loads([isr], 0)))
  {
    records := [Record("main", 0), Record("isr", -8)];
    p := Program(map["main" := 0, "isr" := -8], map[], 0, 0);
    OwnIsExact(p, "main");
    OwnIsExact(p, "isr");
    isr := Estimate(-8, Own("isr"), {}, {});
    assert Loads([isr], 0) == [-8] && Sum([-8]) == -8 by {
      assert [-8][..0] == [];
    }
    MainAlone(p, [Context("isr", 1)], 0);
  }

  lemma MainAlone(p: Program, contexts: seq<Context>, frame: nat)
    requires "main" in p.frames && p.frames["main"] == 0 && p.graph == map[]
    ensures IsSituation(p, "main", contexts, Own("main"), [], [])
    ensures InUse(p, Own("main"), [], frame) == 0
  {
  }

  /** Exactly when the envelope bounds every situation: when no interrupt gives stack back. */
  lemma EnvelopeIsExact(p: Program, main: Name, contexts: seq<Context>, frame: nat,
                        mainEstimate: Estimate, estimates: seq<Estimate>)
    requires DistinctPriorities(contexts) && Estimated(p, main, contexts, mainEstimate, estimates)
    ensures Bounds(p, main, contexts, frame, mainEstimate.bytes + Sum(Loads(estimates, frame)))
            <==> NoGain(p, contexts, frame)
  {
    NoGainIsNonNegativeLoads(p, main, contexts, frame, mainEstimate, estimates);
    hide Estimated, InUse, IsNest, IsPath, DistinctPriorities, Loads, NoGain;
    if NoGain(p, contexts, frame) {
      forall mainPath, nest, paths | IsSituation(p, main, contexts, mainPath, nest, paths)
        ensures InUse(p, mainPath, paths, frame) <= mainEstimate.bytes + Sum(Loads(estimates, frame))
      {
        EnvelopeBoundsEveryNest(p, main, contexts, frame, mainEstimate, estimates, mainPath, nest, paths);
      }
    } else {
      var k :| 0 <= k < |estimates| && estimates[k].bytes + frame < 0;
      var nest, paths := NegativeLoadBreaks(p, main, contexts, frame, mainEstimate, estimates, k);
      assert IsSituation(p, main, contexts, mainEstimate.path, nest, paths);
    }
  }

  /** The nest of all interrupts but the one with the negative load uses more than the envelope. */
  lemma NegativeLoadBreaks(p: Program, main: Name, contexts: seq<Context>, frame: nat,
                           mainEstimate: Estimate, estimates: seq<Estimate>, k: nat)
    returns (nest: seq<nat>, paths: seq<Path>)
    requires DistinctPriorities(contexts) && Estimated(p, main, contexts, mainEstimate, estimates)
    requires k < |estimates| && estimates[k].bytes + frame < 0
    ensures IsSituation(p, main, contexts, mainEstimate.path, nest, paths)
    ensures InUse(p, mainEstimate.path, paths, frame) > mainEstimate.bytes + Sum(Loads(estimates, frame))
  {
    hide Exact, DistinctPriorities, IsSituation, InUse;
    var loads := Loads(estimates, frame);
    var all := FullNest(contexts, |contexts|);
    UrgentIsDistinct(contexts, all);
    PickedAll(loads, all);
    assert k in all;
    var at :| 0 <= at < |all| && all[at] == k;
    Unpick(loads, all, at);
    nest := all[..at] + all[at + 1..];
    paths := WorstPaths(estimates, nest);
    WorstCaseIsReached(p, main, contexts, frame, mainEstimate, estimates, nest);
  }

  predicate Urgent(contexts: seq<Context>, nest: seq<nat>) {
    && (forall i :: 0 <= i < |nest| ==> nest[i] < |contexts|)
    && forall i, j :: 0 <= i < j < |nest| ==> contexts[nest[j]].priority < contexts[nest[i]].priority
  }

  lemma UrgentIsDistinct(contexts: seq<Context>, nest: seq<nat>)
    requires Urgent(contexts, nest)
    ensures Distinct(nest)
  {
  }

  /** All indices below `n` and no others. */
  predicate Covers(nest: seq<nat>, n: nat) {
    && (forall i :: 0 <= i < |nest| ==> nest[i] < n)
    && forall i: nat :: i < n ==> i in nest
  }

  /** The first `n` contexts, each interrupting the one before. */
  lemma {:induction false} FullNest(contexts: seq<Context>, n: nat) returns (nest: seq<nat>)
    requires DistinctPriorities(contexts) && n <= |contexts|
    ensures Urgent(contexts, nest) && Covers(nest, n)
  {
    nest := [];
    if n > 0 {
      var before := FullNest(contexts, n - 1);
      var at := 0;
      while at < |before| && contexts[before[at]].priority > contexts[n - 1].priority
        invariant at <= |before|
        invariant forall i :: 0 <= i < at ==> contexts[before[i]].priority > contexts[n - 1].priority
      {
        at := at + 1;
      }
      nest := before[..at] + [n - 1] + before[at..];
      Inserted(contexts, before, n - 1, at);
    }
  }

  lemma Inserted(contexts: seq<Context>, before: seq<nat>, n: nat, at: nat)
    requires DistinctPriorities(contexts) && n < |contexts| && at <= |before|
    requires Urgent(contexts, before) && Covers(before, n)
    requires forall i :: 0 <= i < at ==> contexts[before[i]].priority > contexts[n].priority
    requires at < |before| ==> contexts[before[at]].priority <= contexts[n].priority
    ensures var nest := before[..at] + [n] + before[at..];
            Urgent(contexts, nest) && Covers(nest, n + 1)
  {
    hide Urgent, Covers, DistinctPriorities;
    InsertedUrgent(contexts, before, n, at);
    InsertedCovers(before, n, at);
  }

  lemma InsertedUrgent(contexts: seq<Context>, before: seq<nat>, n: nat, at: nat)
    requires DistinctPriorities(contexts) && n < |contexts| && at <= |before|
    requires Urgent(contexts, before) && Covers(before, n)
    requires forall i :: 0 <= i < at ==> contexts[before[i]].priority > contexts[n].priority
    requires at < |before| ==> contexts[before[at]].priority <= contexts[n].priority
    ensures Urgent(contexts, before[..at] + [n] + before[at..])
  {
    hide Covers;
    var nest := before[..at] + [n] + before[at..];
    CoversBelow(before, n);
    forall i | at <= i < |before|
      ensures contexts[before[i]].priority < contexts[n].priority
    {
      assert contexts[before[at]].priority != contexts[n].priority;
    }
    assert forall i :: 0 <= i < |nest| ==>
        nest[i] == if i < at then before[i] else if i == at then n else before[i - 1];
  }

  lemma CoversBelow(nest: seq<nat>, n: nat)
    requires Covers(nest, n)
    ensures forall i :: 0 <= i < |nest| ==> nest[i] < n
  {
  }

  lemma InsertedCovers(before: seq<nat>, n: nat, at: nat)
    requires at <= |before| && Covers(before, n)
    ensures Covers(before[..at] + [n] + before[at..], n + 1)
  {
    var nest := before[..at] + [n] + before[at..];
    forall i: nat | i < n + 1
      ensures i in nest
    {
      if i < n {
        assert i in before;
        var j :| 0 <= j < |before| && before[j] == i;
        assert nest[if j < at then j else j + 1] == i;
      } else {
        assert nest[at] == n;
      }
    }
  }

  /** Some situation with exactly these interrupts uses all that was estimated for them. */
  lemma {:induction false} WorstCaseIsReached(p: Program, main: Name, contexts: seq<Context>, frame: nat,
                                              mainEstimate: Estimate, estimates: seq<Estimate>, nest: seq<nat>)
    requires Estimated(p, main, contexts, mainEstimate, estimates) && Urgent(contexts, nest)
    ensures var paths := WorstPaths(estimates, nest);
            && IsSituation(p, main, contexts, mainEstimate.path, nest, paths)
            && InUse(p, mainEstimate.path, paths, frame)
               == mainEstimate.bytes + Picked(Loads(estimates, frame), nest)
    decreases |nest|
  {
    hide Exact, Cost, Sum, Covers, DistinctPriorities;
    MainIsExact(p, main, contexts, mainEstimate, estimates);
    if nest != [] {
      var n := |nest| - 1;
      WorstCaseIsReached(p, main, contexts, frame, mainEstimate, estimates, nest[..n]);
      assert WorstPaths(estimates, nest)[..n] == WorstPaths(estimates, nest[..n]);
      ContextIsExact(p, main, contexts, mainEstimate, estimates, nest[n]);
    }
  }

  lemma MainIsExact(p: Program, main: Name, contexts: seq<Context>, mainEstimate: Estimate, estimates: seq<Estimate>)
    requires Estimated(p, main, contexts, mainEstimate, estimates)
    ensures IsPath(p, mainEstimate.path) && mainEstimate.path.f == main
    ensures Cost(p, mainEstimate.path) == mainEstimate.bytes && |estimates| == |contexts|
  {
  }

  lemma ContextIsExact(p: Program, main: Name, contexts: seq<Context>, mainEstimate: Estimate,
                       estimates: seq<Estimate>, k: nat)
    requires Estimated(p, main, contexts, mainEstimate, estimates) && k < |contexts|
    ensures |estimates| == |contexts|
    ensures var path := estimates[k].path;
            IsPath(p, path) && path.f == contexts[k].root && Cost(p, path) == estimates[k].bytes
  {
    assert Exact(p, contexts[k].root, estimates[k]);
  }

  function WorstPaths(estimates: seq<Estimate>, nest: seq<nat>): (paths: seq<Path>)
    requires forall i :: 0 <= i < |nest| ==> nest[i] < |estimates|
    ensures |paths| == |nest|
  {
    seq(|nest|, i requires 0 <= i < |nest| => estimates[nest[i]].path)
  }

  /** The loads of the contexts in a nest. */
  function Picked(loads: seq<int>, nest: seq<nat>): int
    requires forall i :: 0 <= i < |nest| ==> nest[i] < |loads|
  {
    if nest == [] then 0
    else Picked(loads, nest[..|nest| - 1]) + loads[nest[|nest| - 1]]
  }

  lemma {:induction false} NestedCost(p: Program, main: Name, contexts: seq<Context>, frame: nat,
                                      mainEstimate: Estimate, estimates: seq<Estimate>,
                                      mainPath: Path, nest: seq<nat>, paths: seq<Path>)
    requires |estimates| == |contexts| && Exact(p, main, mainEstimate)
    requires forall i :: 0 <= i < |contexts| ==> Exact(p, contexts[i].root, estimates[i])
    requires IsPath(p, mainPath) && mainPath.f == main && IsNest(p, contexts, nest, paths)
    ensures InUse(p, mainPath, paths, frame)
         <= mainEstimate.bytes + Picked(Loads(estimates, frame), nest)
    decreases |nest|
  {
    if nest != [] {
      var n := |nest| - 1;
      assert IsNest(p, contexts, nest[..n], paths[..n]);
      NestedCost(p, main, contexts, frame, mainEstimate, estimates, mainPath, nest[..n], paths[..n]);
      assert Cost(p, paths[n]) <= estimates[nest[n]].bytes;
    }
  }

  predicate Distinct(nest: seq<nat>) {
    forall i, j :: 0 <= i < j < |nest| ==> nest[i] != nest[j]
  }

  /** Picking some of the non-negative loads, each at most once, cannot exceed their sum. */
  lemma {:induction false} PickedSum(loads: seq<int>, nest: seq<nat>)
    requires forall i :: 0 <= i < |loads| ==> loads[i] >= 0
    requires Distinct(nest) && forall i :: 0 <= i < |nest| ==> nest[i] < |loads|
    ensures Picked(loads, nest) <= Sum(loads)
    decreases |loads|
  {
    if loads == [] {
      assert nest == [];
    } else {
      var n := |loads| - 1;
      if k :| 0 <= k < |nest| && nest[k] == n {
        var rest := nest[..k] + nest[k + 1..];
        Unpick(loads, nest, k);
        SamePicks(loads, rest);
        PickedSum(loads[..n], rest);
      } else {
        SamePicks(loads, nest);
        PickedSum(loads[..n], nest);
      }
    }
  }

  /** Picking every load once is summing them. */
  lemma {:induction false} PickedAll(loads: seq<int>, nest: seq<nat>)
    requires Distinct(nest) && Covers(nest, |loads|)
    ensures Picked(loads, nest) == Sum(loads)
    decreases |loads|
  {
    if loads == [] {
      assert nest == [];
    } else {
      var n := |loads| - 1;
      var k := PlaceOf(nest, |loads|, n);
      Unpick(loads, nest, k);
      OthersRemain(nest, k, n);
      SamePicks(loads, nest[..k] + nest[k + 1..]);
      PickedAll(loads[..n], nest[..k] + nest[k + 1..]);
    }
  }

  lemma PlaceOf(nest: seq<nat>, n: nat, i: nat) returns (k: nat)
    requires Covers(nest, n) && i < n
    ensures k < |nest| && nest[k] == i
  {
    assert i in nest;
    k :| 0 <= k < |nest| && nest[k] == i;
  }

  lemma OthersRemain(nest: seq<nat>, k: nat, n: nat)
    requires Distinct(nest) && k < |nest| && nest[k] == n && Covers(nest, n + 1)
    ensures var rest := nest[..k] + nest[k + 1..];
            Distinct(rest) && Covers(rest, n)
  {
    var rest := nest[..k] + nest[k + 1..];
    assert forall i :: 0 <= i < |rest| ==> rest[i] == nest[if i < k then i else i + 1];
    forall i: nat | i < n
      ensures i in rest
    {
      assert i in nest;
      var j :| 0 <= j < |nest| && nest[j] == i;
      assert rest[if j < k then j else j - 1] == i;
    }
  }

  lemma {:induction false} Unpick(loads: seq<int>, nest: seq<nat>, k: nat)
    requires k < |nest| && forall i :: 0 <= i < |nest| ==> nest[i] < |loads|
    ensures Picked(loads, nest) == Picked(loads, nest[..k] + nest[k + 1..]) + loads[nest[k]]
    decreases |nest|
  {
    var n := |nest| - 1;
    var rest := nest[..k] + nest[k + 1..];
    if k == n {
      assert rest == nest[..n];
    } else {
      Unpick(loads, nest[..n], k);
      assert rest[..n - 1] == nest[..n][..k] + nest[..n][k + 1..];
    }
  }

  lemma {:induction false} SamePicks(loads: seq<int>, nest: seq<nat>)
    requires loads != [] && forall i :: 0 <= i < |nest| ==> nest[i] < |loads| - 1
    ensures Picked(loads, nest) == Picked(loads[..|loads| - 1], nest)
    decreases |nest|
  {
    if nest != [] {
      SamePicks(loads, nest[..|nest| - 1]);
    }
  }

  // ---------------------------------------------------------------- lemmas of the search

  /** What a path through a callee with estimate `e` costs at `f`. */
  function Through(p: Program, f: Name, e: Estimate, tail: bool): int
    requires f in p.frames
  {
    if tail then Max(p.frames[f], e.bytes) else p.frames[f] + e.bytes
  }

  lemma CandidateIsAttained(p: Program, f: Name, g: Name, e: Estimate, tail: bool)
    requires f in p.frames && Exact(p, g, e)
    requires g in if tail then NodeOf(p, f).tailCalls else NodeOf(p, f).calls
    ensures var through :=
              if tail then Estimate(Max(p.frames[f], e.bytes), Tail(f, e.path), e.assumed, e.indirect)
              else Estimate(p.frames[f] + e.bytes, Call(f, e.path), e.assumed, e.indirect);
            Attained(p, f, through) && through.bytes == Through(p, f, e, tail)
  {
  }

  lemma CycleFound(p: Program, active: seq<Name>, f: Name)
    requires Walk(p, active + [f]) && f in active
    ensures Recursive(p, (active + [f])[0])
  {
    var w := active + [f];
    var i :| 0 <= i < |active| && active[i] == f;
    assert w[i] == w[|active|];
    assert Repeats(w);
  }

  lemma UnknownIsExact(p: Program, f: Name, e: Estimate)
    requires f !in p.frames && e == Estimate(p.externalReserve, External(f), {f}, {})
    ensures Exact(p, f, e) && !Recursive(p, f)
  {
    if Recursive(p, f) {
      RecursionIsBelow(p, f);
    }
  }

  /** Own frame, every callee and the indirect reserve considered: the best candidate is exact. */
  lemma AllConsidered(p: Program, f: Name, best: Estimate, memo: map<Name, Estimate>)
    requires f in p.frames && Attained(p, f, best)
    requires forall g :: g in memo ==> Exact(p, g, memo[g]) && !Recursive(p, g)
    requires best.bytes >= p.frames[f]
    requires forall g :: g in NodeOf(p, f).calls ==> g in memo && Through(p, f, memo[g], false) <= best.bytes
    requires forall g :: g in NodeOf(p, f).tailCalls ==> g in memo && Through(p, f, memo[g], true) <= best.bytes
    requires NodeOf(p, f).indirect ==> best.bytes >= p.frames[f] + p.indirectReserve
    ensures Exact(p, f, best) && !Recursive(p, f)
  {
    forall q: Path | IsPath(p, q) && q.f == f
      ensures Cost(p, q) <= best.bytes
    {
      match q {
        case Call(_, rest) => assert Cost(p, rest) <= memo[rest.f].bytes;
        case Tail(_, rest) => assert Cost(p, rest) <= memo[rest.f].bytes;
        case _ =>
      }
    }
    if Recursive(p, f) {
      RecursionIsBelow(p, f);
    }
  }

  lemma MoreActive(p: Program, active: seq<Name>, f: Name)
    requires f in p.frames && f !in active
    ensures p.frames.Keys - (set g | g in active + [f]) < p.frames.Keys - (set g | g in active)
  {
    assert f in p.frames.Keys - (set g | g in active);
    assert f in active + [f];
  }
}
