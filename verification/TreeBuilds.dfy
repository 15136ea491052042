/**
 The lazily built tree of the worker wrapper as a state machine: updates, calls, builds that finish when they
 like, and callers that resume later. Builds of the same contents array are shared while they run.
 */
module TreeBuilds {
  import opened Wrappers
  import opened Members
  import opened Hashing
  import opened MerkleSpec

  datatype Tree = Tree(hashes: seq<Cell>, indexOf: map<Address, nat>)

  /** The tree that a build makes. */
  function TreeOf(contents: seq<Member>, salt: nat): Tree {
    Tree(Cells(Leaves(contents, salt)), IndexOf(contents, BranchCount(|contents|)))
  }

  /** Contents arrays are told apart by identity, not by what is in them. */
  type ArrayId = nat

  /** A build: running, done with a tree or an error, or settled after its cache entry is gone. */
  datatype Phase = Running | Done(result: Option<Tree>) | Settled(result: Option<Tree>)

  datatype Task = Task(contents: ArrayId, salt: nat, phase: Phase)

  /** A call of getContents, with the contents and salt that it captured. */
  datatype Caller =
    | Waiting(contents: ArrayId, salt: nat, task: nat)
    | Returned(contents: ArrayId, salt: nat, tree: Option<Tree>)
    | Threw

  datatype Wrapper = Wrapper(
    contents: ArrayId,
    salt: nat,
    isDirty: bool,
    cached: Option<Tree>,
    taskCache: map<ArrayId, nat>,
    tasks: seq<Task>,
    callers: seq<Caller>)

  datatype Step =
    | Update(contents: ArrayId, salt: nat)
    | Call
    | Finish(task: nat, ok: bool)
    | CleanUp(task: nat)
    | Resume(caller: nat)

  /** What is in each array. Arrays are not changed once they are handed over. */
  type Arrays = ArrayId -> seq<Member>

  function New(contents: ArrayId, salt: nat): Wrapper {
    Wrapper(contents, salt, true, None, map[], [], [])
  }

  predicate Can(w: Wrapper, step: Step) {
    match step
    case Update(_, _) => true
    case Call => true
    case Finish(t, _) => t < |w.tasks| && w.tasks[t].phase.Running?
    case CleanUp(t) => t < |w.tasks| && w.tasks[t].phase.Done?
    case Resume(c) =>
      c < |w.callers| && w.callers[c].Waiting? && w.callers[c].task < |w.tasks|
        && w.tasks[w.callers[c].task].phase.Settled?
  }

  function WithPhase(w: Wrapper, t: nat, phase: Phase): Wrapper
    requires t < |w.tasks|
  {
    w.(tasks := w.tasks[t := w.tasks[t].(phase := phase)])
  }

  /** Joins the running build of the captured array, or starts one. */
  function Build(w: Wrapper): Wrapper {
    if w.contents in w.taskCache then
      w.(callers := w.callers + [Waiting(w.contents, w.salt, w.taskCache[w.contents])])
    else
      w.(tasks := w.tasks + [Task(w.contents, w.salt, Running)],
         taskCache := w.taskCache[w.contents := |w.tasks|],
         callers := w.callers + [Waiting(w.contents, w.salt, |w.tasks|)])
  }

  function Do(w: Wrapper, arrays: Arrays, step: Step): Wrapper
    requires Can(w, step)
  {
    match step
    case Update(contents, salt) => w.(isDirty := true, contents := contents, salt := salt)
    case Call =>
      if arrays(w.contents) == [] then w.(callers := w.callers + [Threw])
      else if w.isDirty then Build(w)
      else w.(callers := w.callers + [Returned(w.contents, w.salt, w.cached)])
    case Finish(t, ok) =>
      var task := w.tasks[t];
      WithPhase(w, t, Done(if ok then Some(TreeOf(arrays(task.contents), task.salt)) else None))
    case CleanUp(t) =>
      WithPhase(w, t, Settled(w.tasks[t].phase.result)).(taskCache := w.taskCache - {w.tasks[t].contents})
    case Resume(c) =>
      var caller := w.callers[c];
      match w.tasks[caller.task].phase.result
      case None => w.(callers := w.callers[c := Threw])
      case Some(tree) =>
        var returned := w.(callers := w.callers[c := Returned(caller.contents, caller.salt, Some(tree))]);
        // only if nothing was updated during the build
        if w.contents == caller.contents && w.salt == caller.salt then returned.(cached := Some(tree), isDirty := false)
        else returned
  }

  /** The steps can be taken one after the other. */
  ghost predicate IsRun(w: Wrapper, arrays: Arrays, steps: seq<Step>)
    decreases |steps|
  {
    steps == [] || (Can(w, steps[0]) && IsRun(Do(w, arrays, steps[0]), arrays, steps[1..]))
  }

  function After(w: Wrapper, arrays: Arrays, steps: seq<Step>): Wrapper
    requires IsRun(w, arrays, steps)
    decreases |steps|
  {
    if steps == [] then w else After(Do(w, arrays, steps[0]), arrays, steps[1..])
  }

  // ----- what every interleaving keeps

  /** Builds are shared per array: exactly the unsettled ones are in the task cache, each under its array. */
  ghost predicate Shared(w: Wrapper) {
    && (forall a :: a in w.taskCache ==>
          w.taskCache[a] < |w.tasks| && w.tasks[w.taskCache[a]].contents == a
            && !w.tasks[w.taskCache[a]].phase.Settled?)
    && (forall t :: 0 <= t < |w.tasks| && !w.tasks[t].phase.Settled? ==>
          w.tasks[t].contents in w.taskCache && w.taskCache[w.tasks[t].contents] == t)
  }

  /** A build that is done has the tree of its own contents and salt. */
  ghost predicate TaskHonest(task: Task, arrays: Arrays) {
    && arrays(task.contents) != []
    && (!task.phase.Running? && task.phase.result.Some? ==>
       task.phase.result.value == TreeOf(arrays(task.contents), task.salt))
  }

  ghost predicate Honest(w: Wrapper, arrays: Arrays) {
    forall t :: 0 <= t < |w.tasks| ==> TaskHonest(w.tasks[t], arrays)
  }

  /** A caller waits for a build of the array it captured. */
  ghost predicate Aimed(w: Wrapper) {
    forall c :: 0 <= c < |w.callers| && w.callers[c].Waiting? ==>
      w.callers[c].task < |w.tasks| && w.tasks[w.callers[c].task].contents == w.callers[c].contents
  }

  lemma StepKeepsSharing(w: Wrapper, arrays: Arrays, step: Step)
    requires Can(w, step) && Shared(w)
    ensures Shared(Do(w, arrays, step))
  {
    hide TreeOf;
    match step
    case CleanUp(t) => CleanUpKeepsSharing(w, arrays, t);
    case Call => CallKeepsSharing(w, arrays);
    case Finish(t, ok) => FinishKeepsSharing(w, arrays, t, ok);
    case Update(_, _) =>
    case Resume(_) =>
  }

  lemma CallKeepsSharing(w: Wrapper, arrays: Arrays)
    requires Shared(w)
    ensures Shared(Do(w, arrays, Call))
  {
  }

  lemma FinishKeepsSharing(w: Wrapper, arrays: Arrays, t: nat, ok: bool)
    requires Can(w, Finish(t, ok)) && Shared(w)
    ensures Shared(Do(w, arrays, Finish(t, ok)))
  {
    hide TreeOf;
    var next := Do(w, arrays, Finish(t, ok));
    assert forall u :: 0 <= u < |w.tasks| ==>
             && next.tasks[u].contents == w.tasks[u].contents
             && (next.tasks[u].phase.Settled? <==> w.tasks[u].phase.Settled?);
  }

  lemma CleanUpKeepsSharing(w: Wrapper, arrays: Arrays, t: nat)
    requires Can(w, CleanUp(t)) && Shared(w)
    ensures Shared(Do(w, arrays, CleanUp(t)))
  {
    var next := Do(w, arrays, CleanUp(t));
    forall u | 0 <= u < |next.tasks| && !next.tasks[u].phase.Settled?
      ensures next.tasks[u].contents in next.taskCache && next.taskCache[next.tasks[u].contents] == u
    {
      assert next.tasks[u] == w.tasks[u];
    }
  }

  lemma StepKeepsHonest(w: Wrapper, arrays: Arrays, step: Step)
    requires Can(w, step) && Honest(w, arrays)
    ensures Honest(Do(w, arrays, step), arrays)
  {
    hide TreeOf;
    var next := Do(w, arrays, step);
    forall t | 0 <= t < |next.tasks| ensures TaskHonest(next.tasks[t], arrays) {
      assert t < |w.tasks| ==> TaskHonest(w.tasks[t], arrays);
    }
  }

  lemma StepKeepsAimed(w: Wrapper, arrays: Arrays, step: Step)
    requires Can(w, step) && Shared(w) && Aimed(w)
    ensures Aimed(Do(w, arrays, step))
  {
    hide TreeOf;
  }

  // ----- salts

  lemma TreesOfDifferentSaltsDiffer(contents: seq<Member>, salt: nat, other: nat)
    requires contents != []
    ensures TreeOf(contents, salt) == TreeOf(contents, other) <==> salt == other
  {
    var a, b := Cells(Leaves(contents, salt)), Cells(Leaves(contents, other));
    var branch := BranchCount(|contents|);
    assert a[branch] == CellAt(Leaves(contents, salt), branch, branch) == Hash(HashLeaf(contents[0], salt));
    assert b[branch] == CellAt(Leaves(contents, other), branch, branch) == Hash(HashLeaf(contents[0], other));
  }

  /** What every interleaving keeps, whatever salts are used. */
  ghost predicate Orderly(w: Wrapper, arrays: Arrays) {
    Shared(w) && Honest(w, arrays) && Aimed(w)
  }

  lemma StepKeepsOrderly(w: Wrapper, arrays: Arrays, step: Step)
    requires Orderly(w, arrays) && Can(w, step)
    ensures Orderly(Do(w, arrays, step), arrays)
  {
    hide Can, Do, Shared, Honest, Aimed;
    StepKeepsSharing(w, arrays, step);
    StepKeepsHonest(w, arrays, step);
    StepKeepsAimed(w, arrays, step);
  }

  lemma {:induction false} RunKeepsOrderly(w: Wrapper, arrays: Arrays, steps: seq<Step>)
    requires Orderly(w, arrays) && IsRun(w, arrays, steps)
    ensures Orderly(After(w, arrays, steps), arrays)
    decreases |steps|
  {
    hide Orderly, Can, Do;
    if steps != [] {
      StepKeepsOrderly(w, arrays, steps[0]);
      RunKeepsOrderly(Do(w, arrays, steps[0]), arrays, steps[1..]);
    }
  }

  /** In every run no two builds of the same array are ever unsettled together. */
  lemma OneBuildPerArray(contents: ArrayId, salt: nat, arrays: Arrays, steps: seq<Step>, t: nat, u: nat)
    requires IsRun(New(contents, salt), arrays, steps)
    requires var w := After(New(contents, salt), arrays, steps);
             && t < |w.tasks| && u < |w.tasks| && w.tasks[t].contents == w.tasks[u].contents
             && !w.tasks[t].phase.Settled? && !w.tasks[u].phase.Settled?
    ensures t == u
  {
    RunKeepsOrderly(New(contents, salt), arrays, steps);
  }

  /** In every run, while a caller waits, its build or the caller itself can go on. */
  lemma NoCallerIsStuck(contents: ArrayId, salt: nat, arrays: Arrays, steps: seq<Step>, c: nat)
    requires IsRun(New(contents, salt), arrays, steps)
    requires var w := After(New(contents, salt), arrays, steps);
             c < |w.callers| && w.callers[c].Waiting?
    ensures var w := After(New(contents, salt), arrays, steps);
            var t := w.callers[c].task;
            Can(w, Finish(t, true)) || Can(w, CleanUp(t)) || Can(w, Resume(c))
  {
    RunKeepsOrderly(New(contents, salt), arrays, steps);
    var w := After(New(contents, salt), arrays, steps);
    var phase := w.tasks[w.callers[c].task].phase;
    assert phase.Running? || phase.Done? || phase.Settled?;
  }

  /** Without any rule for salts, in every run: a caller that resumes gets the tree it asked for exactly when the
      build that it joined was started with the salt that the caller captured. If nothing was updated meanwhile,
      the wrapper is then clean, with the right tree exactly in that case; if something was, the wrapper stays as
      it was. */
  lemma CallerIsServedExactlyWhen(contents: ArrayId, salt: nat, arrays: Arrays, steps: seq<Step>, c: nat)
    requires IsRun(New(contents, salt), arrays, steps) && Can(After(New(contents, salt), arrays, steps), Resume(c))
    requires var w := After(New(contents, salt), arrays, steps);
             w.tasks[w.callers[c].task].phase.result.Some?
    ensures var w := After(New(contents, salt), arrays, steps);
            var caller, next := w.callers[c], Do(w, arrays, Resume(c));
            && next.callers[c].Returned?
            && (next.callers[c].tree == Some(TreeOf(arrays(caller.contents), caller.salt)) <==>
                w.tasks[caller.task].salt == caller.salt)
            && (w.contents == caller.contents && w.salt == caller.salt ==>
                  && !next.isDirty
                  && (next.cached == Some(TreeOf(arrays(next.contents), next.salt)) <==>
                     w.tasks[caller.task].salt == caller.salt))
            && (w.contents != caller.contents || w.salt != caller.salt ==>
                  next.cached == w.cached && next.isDirty == w.isDirty)
  {
    RunKeepsOrderly(New(contents, salt), arrays, steps);
    hide TreeOf, Shared;
    var w := After(New(contents, salt), arrays, steps);
    var caller := w.callers[c];
    var task := w.tasks[caller.task];
    assert TaskHonest(task, arrays);
    TreesOfDifferentSaltsDiffer(arrays(task.contents), task.salt, caller.salt);
  }

  /** An array is only ever used with one salt. */
  ghost predicate KeepsSalts(step: Step, saltOf: ArrayId -> nat) {
    step.Update? ==> step.salt == saltOf(step.contents)
  }

  ghost predicate Salted(w: Wrapper, saltOf: ArrayId -> nat) {
    && w.salt == saltOf(w.contents)
    && (forall t :: 0 <= t < |w.tasks| ==> w.tasks[t].salt == saltOf(w.tasks[t].contents))
    && (forall c :: 0 <= c < |w.callers| && w.callers[c].Waiting? ==>
       w.callers[c].salt == saltOf(w.callers[c].contents))
  }

  ghost predicate Served(w: Wrapper, arrays: Arrays) {
    && (!w.isDirty ==> arrays(w.contents) != [] && w.cached == Some(TreeOf(arrays(w.contents), w.salt)))
    && (forall c :: 0 <= c < |w.callers| && w.callers[c].Returned? ==>
          w.callers[c].tree == Some(TreeOf(arrays(w.callers[c].contents), w.callers[c].salt)))
  }

  ghost predicate Correct(w: Wrapper, arrays: Arrays, saltOf: ArrayId -> nat) {
    Shared(w) && Honest(w, arrays) && Aimed(w) && Salted(w, saltOf) && Served(w, arrays)
  }

  lemma ResumeServes(w: Wrapper, arrays: Arrays, saltOf: ArrayId -> nat, c: nat)
    requires Correct(w, arrays, saltOf) && Can(w, Resume(c))
    ensures Served(Do(w, arrays, Resume(c)), arrays)
  {
    hide TreeOf, Shared;
    var caller := w.callers[c];
    assert TaskHonest(w.tasks[caller.task], arrays);
    assert w.tasks[caller.task].salt == caller.salt;
  }

  lemma StepKeepsSalts(w: Wrapper, arrays: Arrays, saltOf: ArrayId -> nat, step: Step)
    requires Can(w, step) && KeepsSalts(step, saltOf) && Salted(w, saltOf)
    ensures Salted(Do(w, arrays, step), saltOf)
  {
    hide TreeOf;
  }

  lemma StepKeepsCorrect(w: Wrapper, arrays: Arrays, saltOf: ArrayId -> nat, step: Step)
    requires Correct(w, arrays, saltOf) && Can(w, step) && KeepsSalts(step, saltOf)
    ensures Correct(Do(w, arrays, step), arrays, saltOf)
  {
    StepKeepsSharing(w, arrays, step);
    StepKeepsHonest(w, arrays, step);
    StepKeepsAimed(w, arrays, step);
    StepKeepsSalts(w, arrays, saltOf, step);
    hide TreeOf, Shared, Honest, Aimed, Salted;
    if step.Resume? {
      ResumeServes(w, arrays, saltOf, step.caller);
    }
  }

  lemma {:induction false} RunKeepsCorrect(w: Wrapper, arrays: Arrays, saltOf: ArrayId -> nat, steps: seq<Step>)
    requires Correct(w, arrays, saltOf) && IsRun(w, arrays, steps)
    requires forall i :: 0 <= i < |steps| ==> KeepsSalts(steps[i], saltOf)
    ensures Correct(After(w, arrays, steps), arrays, saltOf)
    decreases |steps|
  {
    hide Correct, Can, Do, KeepsSalts;
    if steps != [] {
      StepKeepsCorrect(w, arrays, saltOf, steps[0]);
      RunKeepsCorrect(Do(w, arrays, steps[0]), arrays, saltOf, steps[1..]);
    }
  }

  /** In every interleaving, if each array is used with one salt: a clean wrapper has the tree of its current
      contents and salt, and every caller has got the tree of the contents and salt that it captured. */
  lemma EveryCallerIsServed(contents: ArrayId, arrays: Arrays, saltOf: ArrayId -> nat, steps: seq<Step>)
    requires IsRun(New(contents, saltOf(contents)), arrays, steps)
    requires forall i :: 0 <= i < |steps| ==> KeepsSalts(steps[i], saltOf)
    ensures Served(After(New(contents, saltOf(contents)), arrays, steps), arrays)
  {
    hide Served, IsRun, After, KeepsSalts;
    NewIsCorrect(contents, arrays, saltOf);
    RunKeepsCorrect(New(contents, saltOf(contents)), arrays, saltOf, steps);
  }

  /** In every run a call starts a build exactly if the wrapper is dirty and every build of its array has settled;
      otherwise it waits for the one that has not, or is served at once. */
  lemma CallBuildsExactlyWhen(contents: ArrayId, salt: nat, arrays: Arrays, steps: seq<Step>)
    requires IsRun(New(contents, salt), arrays, steps)
    requires arrays(After(New(contents, salt), arrays, steps).contents) != []
    ensures var w := After(New(contents, salt), arrays, steps);
            var next := Do(w, arrays, Call);
            && (|next.tasks| > |w.tasks| <==>
                w.isDirty && forall t :: 0 <= t < |w.tasks| && w.tasks[t].contents == w.contents ==>
                               w.tasks[t].phase.Settled?)
            && (next.callers[|w.callers|].Waiting? <==> w.isDirty)
            && (next.callers[|w.callers|].Returned? <==> !w.isDirty)
  {
    hide TreeOf;
    RunKeepsOrderly(New(contents, salt), arrays, steps);
  }

  /** If each array is used with one salt, a call of a clean wrapper is served at once, with the tree of what there is,
      and nothing else changes. */
  lemma CleanCallIsServedAtOnce(contents: ArrayId, arrays: Arrays, saltOf: ArrayId -> nat, steps: seq<Step>)
    requires IsRun(New(contents, saltOf(contents)), arrays, steps)
    requires forall i :: 0 <= i < |steps| ==> KeepsSalts(steps[i], saltOf)
    requires !After(New(contents, saltOf(contents)), arrays, steps).isDirty
    ensures var w := After(New(contents, saltOf(contents)), arrays, steps);
            && arrays(w.contents) != []
            && Do(w, arrays, Call) ==
               w.(callers := w.callers + [Returned(w.contents, w.salt, Some(TreeOf(arrays(w.contents), w.salt)))])
  {
    hide IsRun, After, KeepsSalts, TreeOf;
    EveryCallerIsServed(contents, arrays, saltOf, steps);
  }

  lemma NewIsCorrect(contents: ArrayId, arrays: Arrays, saltOf: ArrayId -> nat)
    ensures Correct(New(contents, saltOf(contents)), arrays, saltOf)
  {
  }

  /** If an array is used again with another salt, a second caller joins the first build, and the wrapper ends up
      clean with the tree of the old salt. */
  lemma ReusedArrayGoesWrong(arrays: Arrays, a: ArrayId)
    requires arrays(a) != []
    ensures var steps := [Call, Update(a, 2), Call, Finish(0, true), CleanUp(0), Resume(1)];
            && IsRun(New(a, 1), arrays, steps)
            && !After(New(a, 1), arrays, steps).isDirty
            && After(New(a, 1), arrays, steps).salt == 2
            && After(New(a, 1), arrays, steps).cached == Some(TreeOf(arrays(a), 1)) != Some(TreeOf(arrays(a), 2))
  {
    hide TreeOf;
    TreesOfDifferentSaltsDiffer(arrays(a), 1, 2);
    var w0 := New(a, 1);
    var w1 := Do(w0, arrays, Call);
    var w2 := Do(w1, arrays, Update(a, 2));
    var w3 := Do(w2, arrays, Call);
    var w4 := Do(w3, arrays, Finish(0, true));
    var w5 := Do(w4, arrays, CleanUp(0));
    var w6 := Do(w5, arrays, Resume(1));
    RunPrepends(w5, arrays, Resume(1), []);
    RunPrepends(w4, arrays, CleanUp(0), [Resume(1)]);
    RunPrepends(w3, arrays, Finish(0, true), [CleanUp(0), Resume(1)]);
    RunPrepends(w2, arrays, Call, [Finish(0, true), CleanUp(0), Resume(1)]);
    RunPrepends(w1, arrays, Update(a, 2), [Call, Finish(0, true), CleanUp(0), Resume(1)]);
    RunPrepends(w0, arrays, Call, [Update(a, 2), Call, Finish(0, true), CleanUp(0), Resume(1)]);
  }

  lemma RunPrepends(w: Wrapper, arrays: Arrays, step: Step, steps: seq<Step>)
    requires Can(w, step) && IsRun(Do(w, arrays, step), arrays, steps)
    ensures IsRun(w, arrays, [step] + steps)
    ensures After(w, arrays, [step] + steps) == After(Do(w, arrays, step), arrays, steps)
  {
    assert ([step] + steps)[1..] == steps;
  }

  // ----- the base class

  /** The base class awaits its own build and then marks itself clean, whatever was updated meanwhile. A build is what
      one call captured. */
  datatype Base = Base(
    contents: seq<Member>,
    salt: nat,
    isDirty: bool,
    cached: Option<Tree>,
    builds: seq<(seq<Member>, nat)>)

  datatype BaseStep = BaseUpdate(contents: seq<Member>, salt: nat) | BaseCall | BaseFinish(build: nat)

  predicate CanBase(b: Base, step: BaseStep) {
    match step
    case BaseUpdate(_, _) => true
    case BaseCall => b.contents != []
    case BaseFinish(i) => i < |b.builds|
  }

  function DoBase(b: Base, step: BaseStep): Base
    requires CanBase(b, step)
  {
    match step
    case BaseUpdate(contents, salt) => b.(isDirty := true, contents := contents, salt := salt)
    case BaseCall => if b.isDirty then b.(builds := b.builds + [(b.contents, b.salt)]) else b
    case BaseFinish(i) =>
      b.(cached := Some(TreeOf(b.builds[i].0, b.builds[i].1)), isDirty := false,
          builds := b.builds[..i] + b.builds[i + 1..])
  }

  /** Two lists have the same tree exactly if they have the same leaves: the same addresses and earnings in the same
      order, and the same salt. */
  lemma SameTreeExactlyIfSameLeaves(a: seq<Member>, salt: nat, b: seq<Member>, other: nat)
    requires a != []
    ensures TreeOf(a, salt) == TreeOf(b, other) <==> Leaves(a, salt) == Leaves(b, other)
  {
    if Leaves(a, salt) == Leaves(b, other) {
      assert |a| == |Leaves(a, salt)| == |Leaves(b, other)| == |b|;
      forall i | 0 <= i < |a| ensures a[i].address == b[i].address {
        assert HashLeaf(a[i], salt) == Leaves(a, salt)[i] == Leaves(b, other)[i] == HashLeaf(b[i], other);
      }
      SameAddressesSameIndex(a, b, BranchCount(|a|));
    }
    if TreeOf(a, salt) == TreeOf(b, other) {
      SameCellsSameLeaves(Leaves(a, salt), Leaves(b, other));
    }
  }

  lemma {:induction false} SameAddressesSameIndex(a: seq<Member>, b: seq<Member>, first: nat)
    requires |a| == |b| && forall i :: 0 <= i < |a| ==> a[i].address == b[i].address
    ensures IndexOf(a, first) == IndexOf(b, first)
  {
    if a != [] {
      SameAddressesSameIndex(a[..|a| - 1], b[..|b| - 1], first);
    }
  }

  lemma CellOfLeaf(leaves: seq<Digest>, i: nat)
    requires i < |leaves|
    ensures var branch := BranchCount(|leaves|);
            branch + i < |Cells(leaves)| && Cells(leaves)[branch + i] == Hash(leaves[i])
  {
    var half := BranchIsEven(|leaves|);
    LeafNode(leaves, BranchCount(|leaves|), i);
    hide BranchCount, Node;
  }

  /** A zero stands next to an odd last leaf. */
  lemma CellAfterLeaves(leaves: seq<Digest>)
    requires |leaves| % 2 == 1
    ensures var i := BranchCount(|leaves|) + |leaves|;
            i < |Cells(leaves)| && Cells(leaves)[i] == Hash(Zero)
  {
    var half := BranchIsEven(|leaves|);
    OddIndex(half, |leaves|);
    NoNodeAfterLeaves(leaves, BranchCount(|leaves|));
    LeafNode(leaves, BranchCount(|leaves|), |leaves| - 1);
    hide BranchCount, Node;
  }

  lemma OddIndex(half: nat, n: nat)
    requires n % 2 == 1 && half > 0
    ensures (2 * half + n) % 2 == 1 && LeafRoom(n) == n + 1
  {
  }

  lemma NoNodeAfterLeaves(leaves: seq<Digest>, branch: nat)
    requires branch > 0
    ensures Node(leaves, branch, branch + |leaves|).None?
  {
  }

  lemma BranchIsEven(n: nat) returns (half: nat)
    requires n > 0
    ensures half > 0 && BranchCount(n) == 2 * half
  {
    hide CeilLog2;
    RoomForTwo(n);
    half := Pow2(CeilLog2(LeafRoom(n)) - 1);
  }

  lemma RoomForTwo(n: nat)
    requires n > 0
    ensures LeafRoom(n) >= 2 && CeilLog2(LeafRoom(n)) > 0
  {
    hide CeilLog2;
    assert n >= 2 || n % 2 == 1;
  }

  lemma SameCellsSameSize(a: seq<Digest>, b: seq<Digest>)
    requires a != [] && Cells(a) == Cells(b)
    ensures BranchCount(|a|) == BranchCount(|b|) && |a| + |a| % 2 == |b| + |b| % 2
  {
    hide BranchCount, CellAt;
    assert Cells(a)[0] == Cells(b)[0];
  }

  /** A list cannot go on where another one ends: there stands a zero, not a leaf. */
  lemma LongerCellsDiffer(a: seq<Digest>, b: seq<Digest>)
    requires |a| < |b| && |a| % 2 == 1 && BranchCount(|a|) == BranchCount(|b|) && b[|a|].LeafHash?
    ensures Cells(a) != Cells(b)
  {
    hide Cells, BranchCount;
    CellOfLeaf(b, |a|);
    CellAfterLeaves(a);
  }

  lemma SameCellsSameLeaves(a: seq<Digest>, b: seq<Digest>)
    requires a != [] && AllLeafHashes(a) && AllLeafHashes(b) && Cells(a) == Cells(b)
    ensures a == b
  {
    hide Cells, BranchCount;
    SameCellsSameSize(a, b);
    if |a| < |b| {
      LongerCellsDiffer(a, b);
    } else if |b| < |a| {
      LongerCellsDiffer(b, a);
    } else {
      forall i | 0 <= i < |a| ensures a[i] == b[i] {
        CellOfLeaf(a, i);
        CellOfLeaf(b, i);
      }
    }
  }

  function NewBase(contents: seq<Member>, salt: nat): Base {
    Base(contents, salt, true, None, [])
  }

  ghost predicate IsBaseRun(b: Base, steps: seq<BaseStep>)
    decreases |steps|
  {
    steps == [] || (CanBase(b, steps[0]) && IsBaseRun(DoBase(b, steps[0]), steps[1..]))
  }

  function BaseAfter(b: Base, steps: seq<BaseStep>): Base
    requires IsBaseRun(b, steps)
    decreases |steps|
  {
    if steps == [] then b else BaseAfter(DoBase(b, steps[0]), steps[1..])
  }

  ghost predicate BuildsSomething(b: Base) {
    forall i :: 0 <= i < |b.builds| ==> b.builds[i].0 != []
  }

  lemma {:induction false} BaseRunBuildsSomething(b: Base, steps: seq<BaseStep>)
    requires BuildsSomething(b) && IsBaseRun(b, steps)
    ensures BuildsSomething(BaseAfter(b, steps))
    decreases |steps|
  {
    hide TreeOf;
    if steps != [] {
      BaseRunBuildsSomething(DoBase(b, steps[0]), steps[1..]);
    }
  }

  /** In every run: when a build ends, the base class is clean, with the right tree exactly if what was built has the
      leaves of what there is now. */
  lemma BaseIsRightExactlyWhen(contents: seq<Member>, salt: nat, steps: seq<BaseStep>, i: nat)
    requires IsBaseRun(NewBase(contents, salt), steps) && i < |BaseAfter(NewBase(contents, salt), steps).builds|
    ensures var b := BaseAfter(NewBase(contents, salt), steps);
            var next := DoBase(b, BaseFinish(i));
            && !next.isDirty
            && (next.cached == Some(TreeOf(next.contents, next.salt)) <==>
                Leaves(b.builds[i].0, b.builds[i].1) == Leaves(b.contents, b.salt))
  {
    hide TreeOf;
    BaseRunBuildsSomething(NewBase(contents, salt), steps);
    var b := BaseAfter(NewBase(contents, salt), steps);
    SameTreeExactlyIfSameLeaves(b.builds[i].0, b.builds[i].1, b.contents, b.salt);
  }

  /** No update comes while a build is running. */
  ghost predicate IsQuiet(b: Base, steps: seq<BaseStep>)
    requires IsBaseRun(b, steps)
    decreases |steps|
  {
    steps == [] ||
    ((steps[0].BaseUpdate? ==> b.builds == []) && IsQuiet(DoBase(b, steps[0]), steps[1..]))
  }

  /** Whatever runs or is cached is of what there is. */
  ghost predicate UpToDate(b: Base) {
    && (!b.isDirty ==> b.cached == Some(TreeOf(b.contents, b.salt)))
    && forall i :: 0 <= i < |b.builds| ==> b.builds[i] == (b.contents, b.salt)
  }

  lemma QuietStepStaysUpToDate(b: Base, step: BaseStep)
    requires UpToDate(b) && CanBase(b, step) && (step.BaseUpdate? ==> b.builds == [])
    ensures UpToDate(DoBase(b, step))
  {
    hide TreeOf;
  }

  lemma {:induction false} QuietRunStaysUpToDate(b: Base, steps: seq<BaseStep>)
    requires IsBaseRun(b, steps) && IsQuiet(b, steps) && UpToDate(b)
    ensures UpToDate(BaseAfter(b, steps))
    decreases |steps|
  {
    hide UpToDate, CanBase, DoBase;
    if steps != [] {
      QuietStepStaysUpToDate(b, steps[0]);
      QuietRunStaysUpToDate(DoBase(b, steps[0]), steps[1..]);
    }
  }

  /** In every run in which no update comes during a build, a clean base class has the tree of what there is. */
  lemma QuietBaseIsRight(contents: seq<Member>, salt: nat, steps: seq<BaseStep>)
    requires IsBaseRun(NewBase(contents, salt), steps) && IsQuiet(NewBase(contents, salt), steps)
    ensures var b := BaseAfter(NewBase(contents, salt), steps);
            !b.isDirty ==> b.cached == Some(TreeOf(b.contents, b.salt))
  {
    hide IsBaseRun, IsQuiet, BaseAfter, TreeOf;
    QuietRunStaysUpToDate(NewBase(contents, salt), steps);
  }

  /** An update during a build, to anything with other leaves, leaves the base class clean with a stale tree, and
      no later call builds another one. */
  lemma UpdateDuringBuildGoesStale(contents: seq<Member>, salt: nat, newContents: seq<Member>, newSalt: nat)
    requires contents != [] && Leaves(contents, salt) != Leaves(newContents, newSalt)
    ensures var steps := [BaseCall, BaseUpdate(newContents, newSalt), BaseFinish(0)];
            && IsBaseRun(NewBase(contents, salt), steps)
            && var end := BaseAfter(NewBase(contents, salt), steps);
            && !end.isDirty && end.contents == newContents && end.salt == newSalt
            && end.cached == Some(TreeOf(contents, salt)) != Some(TreeOf(newContents, newSalt))
            && end.builds == [] && (newContents != [] ==> DoBase(end, BaseCall) == end)
  {
    hide TreeOf;
    var b0 := NewBase(contents, salt);
    var b1 := DoBase(b0, BaseCall);
    var b2 := DoBase(b1, BaseUpdate(newContents, newSalt));
    var b3 := DoBase(b2, BaseFinish(0));
    BaseRunPrepends(b2, BaseFinish(0), []);
    BaseRunPrepends(b1, BaseUpdate(newContents, newSalt), [BaseFinish(0)]);
    BaseRunPrepends(b0, BaseCall, [BaseUpdate(newContents, newSalt), BaseFinish(0)]);
    SameTreeExactlyIfSameLeaves(contents, salt, newContents, newSalt);
  }

  lemma BaseRunPrepends(b: Base, step: BaseStep, steps: seq<BaseStep>)
    requires CanBase(b, step) && IsBaseRun(DoBase(b, step), steps)
    ensures IsBaseRun(b, [step] + steps)
    ensures BaseAfter(b, [step] + steps) == BaseAfter(DoBase(b, step), steps)
  {
    assert ([step] + steps)[1..] == steps;
  }
}
