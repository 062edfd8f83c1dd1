/**
 * The database as a step machine: transactions commit through the log one operation at a time,
 * statements outside of them change the store directly, and a crash can strike between any two
 * steps. The writes of a frame, of one store operation and of the cleared log are single steps.
 */
module CrashMachine {
  import opened Bytes
  import opened PropertyGraph
  import opened RedoLog
  import opened Recovery

  /** Applying a frame serves a commit, or the opening of the database. */
  datatype Phase = Idle | Applying(next: nat, opening: bool) | Failed | Down

  /** Graph and log survive a crash. */
  datatype System = System(graph: Graph, log: Option<seq<Operation>>, phase: Phase)

  /** A statement is given by the store operations it makes, each written as the log would. */
  datatype Step = WriteFrame(ops: seq<Operation>) | ApplyOne | Clear | Statement(op: Operation) | Crash | Restart

  ghost predicate Init(s: System) { GraphOk(s.graph) && s.log == None && s.phase == Idle }

  /** Commit writes a frame it has built, over the one a failed commit may have left. */
  ghost predicate WritesFrame(s: System, s': System, ops: seq<Operation>) {
    && (s.phase == Failed || (s.phase == Idle && s.log == None)) && WellFormed(s.graph, ops)
    && s' == s.(log := Some(ops), phase := Applying(0, false))
  }

  /** Applying moves on by one operation, or fails; a database whose replay fails is not opened. */
  predicate AppliesOne(s: System, s': System) {
    && s.phase.Applying? && s.log.Some? && s.phase.next < |s.log.value|
    && var r := ApplyOperation(s.graph, s.log.value[s.phase.next]);
       s' == s.(graph := r.graph, phase := if r.Ok() then s.phase.(next := s.phase.next + 1)
                                           else if s.phase.opening then Down else Failed)
  }

  predicate Clears(s: System, s': System) {
    && s.phase.Applying? && s.log.Some? && s.phase.next == |s.log.value|
    && s' == s.(log := None, phase := Idle)
  }

  /** A statement outside a transaction changes the store, whatever the log holds. */
  predicate Executes(s: System, s': System, op: Operation) {
    && (s.phase == Idle || s.phase == Failed) && ApplyOperation(s.graph, op).Ok()
    && s' == s.(graph := ApplyOperation(s.graph, op).graph)
  }

  predicate Crashes(s: System, s': System) { s' == s.(phase := Down) }

  /** Opening the database replays a frame that is still there. */
  predicate Restarts(s: System, s': System) {
    s.phase == Down && s' == s.(phase := if s.log.Some? then Applying(0, true) else Idle)
  }

  ghost predicate Next(s: System, s': System, step: Step) {
    match step
    case WriteFrame(ops) => WritesFrame(s, s', ops)
    case ApplyOne => AppliesOne(s, s')
    case Clear => Clears(s, s')
    case Statement(op) => Executes(s, s', op)
    case Crash => Crashes(s, s')
    case Restart => Restarts(s, s')
  }

  /**
   * What a session must not do: beside the frame of a failed commit, execute a statement after
   * which replaying the frame would change the graph.
   */
  ghost predicate Careful(s: System, step: Step) {
    step.Statement? && s.log.Some? ==> Harmless(ApplyOperation(s.graph, step.op).graph, s.log.value)
  }

  /** The steps that are not the session's: applying, clearing, crashing, opening. */
  predicate Quiet(step: Step) { !step.WriteFrame? && !step.Statement? }

  // ----- What is owed -----

  /** What a step adds to what is owed: a frame written its outcome, a statement its effect. */
  function Due(g: Graph, step: Step): Graph {
    match step
    case WriteFrame(ops) => ApplyAll(g, ops).graph
    case Statement(op) => ApplyOperation(g, op).graph
    case _ => g
  }

  /** The graph that is owed after the steps: the frames written and the statements, one after the other. */
  function Owed(g: Graph, steps: seq<Step>): Graph {
    if steps == [] then g else Due(Owed(g, steps[..|steps| - 1]), steps[|steps| - 1])
  }

  lemma OwedStep(g: Graph, steps: seq<Step>, step: Step)
    ensures Owed(g, steps + [step]) == Due(Owed(g, steps), step)
  {
    hide Due;
    assert (steps + [step])[..|steps|] == steps;
  }

  /** Neither applying nor clearing, neither a crash nor a restart changes what is owed. */
  lemma {:induction false} OwedStays(g: Graph, steps: seq<Step>, n: nat)
    requires n <= |steps| && forall i :: n <= i < |steps| ==> Quiet(steps[i])
    ensures Owed(g, steps) == Owed(g, steps[..n])
    decreases |steps|
  {
    if n == |steps| {
      assert steps[..n] == steps;
    } else {
      OwedStays(g, steps[..|steps| - 1], n);
      assert steps[..|steps| - 1][..n] == steps[..n];
    }
  }

  /** The frame was written at graph `base`, which was owed then, by step `j`. */
  ghost predicate WrittenAt(g: Graph, steps: seq<Step>, base: Graph, ops: seq<Operation>, j: nat) {
    j < |steps| && steps[j] == WriteFrame(ops) && Owed(g, steps[..j]) == base
  }

  /** It is what the session did last. */
  ghost predicate Written(g: Graph, steps: seq<Step>, base: Graph, ops: seq<Operation>) {
    exists j: nat :: WrittenAt(g, steps, base, ops, j) && forall i :: j < i < |steps| ==> Quiet(steps[i])
  }

  /** It is the last frame written, and a statement has been executed since. */
  ghost predicate Overtaken(g: Graph, steps: seq<Step>, base: Graph, ops: seq<Operation>) {
    && (exists j: nat :: WrittenAt(g, steps, base, ops, j))
    && StatementLast(steps)
  }

  /** Some statement has been executed and no frame written since. */
  predicate StatementLast(steps: seq<Step>) {
    exists a :: 0 <= a < |steps| && steps[a].Statement? && forall i :: a < i < |steps| ==> !steps[i].WriteFrame?
  }

  lemma WrittenAtStays(g: Graph, steps: seq<Step>, base: Graph, ops: seq<Operation>, j: nat, step: Step)
    requires WrittenAt(g, steps, base, ops, j)
    ensures WrittenAt(g, steps + [step], base, ops, j)
  {
    assert (steps + [step])[j] == steps[j] && (steps + [step])[..j] == steps[..j];
  }

  lemma WrittenStays(g: Graph, steps: seq<Step>, base: Graph, ops: seq<Operation>, step: Step)
    requires Quiet(step)
    ensures Written(g, steps, base, ops) ==> Written(g, steps + [step], base, ops)
    ensures Overtaken(g, steps, base, ops) ==> Overtaken(g, steps + [step], base, ops)
  {
    hide WrittenAt;
    forall j: nat | WrittenAt(g, steps, base, ops, j) ensures WrittenAt(g, steps + [step], base, ops, j) {
      WrittenAtStays(g, steps, base, ops, j, step);
    }
    if StatementLast(steps) {
      StatementLastStays(steps, step);
    }
  }

  lemma StatementLastStays(steps: seq<Step>, step: Step)
    requires StatementLast(steps) && !step.WriteFrame?
    ensures StatementLast(steps + [step])
  {
    var a :| 0 <= a < |steps| && steps[a].Statement? && forall i :: a < i < |steps| ==> !steps[i].WriteFrame?;
    assert (steps + [step])[a].Statement?;
  }

  lemma JustWritten(g: Graph, steps: seq<Step>, ops: seq<Operation>)
    ensures Written(g, steps + [WriteFrame(ops)], Owed(g, steps), ops)
  {
    assert (steps + [WriteFrame(ops)])[..|steps|] == steps;
    assert WrittenAt(g, steps + [WriteFrame(ops)], Owed(g, steps), ops, |steps|);
  }

  lemma JustOvertaken(g: Graph, steps: seq<Step>, base: Graph, ops: seq<Operation>, op: Operation)
    requires Written(g, steps, base, ops) || Overtaken(g, steps, base, ops)
    ensures Overtaken(g, steps + [Statement(op)], base, ops)
  {
    hide WrittenAt;
    var j: nat :| WrittenAt(g, steps, base, ops, j);
    WrittenAtStays(g, steps, base, ops, j, Statement(op));
    assert (steps + [Statement(op)])[|steps|].Statement?;
  }

  /** As long as nothing overtakes it, a frame's outcome is what is owed. */
  lemma WrittenOwed(g: Graph, steps: seq<Step>, base: Graph, ops: seq<Operation>)
    requires Written(g, steps, base, ops)
    ensures Owed(g, steps) == ApplyAll(base, ops).graph && !StatementLast(steps)
  {
    hide ApplyAll;
    var j: nat :| WrittenAt(g, steps, base, ops, j) && forall i :: j < i < |steps| ==> Quiet(steps[i]);
    OwedStays(g, steps, j + 1);
    assert steps[..j + 1] == steps[..j] + [WriteFrame(ops)];
    OwedStep(g, steps[..j], WriteFrame(ops));
  }

  // ----- The invariant -----

  /** The log's frame was built at graph `base` and ends at `k`; a commit or a replay of it is under way. */
  ghost predicate Underway(s: System, base: Graph, k: nat)
    requires s.log.Some?
  {
    var ops := s.log.value;
    && WellFormed(base, ops) && EndsAt(base, ops, k) && k <= |ops|
    && match s.phase
       case Applying(n, opening) =>
         if opening then Replaying(s.graph, base, ops, k, n) else n <= k && s.graph == After(base, ops, n)
       case Down => Replaying(s.graph, base, ops, k, 0)
       case Failed => k < |ops| && s.graph == After(base, ops, k)
       case Idle => false
  }

  /** The frame of a failed commit has been overtaken by statements and is harmless to the graph. */
  ghost predicate Settled(s: System)
    requires s.log.Some?
  {
    var ops := s.log.value;
    && GraphOk(s.graph) && Harmless(s.graph, ops)
    && match s.phase
       case Applying(n, opening) => opening && n <= |ops| && AllSucceed(s.graph, ops, n)
       case Idle => false
       case _ => true
  }

  /** The frame in the log, and where it was written: either it is under way, or it has failed and is settled. */
  ghost predicate Pending(g: Graph, steps: seq<Step>, s: System, base: Graph, k: nat)
    requires s.log.Some?
  {
    || (Written(g, steps, base, s.log.value) && Underway(s, base, k))
    || (Overtaken(g, steps, base, s.log.value) && RefusedAt(base, s.log.value, k)
        && Settled(s) && s.graph == Owed(g, steps))
  }

  /** After the steps the system is where they lead: at what is owed, or on the way there. */
  ghost predicate Inv(g: Graph, steps: seq<Step>, s: System) {
    match s.log
    case None => (s.phase == Idle || s.phase == Down) && s.graph == Owed(g, steps) && GraphOk(s.graph)
    case Some(_) => exists base, k: nat :: Pending(g, steps, s, base, k)
  }

  /** Where a commit may write its frame, the graph is the one owed. */
  lemma OwedBetweenCommits(g: Graph, steps: seq<Step>, s: System)
    requires Inv(g, steps, s) && (s.phase == Failed || s.log == None)
    ensures s.graph == Owed(g, steps) && GraphOk(s.graph)
  {
    hide ApplyFirst, WellFormed, EndsAt, Owed, Written, Overtaken, Harmless, RefusedAt, GraphOk;
    if s.log.Some? {
      var base, k: nat :| Pending(g, steps, s, base, k);
      if Written(g, steps, base, s.log.value) && Underway(s, base, k) {
        WrittenOwed(g, steps, base, s.log.value);
        CutFrame(base, s.log.value, k);
        Outcome(base, s.log.value, k);
      }
    }
  }

  lemma WriteFrameKeeps(g: Graph, steps: seq<Step>, s: System, s': System, ops: seq<Operation>)
    requires Inv(g, steps, s) && WritesFrame(s, s', ops)
    ensures Inv(g, steps + [WriteFrame(ops)], s')
  {
    hide WellFormed, ApplyFirst, Written, Overtaken, EndsAt, Owed;
    OwedBetweenCommits(g, steps, s);
    JustWritten(g, steps, ops);
    var k := FrameEnds(s.graph, ops);
    NothingApplied(s.graph, ops);
    assert Pending(g, steps + [WriteFrame(ops)], s', s.graph, k);
  }

  lemma NothingApplied(g: Graph, ops: seq<Operation>)
    ensures After(g, ops, 0) == g
  {
  }

  /** One operation of the commit itself. */
  lemma CommitStep(base: Graph, ops: seq<Operation>, k: nat, n: nat)
    requires EndsAt(base, ops, k) && n <= k <= |ops| && n < |ops|
    ensures var r := ApplyOperation(After(base, ops, n), ops[n]);
            if n < k then r == Applied(After(base, ops, n + 1), None)
            else r == Applied(After(base, ops, k), Some(Refused))
  {
    hide ApplyOperation;
    CleanPrefix(base, ops, n, k);
    if n < k {
      CleanPrefix(base, ops, n + 1, k);
    }
  }

  lemma UnderwayStep(s: System, s': System, base: Graph, k: nat)
    requires s.log.Some? && Underway(s, base, k) && AppliesOne(s, s')
    ensures Underway(s', base, k)
  {
    hide ApplyOperation, ApplyFirst, WellFormed, EndsAt, Replaying;
    if s.phase.opening {
      ReplayingStep(s.graph, base, s.log.value, k, s.phase.next);
    } else {
      CommitStep(base, s.log.value, k, s.phase.next);
    }
  }

  lemma SettledStep(s: System, s': System)
    requires s.log.Some? && Settled(s) && AppliesOne(s, s')
    ensures Settled(s') && s'.graph == s.graph
  {
    hide ApplyOperation, GraphOk;
  }

  lemma ApplyOneKeeps(g: Graph, steps: seq<Step>, s: System, s': System)
    requires Inv(g, steps, s) && AppliesOne(s, s')
    ensures Inv(g, steps + [ApplyOne], s')
  {
    hide AppliesOne, Underway, Settled, Written, Overtaken, RefusedAt, Owed;
    SameLog(s, s');
    var base, k: nat :| Pending(g, steps, s, base, k);
    WrittenStays(g, steps, base, s.log.value, ApplyOne);
    OwedStep(g, steps, ApplyOne);
    if Written(g, steps, base, s.log.value) && Underway(s, base, k) {
      UnderwayStep(s, s', base, k);
    } else {
      SettledStep(s, s');
    }
    assert Pending(g, steps + [ApplyOne], s', base, k);
  }

  lemma SameLog(s: System, s': System)
    requires AppliesOne(s, s')
    ensures s.log.Some? && s'.log == s.log
  {
    hide ApplyOperation;
  }

  /** A frame is cleared only in the graph it was to lead to. */
  lemma UnderwayEnds(s: System, base: Graph, k: nat)
    requires s.log.Some? && Underway(s, base, k) && s.phase.Applying? && s.phase.next == |s.log.value|
    ensures s.graph == ApplyAll(base, s.log.value).graph && GraphOk(s.graph)
  {
    hide ApplyFirst, WellFormed, EndsAt;
    CutFrame(base, s.log.value, k);
    Outcome(base, s.log.value, k);
    if s.phase.opening {
      ReplayingEnds(s.graph, base, s.log.value, k);
    }
  }

  lemma ClearKeeps(g: Graph, steps: seq<Step>, s: System, s': System)
    requires Inv(g, steps, s) && Clears(s, s')
    ensures Inv(g, steps + [Clear], s')
  {
    hide Underway, Harmless, AllSucceed, Written, Overtaken, RefusedAt, ApplyFirst, Owed, GraphOk;
    var base, k: nat :| Pending(g, steps, s, base, k);
    OwedStep(g, steps, Clear);
    if Written(g, steps, base, s.log.value) && Underway(s, base, k) {
      WrittenOwed(g, steps, base, s.log.value);
      UnderwayEnds(s, base, k);
    }
  }

  lemma StatementKeeps(g: Graph, steps: seq<Step>, s: System, s': System, op: Operation)
    requires Inv(g, steps, s) && Executes(s, s', op) && Careful(s, Statement(op))
    ensures Inv(g, steps + [Statement(op)], s')
  {
    hide ApplyOperation, Written, Overtaken, Owed, GraphOk, Evolves, WellFormed, EndsAt, ApplyFirst, Harmless;
    hide Replaying;
    if s.phase == Idle {
      NotIdle(g, steps, s);
    }
    OwedBetweenCommits(g, steps, s);
    OwedStep(g, steps, Statement(op));
    ApplyEvolves(s.graph, op);
    EvolvedOk(s.graph, s'.graph);
    if s.log.Some? {
      var base, k: nat :| Pending(g, steps, s, base, k);
      JustOvertaken(g, steps, base, s.log.value, op);
      FailedIsRefused(s, base, k);
      assert Pending(g, steps + [Statement(op)], s', base, k);
    }
  }

  lemma NotIdle(g: Graph, steps: seq<Step>, s: System)
    requires Inv(g, steps, s) && s.phase == Idle
    ensures s.log == None
  {
    hide Written, Overtaken, Owed, WellFormed, EndsAt, Harmless, RefusedAt;
  }

  lemma FailedIsRefused(s: System, base: Graph, k: nat)
    requires s.log.Some? && s.phase == Failed && (Underway(s, base, k) || RefusedAt(base, s.log.value, k))
    ensures RefusedAt(base, s.log.value, k) && k < |s.log.value|
  {
    hide WellFormed, ApplyOperation, ApplyFirst;
  }

  lemma UnderwayCrash(s: System, s': System, base: Graph, k: nat)
    requires s.log.Some? && Underway(s, base, k) && (Crashes(s, s') || Restarts(s, s'))
    ensures Underway(s', base, k)
  {
    hide ApplyFirst, WellFormed, EndsAt, Replaying, GraphOk;
    if Crashes(s, s') {
      CutFrame(base, s.log.value, k);
      match s.phase
      case Applying(n, opening) =>
        if opening {
          ReplayingCrash(s.graph, base, s.log.value, k, n);
        } else {
          CommitCrash(base, s.log.value, k, n);
        }
      case Failed => CommitCrash(base, s.log.value, k, k);
      case _ =>
    }
  }

  /** A commit interrupted after `n` operations leaves the beginning of a replay. */
  lemma CommitCrash(base: Graph, ops: seq<Operation>, k: nat, n: nat)
    requires WellFormed(base, ops) && n <= k <= |ops|
    ensures Replaying(After(base, ops, n), base, ops, k, 0)
  {
    hide ApplyOperation, Agree, Untouched, Doomed;
    AfterEvolves(base, ops, 0, n);
    ApplyPrefix(base, ops, k, n);
    AgreeSelf(After(base, ops, n), ops[..k]);
    ReplayingWith(After(base, ops, n), base, ops, k, 0, n);
  }

  lemma CrashKeeps(g: Graph, steps: seq<Step>, s: System, s': System, step: Step)
    requires Inv(g, steps, s)
    requires (step == Crash && Crashes(s, s')) || (step == Restart && Restarts(s, s'))
    ensures Inv(g, steps + [step], s')
  {
    hide Underway, Harmless, AllSucceed, Written, Overtaken, RefusedAt, Owed, GraphOk, ApplyOperation;
    OwedStep(g, steps, step);
    if s.log.Some? {
      var base, k: nat :| Pending(g, steps, s, base, k);
      WrittenStays(g, steps, base, s.log.value, step);
      if Written(g, steps, base, s.log.value) && Underway(s, base, k) {
        UnderwayCrash(s, s', base, k);
      } else {
        NothingPasses(s.graph, s.log.value);
      }
      assert Pending(g, steps + [step], s', base, k);
    }
  }

  lemma NothingPasses(g: Graph, ops: seq<Operation>)
    ensures AllSucceed(g, ops, 0)
  {
  }

  /** Every careful step keeps the invariant. */
  lemma NextKeeps(g: Graph, steps: seq<Step>, s: System, s': System, step: Step)
    requires Inv(g, steps, s) && Next(s, s', step) && Careful(s, step)
    ensures Inv(g, steps + [step], s')
  {
    hide Inv, AppliesOne, Clears, Crashes, Restarts, WritesFrame, Executes, Careful;
    match step
    case WriteFrame(ops) => WriteFrameKeeps(g, steps, s, s', ops);
    case ApplyOne => ApplyOneKeeps(g, steps, s, s');
    case Clear => ClearKeeps(g, steps, s, s');
    case Statement(op) => StatementKeeps(g, steps, s, s', op);
    case _ => CrashKeeps(g, steps, s, s', step);
  }

  // ----- Runs -----

  ghost predicate Run(states: seq<System>, steps: seq<Step>) {
    && |states| == |steps| + 1 && Init(states[0])
    && forall i, j :: 0 <= i < |steps| && j == i + 1 ==> Next(states[i], states[j], steps[i])
  }

  ghost predicate CarefulRun(states: seq<System>, steps: seq<Step>) {
    Run(states, steps) && forall i :: 0 <= i < |steps| ==> Careful(states[i], steps[i])
  }

  lemma {:induction false} RunKeeps(states: seq<System>, steps: seq<Step>, i: nat)
    requires CarefulRun(states, steps) && i <= |steps|
    ensures |states| == |steps| + 1 && Inv(states[0].graph, steps[..i], states[i])
  {
    hide Inv, Next, Careful;
    if i == 0 {
      InitInv(states[0]);
    } else {
      RunKeeps(states, steps, i - 1);
      NextKeeps(states[0].graph, steps[..i - 1], states[i - 1], states[i], steps[i - 1]);
      assert steps[..i] == steps[..i - 1] + [steps[i - 1]];
    }
  }

  lemma InitInv(s: System)
    requires Init(s)
    ensures Inv(s.graph, [], s)
  {
  }

  /**
   * Over every careful run of commits, statements, crashes and restarts: whenever the log is empty
   * or a commit has just failed, the stored graph is the one owed, every frame and statement so far
   * counted once and in order; and from a statement on until the next frame it is so throughout.
   */
  lemma RunsAreSafe(states: seq<System>, steps: seq<Step>, i: nat)
    requires CarefulRun(states, steps) && i <= |steps|
    ensures states[i].log == None || states[i].phase == Failed || StatementLast(steps[..i]) ==>
              states[i].graph == Owed(states[0].graph, steps[..i])
    ensures states[i].phase == Idle ==> states[i].log == None
  {
    hide CarefulRun, Owed, ApplyFirst, Written, Overtaken, GraphOk, Underway, Settled, RefusedAt, StatementLast;
    RunKeeps(states, steps, i);
    var g, past, s := states[0].graph, steps[..i], states[i];
    if s.log == None || s.phase == Failed {
      OwedBetweenCommits(g, past, s);
    } else {
      var base, k: nat :| Pending(g, past, s, base, k);
      if Written(g, past, base, s.log.value) {
        WrittenOwed(g, past, base, s.log.value);
      }
    }
    if s.phase == Idle {
      NotIdle(g, past, s);
    }
  }

  /** What fails was bound to: some frame written in the run does not apply to the graph owed when it was written. */
  lemma FailuresAreOwed(states: seq<System>, steps: seq<Step>, i: nat) returns (j: nat)
    requires CarefulRun(states, steps) && i <= |steps| && states[i].phase == Failed
    ensures j < i && steps[j].WriteFrame? && states[i].log == Some(steps[j].ops)
    ensures !Clean(Owed(states[0].graph, steps[..j]), steps[j].ops)
  {
    hide CarefulRun, Owed, ApplyFirst, WellFormed, GraphOk, RefusedAt, Harmless;
    RunKeeps(states, steps, i);
    var g, past, ops := states[0].graph, steps[..i], states[i].log.value;
    var base, k: nat :| Pending(g, past, states[i], base, k);
    FailedIsRefused(states[i], base, k);
    Outcome(base, ops, k);
    var m: nat :| WrittenAt(g, past, base, ops, m);
    j := m;
    assert past[..j] == steps[..j] && past[j] == steps[j];
  }

  /**
   * Where a crash has left a frame that no statement has overtaken and that inserts no edge at a
   * node it deletes, one complete replay has the graph and the verdict of the uninterrupted commit.
   */
  lemma OpeningCompletes(states: seq<System>, steps: seq<Step>, i: nat) returns (j: nat)
    requires CarefulRun(states, steps) && i <= |steps| && states[i].phase == Down && states[i].log.Some?
    requires Untouched(states[i].log.value) && !StatementLast(steps[..i])
    ensures j < i && steps[j] == WriteFrame(states[i].log.value)
    ensures ApplyAll(states[i].graph, states[i].log.value) ==
              ApplyAll(Owed(states[0].graph, steps[..j]), states[i].log.value)
  {
    hide CarefulRun, Owed, ApplyFirst, WellFormed, EndsAt, GraphOk, RefusedAt, Settled, StatementLast;
    hide Replaying, Untouched;
    RunKeeps(states, steps, i);
    var g, past, ops := states[0].graph, steps[..i], states[i].log.value;
    var base, k: nat :| Pending(g, past, states[i], base, k);
    var m: nat :| WrittenAt(g, past, base, ops, m);
    j := m;
    assert past[..j] == steps[..j] && past[j] == steps[j];
    UntouchedIsUndisturbed(base, ops);
    ReplayOutcome(states[i].graph, base, ops, k);
  }

  // ----- Statements beside a failed frame -----

  /** A run from `s` in which the session does nothing. */
  ghost predicate QuietRun(s: System, states: seq<System>, steps: seq<Step>) {
    && |states| == |steps| + 1 && states[0] == s
    && forall i :: 0 <= i < |steps| ==> Quiet(steps[i]) && Next(states[i], states[i + 1], steps[i])
  }

  /** A failed frame that is harmless to the graph, or one that has been cleared. */
  ghost predicate Kept(g: Graph, ops: seq<Operation>, s: System) {
    && s.graph == g
    && match s.log
       case None => s.phase == Idle || s.phase == Down
       case Some(o) =>
         && o == ops
         && match s.phase
            case Applying(n, opening) => opening && n <= |ops| && AllSucceed(g, ops, n)
            case Idle => false
            case _ => true
  }

  lemma KeptStep(g: Graph, ops: seq<Operation>, s: System, s': System, step: Step)
    requires Harmless(g, ops) && Kept(g, ops, s) && Quiet(step) && Next(s, s', step)
    ensures Kept(g, ops, s')
  {
    hide ApplyOperation;
  }

  lemma {:induction false} QuietKeeps(s: System, ops: seq<Operation>, states: seq<System>, steps: seq<Step>, i: nat)
    requires s.phase == Failed && s.log == Some(ops) && Harmless(s.graph, ops)
    requires QuietRun(s, states, steps) && i <= |steps|
    ensures Kept(s.graph, ops, states[i])
  {
    hide Next, Harmless;
    if i > 0 {
      QuietKeeps(s, ops, states, steps, i - 1);
      KeptStep(s.graph, ops, states[i - 1], states[i], steps[i - 1]);
    }
  }

  lemma QuietMore(s: System, states: seq<System>, steps: seq<Step>, s': System, step: Step)
    requires QuietRun(s, states, steps) && Quiet(step) && Next(states[|steps|], s', step)
    ensures QuietRun(s, states + [s'], steps + [step]) && |states| == |steps| + 1
  {
    hide Next;
    var states', steps' := states + [s'], steps + [step];
    assert states'[0] == states[0];
    forall i | 0 <= i < |steps'| ensures Quiet(steps'[i]) && Next(states'[i], states'[i + 1], steps'[i]) {
      if i < |steps| {
        assert steps'[i] == steps[i] && states'[i] == states[i] && states'[i + 1] == states[i + 1];
      }
    }
  }

  /** Crash, restart, and the first `n` operations of the replay, none of which changes anything. */
  lemma {:induction false} ReplayRun(s: System, ops: seq<Operation>, n: nat)
    returns (states: seq<System>, steps: seq<Step>)
    requires s.phase == Failed && s.log == Some(ops) && n <= |ops| && AllSucceed(s.graph, ops, n)
    requires forall j :: 0 <= j < n ==> ApplyOperation(s.graph, ops[j]).graph == s.graph
    ensures QuietRun(s, states, steps) && |states| == |steps| + 1 && states[|steps|] == s.(phase := Applying(n, true))
  {
    hide ApplyOperation, QuietRun;
    if n == 0 {
      var down := s.(phase := Down);
      JustStarted(s);
      QuietMore(s, [s], [], down, Crash);
      QuietMore(s, [s] + [down], [] + [Crash], s.(phase := Applying(0, true)), Restart);
      states, steps := [s] + [down] + [s.(phase := Applying(0, true))], [] + [Crash] + [Restart];
    } else {
      states, steps := ReplayRun(s, ops, n - 1);
      assert ApplyOperation(s.graph, ops[n - 1]).Ok();
      QuietMore(s, states, steps, s.(phase := Applying(n, true)), ApplyOne);
      states, steps := states + [s.(phase := Applying(n, true))], steps + [ApplyOne];
    }
  }

  lemma QuietLength(s: System, states: seq<System>, steps: seq<Step>)
    requires QuietRun(s, states, steps)
    ensures |states| == |steps| + 1
  {
  }

  lemma JustStarted(s: System)
    ensures QuietRun(s, [s], [])
  {
  }

  /**
   * Exactly when a statement beside a failed frame is safe: `s` being the system after it, no crash,
   * restart or replay changes the graph if and only if the frame is harmless to it.
   */
  lemma StatementSafeIff(s: System, ops: seq<Operation>)
    requires s.phase == Failed && s.log == Some(ops)
    ensures (forall states: seq<System>, steps: seq<Step> ::
               QuietRun(s, states, steps) ==> states[|steps|].graph == s.graph) <==>
            Harmless(s.graph, ops)
  {
    hide ApplyOperation, QuietRun, AllSucceed;
    if Harmless(s.graph, ops) {
      forall states: seq<System>, steps: seq<Step> | QuietRun(s, states, steps)
        ensures |states| == |steps| + 1 && states[|steps|].graph == s.graph
      {
        QuietLength(s, states, steps);
        QuietKeeps(s, ops, states, steps, |steps|);
      }
    } else {
      var i: nat :| i < |ops| && AllSucceed(s.graph, ops, i) && ApplyOperation(s.graph, ops[i]).graph != s.graph;
      var k := FirstHarm(s.graph, ops, i);
      var states, steps := ReplayRun(s, ops, k);
      var harmed := HarmedBy(s, ops, k);
      QuietMore(s, states, steps, harmed, ApplyOne);
      var states', steps' := states + [harmed], steps + [ApplyOne];
      assert QuietRun(s, states', steps') && states'[|steps'|] == harmed;
    }
  }

  /** The state behind operation `k` of the replay. */
  function HarmedBy(s: System, ops: seq<Operation>, k: nat): (s': System)
    requires s.log == Some(ops) && k < |ops|
    ensures Next(s.(phase := Applying(k, true)), s', ApplyOne) && s'.graph == ApplyOperation(s.graph, ops[k]).graph
  {
    var r := ApplyOperation(s.graph, ops[k]);
    s.(graph := r.graph, phase := if r.Ok() then Applying(k + 1, true) else Down)
  }
}
