/**
The start-up barrier of the Slurm global-sync hook.

`n` ranks meet through files in a shared directory: each rank creates an arrival file
and polls until `n` arrival files exist, then creates a departure file; rank 0 polls
until `n` departure files exist and removes the directory.  Every test or update of
the file system is one step, and the steps of the ranks interleave freely.
 */
module Barrier {

  datatype Phase = Arrival | Departure

  /** The operations of createSyncFile, createFileIfNecessary and createFoldersIfNecessary, in order. */
  datatype Op =
    | CheckAbsent   // createSyncFile: does my file exist?
    | CheckAgain    // createFileIfNecessary: does my file exist?
    | FindParent    // does the phase's directory exist?
    | FindSyncDir   // createFoldersIfNecessary, first component
    | MakeSyncDir
    | FindPhaseDir  // createFoldersIfNecessary, second component
    | MakePhaseDir
    | OpenFile

  /** The next file-system operation of a rank. */
  datatype Pc = Creating(phase: Phase, op: Op) | Poll(phase: Phase) | Cleanup | Done | Failed

  datatype State = State(pcs: seq<Pc>, syncDir: bool, dirs: set<Phase>, arrived: set<nat>, departed: set<nat>) {
    function Files(phase: Phase): set<nat> {
      if phase.Arrival? then arrived else departed
    }

    function WithFile(phase: Phase, r: nat): State {
      if phase.Arrival? then this.(arrived := arrived + {r}) else this.(departed := departed + {r})
    }

    function WithoutFile(phase: Phase, r: nat): State {
      if phase.Arrival? then this.(arrived := arrived - {r}) else this.(departed := departed - {r})
    }

    function Goto(r: nat, pc: Pc): State
      requires r < |pcs|
    {
      this.(pcs := pcs[r := pc])
    }
  }

  ghost predicate Init(s: State) {
    && |s.pcs| > 0
    && (forall r :: 0 <= r < |s.pcs| ==> s.pcs[r] == Creating(Arrival, CheckAbsent))
    && s.syncDir == false && s.dirs == {} && s.arrived == {} && s.departed == {}
  }

  /** Where a rank continues once its sync file has been created. */
  function AfterCreate(r: nat, phase: Phase): Pc {
    if phase.Departure? && r != 0 then Done else Poll(phase)
  }

  function AfterPoll(phase: Phase): Pc {
    if phase.Arrival? then Creating(Departure, CheckAbsent) else Cleanup
  }

  /** One removal of remove_all: a file, an emptied directory, or the emptied sync directory. */
  ghost predicate RemoveOne(s: State, s': State) {
    || (exists phase, q :: q in s.Files(phase) && s' == s.WithoutFile(phase, q))
    || (exists phase :: phase in s.dirs && s.Files(phase) == {} && s' == s.(dirs := s.dirs - {phase}))
    || (s.syncDir && s.dirs == {} && s' == s.(syncDir := false))
  }

  /** The next state when rank `r` performs operation `op` of creating its file of phase `ph`. */
  function Create(s: State, r: nat, ph: Phase, op: Op): State
    requires r < |s.pcs|
  {
    match op
    case CheckAbsent => if r in s.Files(ph) then s.Goto(r, Failed) else s.Goto(r, Creating(ph, CheckAgain))
    case CheckAgain => if r in s.Files(ph) then s.Goto(r, AfterCreate(r, ph)) else s.Goto(r, Creating(ph, FindParent))
    case FindParent => if ph in s.dirs then s.Goto(r, Creating(ph, OpenFile)) else s.Goto(r, Creating(ph, FindSyncDir))
    case FindSyncDir => if s.syncDir then s.Goto(r, Creating(ph, FindPhaseDir)) else s.Goto(r, Creating(ph, MakeSyncDir))
    case MakeSyncDir => s.Goto(r, Creating(ph, FindPhaseDir)).(syncDir := true)
    case FindPhaseDir => if ph in s.dirs then s.Goto(r, Creating(ph, OpenFile)) else s.Goto(r, Creating(ph, MakePhaseDir))
    case MakePhaseDir => if s.syncDir then s.Goto(r, Creating(ph, OpenFile)).(dirs := s.dirs + {ph}) else s.Goto(r, Failed)
    case OpenFile => if ph in s.dirs then s.Goto(r, AfterCreate(r, ph)).WithFile(ph, r) else s.Goto(r, Failed)
  }

  ghost predicate RankStep(s: State, s': State, r: nat)
    requires r < |s.pcs|
  {
    match s.pcs[r]
    case Creating(ph, op) => s' == Create(s, r, ph, op)
    case Poll(ph) =>
      s' == if ph !in s.dirs then s.Goto(r, Failed)
            else if |s.Files(ph)| == |s.pcs| then s.Goto(r, AfterPoll(ph))
            else s
    case Cleanup => RemoveOne(s, s') || (!s.syncDir && s' == s.Goto(r, Done))
    case Done => false
    case Failed => false
  }

  ghost predicate Step(s: State, s': State) {
    exists r: nat :: r < |s.pcs| && RankStep(s, s', r)
  }

  ghost predicate StepAt(run: seq<State>, i: nat)
    requires i + 1 < |run|
  {
    Step(run[i], run[i + 1])
  }

  ghost predicate Run(run: seq<State>) {
    && |run| > 0
    && Init(run[0])
    && forall i: nat :: i + 1 < |run| ==> StepAt(run, i)
  }

  // ---------------------------------------------------------------- vocabulary

  /** The rank has made its file of this phase visible. */
  predicate Signalled(pc: Pc, phase: Phase) {
    match pc
    case Creating(ph, _) => phase.Arrival? && ph.Departure?
    case Poll(ph) => phase.Arrival? || ph.Departure?
    case Cleanup => true
    case Done => true
    case Failed => false
  }

  /** The rank has left the arrival loop. */
  predicate PastArrival(pc: Pc) {
    Signalled(pc, Arrival) && pc != Poll(Arrival)
  }

  predicate Cleaning(s: State)
    requires |s.pcs| > 0
  {
    s.pcs[0].Cleanup? || s.pcs[0].Done?
  }

  function Ranks(n: nat): (ranks: set<nat>)
    ensures |ranks| == n
    ensures forall r: nat :: r in ranks <==> r < n
  {
    if n == 0 then {} else Ranks(n - 1) + {n - 1}
  }

  ghost predicate Finished(s: State) {
    && (forall r :: 0 <= r < |s.pcs| ==> s.pcs[r].Done?)
    && !s.syncDir && s.dirs == {} && s.arrived == {} && s.departed == {}
  }

  // ---------------------------------------------------------------- invariant

  /** What a rank's position says about the directories it relies on. */
  predicate RankInv(s: State, r: nat)
    requires r < |s.pcs|
  {
    var pc := s.pcs[r];
    && !pc.Failed?
    && (pc.Creating? && (pc.op.FindPhaseDir? || pc.op.MakePhaseDir?) ==> s.syncDir)
    && (pc.Creating? && pc.op.OpenFile? ==> pc.phase in s.dirs)
    && (pc == Poll(Departure) || pc.Cleanup? ==> r == 0)
  }

  /** Before clean-up starts, the files are exactly those of the ranks that have signalled. */
  ghost predicate FilesInv(s: State) {
    && (forall r: nat :: r in s.arrived <==> r < |s.pcs| && Signalled(s.pcs[r], Arrival))
    && (forall r: nat :: r in s.departed <==> r < |s.pcs| && Signalled(s.pcs[r], Departure))
    && (s.arrived != {} ==> Arrival in s.dirs)
    && (s.departed != {} ==> Departure in s.dirs)
    && (s.dirs != {} ==> s.syncDir)
  }

  /** Nobody leaves the arrival loop before everybody has arrived. */
  ghost predicate OrderInv(s: State) {
    forall r, q :: 0 <= r < |s.pcs| && 0 <= q < |s.pcs| && PastArrival(s.pcs[r]) ==> Signalled(s.pcs[q], Arrival)
  }

  ghost predicate Inv(s: State) {
    && |s.pcs| > 0
    && (forall r :: 0 <= r < |s.pcs| ==> RankInv(s, r))
    && OrderInv(s)
    && (!Cleaning(s) ==> FilesInv(s))
    && (Cleaning(s) ==> forall r :: 0 < r < |s.pcs| ==> s.pcs[r].Done?)
    && (Cleaning(s) ==> forall ph :: s.Files(ph) != {} ==> ph in s.dirs)
    && (s.dirs != {} ==> s.syncDir)
    && (s.pcs[0].Done? ==> !s.syncDir)
  }

  lemma FullSet(files: set<nat>, n: nat)
    requires forall r :: r in files ==> r < n
    requires |files| == n
    ensures files == Ranks(n)
  {
    var all := Ranks(n);
    assert files <= all;
    if r :| r in all && r !in files {
      assert files <= all - {r};
      Subset(files, all - {r});
    }
  }

  lemma {:induction false} Subset(a: set<nat>, b: set<nat>)
    requires a <= b
    ensures |a| <= |b|
  {
    if a != {} {
      var x :| x in a;
      Subset(a - {x}, b - {x});
    }
  }

  lemma InitInv(s: State)
    requires Init(s)
    ensures Inv(s)
  {
  }

  /** The poll that finds `n` files has seen the file of every rank. */
  lemma PollSeesAll(s: State, phase: Phase)
    requires Inv(s) && !Cleaning(s)
    requires |s.Files(phase)| == |s.pcs|
    ensures forall r :: 0 <= r < |s.pcs| ==> Signalled(s.pcs[r], phase)
  {
    FullSet(s.Files(phase), |s.pcs|);
    forall r | 0 <= r < |s.pcs|
      ensures Signalled(s.pcs[r], phase)
    {
      assert r in s.Files(phase);
    }
  }

  lemma CreateKeepsRankInv(s: State, r: nat, q: nat)
    requires Inv(s) && !Cleaning(s)
    requires r < |s.pcs| && s.pcs[r].Creating? && q < |s.pcs|
    ensures RankInv(Create(s, r, s.pcs[r].phase, s.pcs[r].op), q)
  {
    assert RankInv(s, r) && RankInv(s, q);
    assert r !in s.Files(s.pcs[r].phase);
  }

  lemma CreateKeepsFilesInv(s: State, r: nat)
    requires Inv(s) && !Cleaning(s)
    requires r < |s.pcs| && s.pcs[r].Creating?
    ensures FilesInv(Create(s, r, s.pcs[r].phase, s.pcs[r].op))
  {
    var ph, op := s.pcs[r].phase, s.pcs[r].op;
    var s' := Create(s, r, ph, op);
    assert RankInv(s, r);
    assert r !in s.Files(ph);
    forall phase
      ensures Signalled(s'.pcs[r], phase) == (Signalled(s.pcs[r], phase) || (op.OpenFile? && phase == ph))
    {
    }
    forall q: nat, phase
      ensures q in s'.Files(phase) <==> q < |s'.pcs| && Signalled(s'.pcs[q], phase)
    {
      assert q in s.Files(phase) <==> q < |s.pcs| && Signalled(s.pcs[q], phase);
    }
    assert forall q: nat :: q in s'.Files(Arrival) <==> q < |s'.pcs| && Signalled(s'.pcs[q], Arrival);
    assert forall q: nat :: q in s'.Files(Departure) <==> q < |s'.pcs| && Signalled(s'.pcs[q], Departure);
  }

  lemma CreateStaysInPhase(s: State, r: nat, ph: Phase, op: Op)
    requires r < |s.pcs| && s.pcs[r] == Creating(ph, op)
    ensures var s' := Create(s, r, ph, op);
            && s'.pcs == s.pcs[r := s'.pcs[r]]
            && (PastArrival(s'.pcs[r]) ==> PastArrival(s.pcs[r]))
            && (Signalled(s.pcs[r], Arrival) && !s'.pcs[r].Failed? ==> Signalled(s'.pcs[r], Arrival))
  {
  }

  lemma CreateKeepsInv(s: State, r: nat)
    requires Inv(s) && !Cleaning(s)
    requires r < |s.pcs| && s.pcs[r].Creating?
    ensures Inv(Create(s, r, s.pcs[r].phase, s.pcs[r].op))
  {
    var s' := Create(s, r, s.pcs[r].phase, s.pcs[r].op);
    forall q | 0 <= q < |s'.pcs|
      ensures RankInv(s', q)
    {
      CreateKeepsRankInv(s, r, q);
    }
    CreateKeepsFilesInv(s, r);
    CreateStaysInPhase(s, r, s.pcs[r].phase, s.pcs[r].op);
  }

  lemma PollKeepsInv(s: State, s': State, r: nat)
    requires Inv(s) && !Cleaning(s)
    requires r < |s.pcs| && s.pcs[r].Poll? && RankStep(s, s', r)
    ensures Inv(s')
  {
    var ph := s.pcs[r].phase;
    assert RankInv(s, r);
    assert r in s.Files(ph);
    if s' != s {
      PollSeesAll(s, ph);
      forall q | 0 < q < |s.pcs| && ph.Departure?
        ensures s.pcs[q].Done?
      {
        assert RankInv(s, q);
      }
      forall q | 0 <= q < |s'.pcs|
        ensures RankInv(s', q)
      {
        assert RankInv(s, q);
      }
    }
  }

  lemma StepKeepsInvInCleanup(s: State, s': State, r: nat)
    requires Inv(s) && Cleaning(s)
    requires r < |s.pcs| && RankStep(s, s', r)
    ensures Inv(s')
  {
    assert r == 0 && s.pcs[0].Cleanup?;
    forall q | 0 <= q < |s'.pcs|
      ensures RankInv(s', q)
    {
      assert RankInv(s, q);
    }
  }

  lemma RankStepKeepsInv(s: State, s': State, r: nat)
    requires Inv(s)
    requires r < |s.pcs| && RankStep(s, s', r)
    ensures Inv(s') && |s'.pcs| == |s.pcs|
  {
    if Cleaning(s) {
      StepKeepsInvInCleanup(s, s', r);
    } else if s.pcs[r].Creating? {
      CreateKeepsInv(s, r);
    } else {
      assert RankInv(s, r);
      PollKeepsInv(s, s', r);
    }
  }

  /** Every step of every rank keeps the invariant. */
  lemma StepKeepsInv(s: State, s': State)
    requires Inv(s) && Step(s, s')
    ensures Inv(s') && |s'.pcs| == |s.pcs|
  {
    var r: nat :| r < |s.pcs| && RankStep(s, s', r);
    RankStepKeepsInv(s, s', r);
  }

  lemma {:induction false} RunInv(run: seq<State>, i: nat)
    requires Run(run) && i < |run|
    ensures Inv(run[i]) && |run[i].pcs| == |run[0].pcs|
  {
    if i == 0 {
      InitInv(run[0]);
    } else {
      RunInv(run, i - 1);
      assert StepAt(run, i - 1);
      StepKeepsInv(run[i - 1], run[i]);
    }
  }

  // ---------------------------------------------------------------- safety

  /**
  In every state of every run: no rank has failed (so no file was found to exist already,
  and no poll or creation met a missing directory); a rank past the arrival loop implies
  that an earlier state held the arrival files of all ranks at once; and while rank 0 is
  removing the directory every other rank is finished.
   */
  lemma {:induction false} BarrierSafety(run: seq<State>, i: nat, r: nat)
    requires Run(run) && i < |run| && r < |run[i].pcs|
    ensures !run[i].pcs[r].Failed?
    ensures PastArrival(run[i].pcs[r]) ==> exists j :: 0 <= j < i && run[j].arrived == Ranks(|run[0].pcs|)
    ensures run[i].pcs[0].Cleanup? && r != 0 ==> run[i].pcs[r].Done?
  {
    RunInv(run, i);
    assert RankInv(run[i], r);
    if PastArrival(run[i].pcs[r]) {
      LeavingArrival(run, i, r);
    }
  }

  lemma {:induction false} LeavingArrival(run: seq<State>, i: nat, r: nat)
    requires Run(run) && i < |run| && r < |run[i].pcs|
    requires PastArrival(run[i].pcs[r])
    ensures exists j :: 0 <= j < i && run[j].arrived == Ranks(|run[0].pcs|)
    decreases i
  {
    RunInv(run, i);
    assert i != 0;
    RunInv(run, i - 1);
    assert StepAt(run, i - 1);
    if PastArrival(run[i - 1].pcs[r]) {
      LeavingArrival(run, i - 1, r);
    } else {
      OnlyAPollLeavesArrival(run[i - 1], run[i], r);
    }
  }

  lemma OnlyAPollLeavesArrival(s: State, s': State, r: nat)
    requires Inv(s) && Step(s, s')
    requires r < |s.pcs| && r < |s'.pcs| && !PastArrival(s.pcs[r]) && PastArrival(s'.pcs[r])
    ensures s.arrived == Ranks(|s.pcs|)
  {
    var q: nat :| q < |s.pcs| && RankStep(s, s', q);
    assert !Cleaning(s) by {
      assert RankInv(s, r);
    }
    if s.pcs[q].Creating? {
      CreateStaysInPhase(s, q, s.pcs[q].phase, s.pcs[q].op);
    } else {
      FullSet(s.arrived, |s.pcs|);
    }
  }

  // ---------------------------------------------------------------- progress

  function OpsLeft(op: Op): nat {
    match op
    case CheckAbsent => 8
    case CheckAgain => 7
    case FindParent => 6
    case FindSyncDir => 5
    case MakeSyncDir => 4
    case FindPhaseDir => 3
    case MakePhaseDir => 2
    case OpenFile => 1
  }

  function Weight(pc: Pc): nat {
    match pc
    case Creating(ph, op) => OpsLeft(op) + (if ph.Arrival? then 11 else 2)
    case Poll(ph) => if ph.Arrival? then 11 else 2
    case Cleanup => 1
    case Done => 0
    case Failed => 0
  }

  function TotalWeight(pcs: seq<Pc>): nat {
    if pcs == [] then 0 else Weight(pcs[0]) + TotalWeight(pcs[1..])
  }

  /** Steps left to take, counted generously: twice the program positions plus the entries to remove. */
  function Measure(s: State): nat {
    2 * TotalWeight(s.pcs) + Entries(s)
  }

  /** The entries of the shared directory that are still to be removed. */
  function Entries(s: State): nat {
    |s.arrived| + |s.departed| + |s.dirs| + (if s.syncDir then 1 else 0)
  }

  lemma {:induction false} TotalWeightUpdate(pcs: seq<Pc>, r: nat, pc: Pc)
    requires r < |pcs|
    ensures TotalWeight(pcs[r := pc]) == TotalWeight(pcs) - Weight(pcs[r]) + Weight(pc)
  {
    if r == 0 {
      assert pcs[r := pc][1..] == pcs[1..];
    } else {
      assert pcs[r := pc][1..] == pcs[1..][r - 1 := pc];
      TotalWeightUpdate(pcs[1..], r - 1, pc);
    }
  }

  lemma CreateDecreasesMeasure(s: State, r: nat, ph: Phase, op: Op)
    requires r < |s.pcs| && s.pcs[r] == Creating(ph, op)
    ensures Measure(Create(s, r, ph, op)) < Measure(s)
  {
    var s' := Create(s, r, ph, op);
    CreateStaysInPhase(s, r, ph, op);
    CreateAdvances(s, r, ph, op);
    TotalWeightUpdate(s.pcs, r, s'.pcs[r]);
  }

  lemma GotoDecreasesMeasure(s: State, r: nat, pc: Pc)
    requires r < |s.pcs| && Weight(pc) < Weight(s.pcs[r])
    ensures Measure(s.Goto(r, pc)) < Measure(s)
  {
    TotalWeightUpdate(s.pcs, r, pc);
  }

  /** Every step that changes the state makes progress. */
  lemma StepDecreasesMeasure(s: State, s': State)
    requires Step(s, s')
    ensures s' == s || Measure(s') < Measure(s)
  {
    var r: nat :| r < |s.pcs| && RankStep(s, s', r);
    match s.pcs[r]
    case Creating(ph, op) => CreateDecreasesMeasure(s, r, ph, op);
    case Poll(ph) =>
      GotoDecreasesMeasure(s, r, Failed);
      GotoDecreasesMeasure(s, r, AfterPoll(ph));
    case Cleanup =>
      if RemoveOne(s, s') {
        RemoveShrinks(s, s');
      } else {
        GotoDecreasesMeasure(s, r, Done);
      }
  }

  lemma RemoveShrinks(s: State, s': State)
    requires RemoveOne(s, s')
    ensures s'.pcs == s.pcs && Entries(s') < Entries(s)
  {
    if phase, q :| q in s.Files(phase) && s' == s.WithoutFile(phase, q) {
      assert |s.Files(phase) - {q}| == |s.Files(phase)| - 1;
    } else if phase :| phase in s.dirs && s' == s.(dirs := s.dirs - {phase}) {
      assert |s.dirs - {phase}| == |s.dirs| - 1;
    }
  }

  lemma CreateAdvances(s: State, r: nat, ph: Phase, op: Op)
    requires r < |s.pcs| && s.pcs[r] == Creating(ph, op)
    ensures var s' := Create(s, r, ph, op);
            && Weight(s'.pcs[r]) < Weight(s.pcs[r])
            && Entries(s') <= Entries(s) + 1
  {
    if op.MakePhaseDir? {
      assert |s.dirs + {ph}| <= |s.dirs| + 1;
    } else if op.OpenFile? {
      assert |s.Files(ph) + {r}| <= |s.Files(ph)| + 1;
    }
  }

  /** An unfinished state always has a rank that can change it. */
  lemma SomeRankCanMove(s: State) returns (s': State, r: nat)
    requires Inv(s) && !Finished(s)
    ensures r < |s.pcs| && RankStep(s, s', r) && s' != s
  {
    if q: nat :| q < |s.pcs| && !s.pcs[q].Done? && !s.pcs[q].Poll? {
      r := q;
      assert RankInv(s, r);
      s' := MoveNonPolling(s, r);
    } else if q: nat :| q < |s.pcs| && s.pcs[q] == Poll(Arrival) {
      r := q;
      assert !PastArrival(s.pcs[0]) || Signalled(s.pcs[r], Arrival);
      AllSignalled(s, Arrival);
      s' := s.Goto(r, AfterPoll(Arrival));
      assert r in s.arrived;
    } else if s.pcs[0].Poll? {
      r := 0;
      AllSignalled(s, Departure);
      s' := s.Goto(0, Cleanup);
      assert 0 in s.departed;
    } else {
      DoneIsFinished(s);
    }
  }

  lemma DoneIsFinished(s: State)
    requires Inv(s) && s.pcs[0].Done?
    ensures Finished(s)
  {
    assert s.Files(Arrival) == {} && s.Files(Departure) == {};
  }

  lemma AllSignalled(s: State, phase: Phase)
    requires Inv(s) && !Cleaning(s)
    requires forall r :: 0 <= r < |s.pcs| ==> Signalled(s.pcs[r], phase)
    ensures |s.Files(phase)| == |s.pcs|
  {
    assert s.Files(phase) == Ranks(|s.pcs|);
  }

  lemma MoveNonPolling(s: State, r: nat) returns (s': State)
    requires Inv(s) && r < |s.pcs| && !s.pcs[r].Done? && !s.pcs[r].Poll? && !s.pcs[r].Failed?
    ensures RankStep(s, s', r) && s' != s
  {
    match s.pcs[r]
    case Creating(ph, op) => s' := Create(s, r, ph, op);
    case Cleanup =>
      if s.arrived != {} {
        var q :| q in s.Files(Arrival);
        s' := s.WithoutFile(Arrival, q);
        assert RemoveOne(s, s');
      } else if s.departed != {} {
        var q :| q in s.Files(Departure);
        s' := s.WithoutFile(Departure, q);
        assert RemoveOne(s, s');
      } else if s.dirs != {} {
        var ph :| ph in s.dirs;
        assert s.Files(ph) == {};
        s' := s.(dirs := s.dirs - {ph});
      } else if s.syncDir {
        s' := s.(syncDir := false);
      } else {
        s' := s.Goto(r, Done);
      }
  }

  /** A finished state is final: nothing is left to do, and nothing can happen. */
  lemma FinishedIsFinal(s: State)
    requires Inv(s)
    ensures Finished(s) <==> !exists s' :: Step(s, s') && s' != s
  {
    if !Finished(s) {
      var s', r := SomeRankCanMove(s);
      assert Step(s, s');
    }
  }

  /** The number of steps of a run that are not idle polls. */
  ghost function Moves(run: seq<State>): nat {
    if |run| <= 1 then 0
    else Moves(run[..|run| - 1]) + (if run[|run| - 1] == run[|run| - 2] then 0 else 1)
  }

  /** Every run, however scheduled, takes boundedly many steps that are not idle polls. */
  lemma {:induction false} MovesAreBounded(run: seq<State>)
    requires Run(run)
    ensures Moves(run) + Measure(run[|run| - 1]) <= Measure(run[0])
  {
    if |run| > 1 {
      var shorter := run[..|run| - 1];
      assert Run(shorter) by {
        forall i: nat | i + 1 < |shorter|
          ensures StepAt(shorter, i)
        {
          assert StepAt(run, i);
        }
      }
      MovesAreBounded(shorter);
      var k := |run| - 2;
      assert StepAt(run, k);
      StepDecreasesMeasure(run[k], run[k + 1]);
    }
  }

  /** Every run can be continued to one whose last state has all ranks done and the directory gone. */
  lemma {:induction false} BarrierCompletes(run: seq<State>) returns (rest: seq<State>)
    requires Run(run)
    ensures Run(run + rest)
    ensures Finished((run + rest)[|run + rest| - 1])
    decreases Measure(run[|run| - 1])
  {
    var last := run[|run| - 1];
    RunInv(run, |run| - 1);
    if Finished(last) {
      rest := [];
      assert run + rest == run;
    } else {
      var next, r := SomeRankCanMove(last);
      assert Step(last, next);
      StepDecreasesMeasure(last, next);
      var longer := run + [next];
      assert Run(longer) by {
        forall i: nat | i + 1 < |longer|
          ensures StepAt(longer, i)
        {
          if i + 1 < |run| {
            assert StepAt(run, i);
          }
        }
      }
      var tail := BarrierCompletes(longer);
      rest := [next] + tail;
      assert run + rest == longer + tail;
    }
  }

  // ---------------------------------------------------------------- fair runs

  /** Rank r gets to run: it takes its next step, if it is not done. */
  ghost predicate Turn(s: State, s': State, r: nat) {
    r < |s.pcs| && (RankStep(s, s', r) || (s.pcs[r].Done? && s' == s))
  }

  ghost predicate TurnAt(run: seq<State>, ranks: seq<nat>, i: nat)
    requires |run| == |ranks| + 1 && i < |ranks|
  {
    Turn(run[i], run[i + 1], ranks[i])
  }

  /** A run with the rank that gets each turn. */
  ghost predicate ScheduledRun(run: seq<State>, ranks: seq<nat>) {
    |run| == |ranks| + 1 && Init(run[0]) && forall i: nat :: i < |ranks| ==> TurnAt(run, ranks, i)
  }

  /** Every rank gets a turn between a and b. */
  predicate Round(ranks: seq<nat>, n: nat, a: nat, b: nat)
    requires b <= |ranks|
  {
    a <= b && forall r :: 0 <= r < n ==> r in ranks[a..b]
  }

  /** The marks divide the run into rounds. */
  predicate Rounds(ranks: seq<nat>, n: nat, marks: seq<nat>) {
    && marks != []
    && (forall k :: 0 <= k < |marks| ==> marks[k] <= |ranks|)
    && (forall k: nat, l: nat :: l == k + 1 && l < |marks| ==> Round(ranks, n, marks[k], marks[l]))
  }

  lemma TurnKeepsInv(s: State, s': State, r: nat)
    requires Inv(s) && Turn(s, s', r)
    ensures Inv(s') && |s'.pcs| == |s.pcs| && (s' == s || Measure(s') < Measure(s))
  {
    if s' != s {
      assert Step(s, s');
      StepKeepsInv(s, s');
      StepDecreasesMeasure(s, s');
    }
  }

  /** A rank that can change the state does so when it gets its turn. */
  lemma MoverMoves(s: State, s1: State, s2: State, r: nat)
    requires r < |s.pcs| && RankStep(s, s1, r) && s1 != s && Turn(s, s2, r)
    ensures s2 != s
  {
    match s.pcs[r]
    case Creating(ph, op) =>
    case Poll(ph) =>
    case Cleanup =>
      if RemoveOne(s, s2) {
        RemoveShrinks(s, s2);
      }
    case Done =>
    case Failed =>
  }

  lemma {:induction false} ScheduledInv(run: seq<State>, ranks: seq<nat>, a: nat, b: nat)
    requires ScheduledRun(run, ranks) && a <= b < |run|
    ensures Inv(run[b]) && |run[b].pcs| == |run[0].pcs| && Measure(run[b]) <= Measure(run[a])
    decreases b
  {
    if b == 0 {
      InitInv(run[0]);
    } else {
      ScheduledInv(run, ranks, if a < b then a else b - 1, b - 1);
      assert TurnAt(run, ranks, b - 1);
      TurnKeepsInv(run[b - 1], run[b], ranks[b - 1]);
    }
  }

  /** Until the mover gets its turn, either another rank has changed the state or the mover does. */
  lemma {:induction false} SomeoneMoves(run: seq<State>, ranks: seq<nat>, a: nat, b: nat, next: State, r: nat)
    requires ScheduledRun(run, ranks) && a <= b < |run| && r in ranks[a..b]
    requires r < |run[a].pcs| && RankStep(run[a], next, r) && next != run[a]
    ensures Measure(run[b]) < Measure(run[a])
    decreases b - a
  {
    ScheduledInv(run, ranks, 0, a);
    assert TurnAt(run, ranks, a);
    TurnKeepsInv(run[a], run[a + 1], ranks[a]);
    if run[a + 1] != run[a] {
      ScheduledInv(run, ranks, a + 1, b);
    } else {
      if ranks[a] == r {
        MoverMoves(run[a], next, run[a + 1], r);
      }
      assert ranks[a..b] == [ranks[a]] + ranks[a + 1..b];
      SomeoneMoves(run, ranks, a + 1, b, next, r);
    }
  }

  /** A round makes progress. */
  lemma RoundProgresses(run: seq<State>, ranks: seq<nat>, a: nat, b: nat)
    requires ScheduledRun(run, ranks) && b < |run| && Round(ranks, |run[0].pcs|, a, b)
    ensures Finished(run[a]) || Measure(run[b]) < Measure(run[a])
  {
    ScheduledInv(run, ranks, 0, a);
    if !Finished(run[a]) {
      var next, r := SomeRankCanMove(run[a]);
      SomeoneMoves(run, ranks, a, b, next, r);
    }
  }

  lemma {:induction false} RoundsProgress(run: seq<State>, ranks: seq<nat>, marks: seq<nat>, k: nat)
    requires ScheduledRun(run, ranks) && Rounds(ranks, |run[0].pcs|, marks) && k < |marks|
    ensures Measure(run[marks[k]]) + k <= Measure(run[0]) || exists j :: 0 <= j < k && Finished(run[marks[j]])
  {
    if k == 0 {
      ScheduledInv(run, ranks, 0, marks[0]);
    } else {
      RoundsProgress(run, ranks, marks, k - 1);
      assert Round(ranks, |run[0].pcs|, marks[k - 1], marks[k]);
      RoundProgresses(run, ranks, marks[k - 1], marks[k]);
    }
  }

  lemma {:induction false} FinishedStays(run: seq<State>, ranks: seq<nat>, a: nat, b: nat)
    requires ScheduledRun(run, ranks) && a <= b < |run| && Finished(run[a])
    ensures Finished(run[b])
    decreases b
  {
    if a < b {
      FinishedStays(run, ranks, a, b - 1);
      assert TurnAt(run, ranks, b - 1);
    }
  }

  lemma {:induction false} WeightOfStart(pcs: seq<Pc>)
    requires forall r :: 0 <= r < |pcs| ==> pcs[r] == Creating(Arrival, CheckAbsent)
    ensures TotalWeight(pcs) == 19 * |pcs|
  {
    if pcs != [] {
      WeightOfStart(pcs[1..]);
    }
  }

  /** A state in which something is left to do has a positive measure. */
  lemma UnfinishedIsPositive(s: State)
    requires Inv(s) && !Finished(s)
    ensures Measure(s) > 0
  {
    var next, r := SomeRankCanMove(s);
    assert Step(s, next);
    StepDecreasesMeasure(s, next);
  }

  /**
  Every run in which all n ranks get a turn in each of 38 n rounds has finished by then: all ranks are
  done and the directory is gone, whatever the order of the turns.
   */
  lemma FairRunFinishes(run: seq<State>, ranks: seq<nat>, marks: seq<nat>)
    requires ScheduledRun(run, ranks) && Rounds(ranks, |run[0].pcs|, marks) && |marks| > 38 * |run[0].pcs|
    ensures Finished(run[|run| - 1])
  {
    var k := 38 * |run[0].pcs|;
    WeightOfStart(run[0].pcs);
    assert Measure(run[0]) == k;
    RoundsProgress(run, ranks, marks, k);
    if j :| 0 <= j < k && Finished(run[marks[j]]) {
      FinishedStays(run, ranks, marks[j], |run| - 1);
    } else {
      ScheduledInv(run, ranks, 0, marks[k]);
      if !Finished(run[marks[k]]) {
        UnfinishedIsPositive(run[marks[k]]);
      }
      FinishedStays(run, ranks, marks[k], |run| - 1);
    }
  }
}
