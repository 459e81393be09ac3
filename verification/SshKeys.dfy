/**
Generating a user's ssh keys, as any number of processes that work on the same directory under the
same lockfile.  A process may stop with an error, whose unwinding releases the lock, or be killed,
which leaves the lockfile behind.
 */
module SshKeys {

  /** The key files, in the order in which they are generated. */
  const NAMES: seq<string> := ["dropbear_ecdsa_host_key", "id_dropbear", "authorized_keys"]

  /** How a process comes to the end: the keys were there, it has generated them, or there was an error. */
  datatype Outcome = Kept | Generated | Error

  datatype Phase =
    | Start
    | Acquire
    | Check(next: nat)
    | Remove
    | Generate(next: nat)
    | Release(result: Outcome)
    | Done
    | Killed

  datatype Process = Process(phase: Phase, overwrite: bool)

  datatype State = State(locked: bool, keys: map<string, nat>, processes: seq<Process>)

  predicate Complete(keys: map<string, nat>) {
    forall name :: name in NAMES ==> name in keys
  }

  /** Between the creation of the lockfile and its removal. */
  predicate Critical(phase: Phase) { phase.Check? || phase.Remove? || phase.Generate? || phase.Release? }

  predicate Writing(phase: Phase) { phase.Remove? || phase.Generate? }

  // ---------------------------------------------------------------- the steps

  function Goto(s: State, p: nat, phase: Phase): State
    requires p < |s.processes|
  {
    s.(processes := s.processes[p := s.processes[p].(phase := phase)])
  }

  /** Process p writes the n-th key file, and goes on to the next if this is finished. */
  function Write(s: State, p: nat, n: nat, content: nat, finished: bool): State
    requires p < |s.processes| && n < |NAMES|
  {
    Goto(s, p, Generate(if finished then n + 1 else n)).(keys := s.keys[NAMES[n] := content])
  }

  /** The regular steps of process p. */
  ghost predicate Proceeds(s: State, s': State, p: nat)
    requires p < |s.processes|
  {
    match s.processes[p].phase
    case Start => s' == Goto(s, p, Acquire)
    case Acquire => if s.locked then s' == s else s' == Goto(s, p, Check(0)).(locked := true)
    case Check(n) =>
      if n < |NAMES| then s' == Goto(s, p, if NAMES[n] in s.keys then Check(n + 1) else Remove)
      else s' == Goto(s, p, if s.processes[p].overwrite then Remove else Release(Kept))
    case Remove =>
      if s.keys == map[] then s' == Goto(s, p, Generate(0))
      else exists name :: name in s.keys && s' == s.(keys := s.keys - {name})
    case Generate(n) =>
      if n < |NAMES| then exists content: nat, finished: bool :: s' == Write(s, p, n, content, finished)
      else s' == Goto(s, p, Release(Generated))
    case Release(_) => s' == Goto(s, p, Done).(locked := false)
    case Done => false
    case Killed => false
  }

  /** An error: inside the critical section the lock is released on the way out. */
  ghost predicate Fails(s: State, s': State, p: nat)
    requires p < |s.processes|
  {
    var phase := s.processes[p].phase;
    if phase.Check? || Writing(phase) then s' == Goto(s, p, Release(Error))
    else (phase.Start? || phase.Acquire?) && s' == Goto(s, p, Done)
  }

  ghost predicate IsKilled(s: State, s': State, p: nat)
    requires p < |s.processes|
  {
    s.processes[p].phase != Done && s' == Goto(s, p, Killed)
  }

  ghost predicate Step(s: State, s': State, p: nat) {
    p < |s.processes| && (Proceeds(s, s', p) || Fails(s, s', p) || IsKilled(s, s', p))
  }

  ghost predicate StepAt(states: seq<State>, actors: seq<nat>, i: nat)
    requires |states| == |actors| + 1 && i < |actors|
  {
    Step(states[i], states[i + 1], actors[i])
  }

  /** A run: the states, and the process that made each step. */
  ghost predicate Run(states: seq<State>, actors: seq<nat>) {
    |states| == |actors| + 1 && forall i: nat :: i < |actors| ==> StepAt(states, actors, i)
  }

  /** Nobody has started yet; a lockfile may have been left behind, and any files may be there. */
  predicate Initial(s: State) {
    forall p :: 0 <= p < |s.processes| ==> s.processes[p].phase == Start
  }

  // ---------------------------------------------------------------- mutual exclusion

  /** At most one process is in the critical section, and then the lockfile exists. */
  ghost predicate Exclusive(s: State) {
    && (forall p :: 0 <= p < |s.processes| && Critical(s.processes[p].phase) ==> s.locked)
    && (forall p, q :: 0 <= p < q < |s.processes| ==> !Critical(s.processes[p].phase) || !Critical(s.processes[q].phase))
  }

  /** What the generating process has got so far: the files before the current one and nothing after it. */
  ghost predicate Progress(s: State, p: nat)
    requires p < |s.processes|
  {
    match s.processes[p].phase
    case Check(n) => n <= |NAMES| && forall i :: 0 <= i < n ==> NAMES[i] in s.keys
    case Generate(n) =>
      n <= |NAMES| && (forall i :: 0 <= i < n ==> NAMES[i] in s.keys) && (forall i :: n < i < |NAMES| ==> NAMES[i] !in s.keys)
    case Release(result) => (!result.Error? ==> Complete(s.keys)) && (result.Kept? ==> !s.processes[p].overwrite)
    case _ => true
  }

  ghost predicate Inv(s: State) {
    Exclusive(s) && forall p: nat :: p < |s.processes| ==> Progress(s, p)
  }

  lemma StepKeepsExclusive(s: State, s': State, p: nat)
    requires Exclusive(s) && Step(s, s', p)
    ensures Exclusive(s')
  {
  }

  /** Only the process in the critical section touches the keys. */
  lemma OnlyCriticalChangesKeys(s: State, s': State, p: nat)
    requires Step(s, s', p)
    ensures s'.keys != s.keys ==> Writing(s.processes[p].phase)
    ensures |s'.processes| == |s.processes| && forall q :: 0 <= q < |s.processes| && q != p ==> s'.processes[q] == s.processes[q]
    ensures s'.processes[p].overwrite == s.processes[p].overwrite
  {
  }

  lemma OwnProgress(s: State, s': State, p: nat)
    requires Exclusive(s) && Step(s, s', p) && Progress(s, p)
    ensures p < |s'.processes| && Progress(s', p)
  {
    NamesDiffer();
    if (s.processes[p].phase.Generate? || s.processes[p].phase.Check?) && s.processes[p].phase.next == |NAMES| {
      forall name | name in NAMES
        ensures name in s.keys
      {
        var i :| 0 <= i < |NAMES| && NAMES[i] == name;
      }
    }
  }

  lemma NamesDiffer()
    ensures |NAMES| == 3 && NAMES[0] != NAMES[1] && NAMES[0] != NAMES[2] && NAMES[1] != NAMES[2]
  {
    assert |NAMES[0]| == 23 && |NAMES[1]| == 11 && |NAMES[2]| == 15;
  }

  lemma StepKeepsInv(s: State, s': State, p: nat)
    requires Inv(s) && Step(s, s', p)
    ensures Inv(s')
  {
    StepKeepsExclusive(s, s', p);
    OnlyCriticalChangesKeys(s, s', p);
    forall q: nat | q < |s'.processes|
      ensures Progress(s', q)
    {
      assert Progress(s, q);
      if q == p {
        OwnProgress(s, s', p);
      }
    }
  }

  /** In every state of every run, at most one process is in the critical section. */
  lemma {:induction false} MutualExclusion(states: seq<State>, actors: seq<nat>, i: nat)
    requires Run(states, actors) && Initial(states[0]) && i < |states|
    ensures Inv(states[i])
  {
    if i > 0 {
      MutualExclusion(states, actors, i - 1);
      assert StepAt(states, actors, i - 1);
      StepKeepsInv(states[i - 1], states[i], actors[i - 1]);
    }
  }

  /** A process that ends without error or kill leaves all three keys, and the lock free. */
  lemma EndingLeavesKeys(states: seq<State>, actors: seq<nat>, i: nat)
    requires Run(states, actors) && Initial(states[0]) && i < |actors|
    requires actors[i] < |states[i].processes| && states[i].processes[actors[i]].phase.Release?
    requires !states[i].processes[actors[i]].phase.result.Error?
    requires actors[i] < |states[i + 1].processes| && states[i + 1].processes[actors[i]].phase == Done
    ensures Complete(states[i + 1].keys) && !states[i + 1].locked
  {
    MutualExclusion(states, actors, i);
    assert Progress(states[i], actors[i]);
    assert StepAt(states, actors, i);
  }

  /** One that ends without having generated anything has found all keys, and was not to overwrite them. */
  lemma KeptOnlyWhatIsComplete(states: seq<State>, actors: seq<nat>, i: nat, p: nat)
    requires Run(states, actors) && Initial(states[0]) && i < |states|
    requires p < |states[i].processes| && states[i].processes[p].phase == Release(Kept)
    ensures Complete(states[i].keys) && !states[i].processes[p].overwrite
  {
    MutualExclusion(states, actors, i);
    assert Progress(states[i], p);
  }

  // ---------------------------------------------------------------- existing keys stay

  /** All keys are there and nobody is about to change them. */
  ghost predicate Settled(s: State, keys: map<string, nat>) {
    s.keys == keys && Complete(keys) && forall p :: 0 <= p < |s.processes| ==> !Writing(s.processes[p].phase)
  }

  lemma SettledStays(s: State, s': State, p: nat, keys: map<string, nat>)
    requires Settled(s, keys) && Step(s, s', p) && !s.processes[p].overwrite
    ensures Settled(s', keys)
  {
    if s.processes[p].phase.Check? && s.processes[p].phase.next < |NAMES| {
      assert NAMES[s.processes[p].phase.next] in NAMES;
    }
  }

  ghost predicate NoOverwriting(states: seq<State>, actors: seq<nat>, first: nat, last: nat)
    requires Run(states, actors) && last < |states|
  {
    forall i :: first <= i < last ==> actors[i] < |states[i].processes| && !states[i].processes[actors[i]].overwrite
  }

  /**
  Once all three keys exist with the lock free, nothing that processes without the overwrite option
  do changes them.
   */
  lemma {:induction false} KeysStay(states: seq<State>, actors: seq<nat>, first: nat, last: nat)
    requires Run(states, actors) && Initial(states[0]) && first <= last < |states|
    requires !states[first].locked && Complete(states[first].keys)
    requires NoOverwriting(states, actors, first, last)
    ensures Settled(states[last], states[first].keys)
    decreases last
  {
    if last == first {
      MutualExclusion(states, actors, first);
    } else {
      KeysStay(states, actors, first, last - 1);
      assert StepAt(states, actors, last - 1);
      SettledStays(states[last - 1], states[last], actors[last - 1], states[first].keys);
    }
  }

  // ---------------------------------------------------------------- a lockfile left behind

  ghost predicate Abandoned(s: State) {
    s.locked && forall p :: 0 <= p < |s.processes| ==> !Critical(s.processes[p].phase)
  }

  /** A lockfile whose process was killed blocks everyone: no process enters any more, and the keys stay as they are. */
  lemma {:induction false} AbandonedForever(states: seq<State>, actors: seq<nat>, first: nat, last: nat)
    requires Run(states, actors) && first <= last < |states| && Abandoned(states[first])
    ensures Abandoned(states[last]) && states[last].keys == states[first].keys
    decreases last
  {
    if last > first {
      AbandonedForever(states, actors, first, last - 1);
      assert StepAt(states, actors, last - 1);
    }
  }

  /** Killing the process in the critical section abandons the lockfile. */
  lemma KillAbandons(s: State, s': State, p: nat)
    requires Exclusive(s) && p < |s.processes| && Critical(s.processes[p].phase) && IsKilled(s, s', p)
    ensures Abandoned(s')
  {
  }
}
