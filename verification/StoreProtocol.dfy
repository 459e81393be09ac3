/**
Concurrent processes on the image repository.

The metadata file is a path bound to an inode.  Every update reads the document under an
advisory lock, writes the new document to a temporary file, locks that file and renames it
over the metadata file; a Flock object keeps the descriptor, and so the inode, that it
opened first.  Each system call is one step, and a process may stop before any of them.
 */
module StoreProtocol {
  import opened Wrappers
  import opened ImageStore

  type Pid = nat
  type Ino = nat

  datatype Update = Put(entry: Entry) | Delete(key: string) | Reset

  function Apply(doc: Document, update: Update): Document {
    match update
    case Put(e) => Add(doc, e)
    case Delete(k) => Remove(doc, k)
    case Reset => []
  }

  /** What a process does; a find looks for the backing files once, and filesGone is what that look will tell. */
  datatype Op = AddImage(entry: Entry) | RemoveImage(key: string) | FindImage(key: string, filesGone: bool)

  datatype Mode = Shared | Exclusive

  function ModeOf(op: Op): Mode {
    if op.FindImage? then Shared else Exclusive
  }

  /** An update under way: the inode locked for it (none in the constructor), the document read, the change. */
  datatype Work = Work(held: Option<Ino>, base: Document, update: Update)

  datatype Pc =
    | Construct                          // ImageStore: does the metadata file exist?
    | Open                               // Flock: open the metadata file
    | Wait(ino: Ino)                     // Flock: lock the open descriptor
    | Read(ino: Ino)                     // read the metadata file under the lock
    | Convert(ino: Ino, shared: bool)    // convertToType: lock the same descriptor exclusively
    | Reread(ino: Ino)                   // findImage: read again under the exclusive lock
    | Prepared(work: Work)               // create the temporary file
    | Writing(work: Work, tmp: Ino)      // finish writing it
    | Written(work: Work, tmp: Ino)      // lock it
    | Locked(work: Work, tmp: Ino)       // rename it over the metadata file
    | Renamed(work: Work, tmp: Ino)      // release the old lock (move assignment)
    | HandedOver(update: Update, tmp: Ino)  // the moved-from Flock's destructor closes the descriptor
    | Closed(update: Update)             // the caller's Flock releases a closed descriptor: no effect
    | Release(ino: Ino, mode: Mode)      // nothing to update: the Flock's destructor
    | Finished(committed: bool)
    | Stopped(committed: bool)

  /** files[i] is the document in inode i, None while it is only partly written. */
  datatype State = State(
    path: Option<Ino>, files: seq<Option<Document>>, ops: seq<Op>, pcs: seq<Pc>, log: seq<(Pid, Update)>)
  {
    function Goto(p: Pid, pc: Pc): State
      requires p < |pcs|
    {
      this.(pcs := pcs[p := pc])
    }
  }

  predicate WellSized(s: State) { |s.ops| == |s.pcs| }

  /** The document a reader of the metadata file sees; None if there is no file or it is incomplete. */
  function Visible(s: State): Option<Document> {
    if s.path.Some? && s.path.value < |s.files| then s.files[s.path.value] else None
  }

  // ---------------------------------------------------------------- locks

  /** The lock a process holds on an inode, by the descriptors it has open. */
  function Holds(op: Op, pc: Pc, ino: Ino): Option<Mode> {
    match pc
    case Read(i) => if i == ino then Some(ModeOf(op)) else None
    case Convert(i, shared) => if i == ino && shared then Some(Shared) else None
    case Reread(i) => if i == ino then Some(Exclusive) else None
    case Prepared(w) => if w.held == Some(ino) then Some(Exclusive) else None
    case Writing(w, _) => if w.held == Some(ino) then Some(Exclusive) else None
    case Written(w, _) => if w.held == Some(ino) then Some(Exclusive) else None
    case Locked(w, tmp) => if w.held == Some(ino) || tmp == ino then Some(Exclusive) else None
    case Renamed(w, tmp) => if w.held == Some(ino) || tmp == ino then Some(Exclusive) else None
    case HandedOver(_, tmp) => if tmp == ino then Some(Exclusive) else None
    case Release(i, mode) => if i == ino then Some(mode) else None
    case _ => None
  }

  /** flock grants the lock: no other process holds a conflicting one. */
  predicate CanLock(s: State, p: Pid, ino: Ino, mode: Mode)
    requires WellSized(s)
  {
    forall q :: 0 <= q < |s.pcs| && q != p ==>
      var held := Holds(s.ops[q], s.pcs[q], ino);
      held == None || (held == Some(Shared) && mode.Shared?)
  }

  /** Readers do not exclude each other, and nothing excludes the only process on a file. */
  lemma ReadersShare(s: State, p: Pid, ino: Ino, mode: Mode)
    requires WellSized(s)
    requires forall q :: 0 <= q < |s.pcs| && q != p ==> Holds(s.ops[q], s.pcs[q], ino) in {None, Some(Shared)}
    requires mode.Shared? || forall q :: 0 <= q < |s.pcs| && q != p ==> Holds(s.ops[q], s.pcs[q], ino).None?
    ensures CanLock(s, p, ino, mode)
  {
  }

  // ---------------------------------------------------------------- steps

  function Committed(pc: Pc): bool {
    match pc
    case Renamed(w, _) => !w.update.Reset?
    case HandedOver(u, _) => !u.Reset?
    case Closed(u) => !u.Reset?
    case Finished(committed) => committed
    case Stopped(committed) => committed
    case _ => false
  }

  /** Where a process goes after reading document `doc` for the first time; findImage may find the backing files gone. */
  function AfterRead(op: Op, ino: Ino, doc: Document): Pc {
    match op
    case AddImage(e) => Prepared(Work(Some(ino), doc, Put(e)))
    case RemoveImage(k) => if k in View(doc) then Prepared(Work(Some(ino), doc, Delete(k))) else Release(ino, Exclusive)
    case FindImage(k, filesGone) => if k in View(doc) && filesGone then Convert(ino, true) else Release(ino, Shared)
  }

  function AfterReread(op: Op, ino: Ino, doc: Document): Pc {
    if op.FindImage? && op.key in View(doc) then Prepared(Work(Some(ino), doc, Delete(op.key))) else Release(ino, Exclusive)
  }

  /** Process p performs its next system call. */
  ghost predicate Step(s: State, s': State, p: Pid)
    requires WellSized(s) && p < |s.pcs|
  {
    var op := s.ops[p];
    match s.pcs[p]
    case Construct => s' == s.Goto(p, if s.path.Some? then Open else Prepared(Work(None, [], Reset)))
    case Open => s.path.Some? && s' == s.Goto(p, Wait(s.path.value))
    case Wait(i) => CanLock(s, p, i, ModeOf(op)) && s' == s.Goto(p, Read(i))
    case Read(i) => Visible(s).Some? && s' == s.Goto(p, AfterRead(op, i, Visible(s).value))
    case Convert(i, shared) =>
      if CanLock(s, p, i, Exclusive) then s' == s.Goto(p, Reread(i)) else s' == s.Goto(p, Convert(i, false))
    case Reread(i) => Visible(s).Some? && s' == s.Goto(p, AfterReread(op, i, Visible(s).value))
    case Prepared(w) => s' == s.Goto(p, Writing(w, |s.files|)).(files := s.files + [None])
    case Writing(w, tmp) =>
      tmp < |s.files| && s' == s.Goto(p, Written(w, tmp)).(files := s.files[tmp := Some(Apply(w.base, w.update))])
    case Written(w, tmp) => CanLock(s, p, tmp, Exclusive) && s' == s.Goto(p, Locked(w, tmp))
    case Locked(w, tmp) => s' == s.Goto(p, Renamed(w, tmp)).(path := Some(tmp), log := s.log + [(p, w.update)])
    case Renamed(w, tmp) => s' == s.Goto(p, HandedOver(w.update, tmp))
    case HandedOver(u, tmp) => s' == s.Goto(p, Closed(u))
    case Closed(u) => s' == s.Goto(p, if u.Reset? then Open else Finished(true))
    case Release(i, _) => s' == s.Goto(p, Finished(false))
    case Finished(_) => false
    case Stopped(_) => false
  }

  /** Process p stops (an exception, a timeout or a crash): its descriptors are closed. */
  predicate Stop(s: State, s': State, p: Pid)
    requires p < |s.pcs|
  {
    !s.pcs[p].Finished? && !s.pcs[p].Stopped? && s' == s.Goto(p, Stopped(Committed(s.pcs[p])))
  }

  ghost predicate Next(s: State, s': State, p: Pid) {
    WellSized(s) && p < |s.pcs| && (Step(s, s', p) || Stop(s, s', p))
  }

  /** All processes are about to construct their store; a metadata file, if any, is complete with distinct keys. */
  ghost predicate Init(s: State) {
    && WellSized(s)
    && (forall p :: 0 <= p < |s.pcs| ==> s.pcs[p] == Construct)
    && s.log == []
    && ((s.path == None && s.files == []) ||
        (s.path == Some(0) && |s.files| == 1 && s.files[0].Some? && DistinctKeys(s.files[0].value)))
  }

  ghost predicate NextAt(run: seq<State>, pids: seq<Pid>, i: nat)
    requires i < |pids| && i + 1 < |run|
  {
    Next(run[i], run[i + 1], pids[i])
  }

  ghost predicate Run(run: seq<State>, pids: seq<Pid>) {
    && |run| == |pids| + 1
    && Init(run[0])
    && forall i: nat :: i < |pids| ==> NextAt(run, pids, i)
  }

  // ---------------------------------------------------------------- the document, under every interleaving

  predicate HasWork(pc: Pc) { pc.Prepared? || pc.Writing? || pc.Written? || pc.Locked? }
  predicate HasTmp(pc: Pc) { pc.Writing? || pc.Written? || pc.Locked? }

  /** The temporary file of a process: not yet the metadata file, and complete once written. */
  predicate TmpInv(s: State, pc: Pc) {
    HasTmp(pc) ==>
      && pc.tmp < |s.files|
      && s.path != Some(pc.tmp)
      && (pc.Written? || pc.Locked? ==> s.files[pc.tmp] == Some(Apply(pc.work.base, pc.work.update)))
  }

  predicate FileInv(content: Option<Document>) {
    content.Some? ==> DistinctKeys(content.value)
  }

  ghost predicate DocInv(s: State) {
    && WellSized(s)
    && (s.path.Some? ==> s.path.value < |s.files| && s.files[s.path.value].Some?)
    && (forall i :: 0 <= i < |s.files| ==> FileInv(s.files[i]))
    && (forall p :: 0 <= p < |s.pcs| ==> TmpInv(s, s.pcs[p]))
    && (forall p :: 0 <= p < |s.pcs| && HasWork(s.pcs[p]) ==> DistinctKeys(s.pcs[p].work.base))
    && (forall p, q :: 0 <= p < |s.pcs| && 0 <= q < |s.pcs| && p != q && HasTmp(s.pcs[p]) && HasTmp(s.pcs[q]) ==>
          s.pcs[p].tmp != s.pcs[q].tmp)
  }

  lemma ApplyKeepsDistinct(doc: Document, update: Update)
    requires DistinctKeys(doc)
    ensures DistinctKeys(Apply(doc, update))
  {
    match update
    case Put(e) => AddKeepsDistinct(doc, e);
    case Delete(k) => RemoveKeepsDistinct(doc, k);
    case Reset =>
  }

  lemma InitDocInv(s: State)
    requires Init(s)
    ensures DocInv(s)
  {
  }

  /** A step that only moves the program counter of p. */
  lemma GotoKeepsDocInv(s: State, p: Pid, pc: Pc)
    requires DocInv(s) && p < |s.pcs|
    requires TmpInv(s, pc)
    requires HasWork(pc) ==> DistinctKeys(pc.work.base)
    requires HasTmp(pc) ==> HasTmp(s.pcs[p]) && pc.tmp == s.pcs[p].tmp
    ensures DocInv(s.Goto(p, pc))
  {
    var s' := s.Goto(p, pc);
    forall q | 0 <= q < |s'.pcs|
      ensures TmpInv(s', s'.pcs[q])
    {
      assert TmpInv(s, s.pcs[q]);
    }
  }

  /** Steps other than creating, writing and renaming a temporary file change one program counter only. */
  predicate Quiet(pc: Pc) { !pc.Prepared? && !pc.Writing? && !pc.Locked? }

  lemma QuietStepMoves(s: State, s': State, p: Pid)
    requires WellSized(s) && p < |s.pcs| && Quiet(s.pcs[p]) && Step(s, s', p)
    ensures |s'.pcs| == |s.pcs| && s' == s.Goto(p, s'.pcs[p]) && Committed(s'.pcs[p]) == Committed(s.pcs[p])
    ensures HasTmp(s'.pcs[p]) ==> s.pcs[p].Written? && s'.pcs[p] == Locked(s.pcs[p].work, s.pcs[p].tmp)
  {
  }

  /** Only the constructor and the reads start an update. */
  lemma QuietStepWork(s: State, s': State, p: Pid)
    requires WellSized(s) && p < |s.pcs| && Quiet(s.pcs[p]) && Step(s, s', p)
    requires |s'.pcs| == |s.pcs| && HasWork(s'.pcs[p])
    ensures var pc, work := s.pcs[p], s'.pcs[p].work;
      || (pc.Construct? && s.path.None? && work == Work(None, [], Reset))
      || (pc.Read? && !s.ops[p].FindImage? && work.held == Some(pc.ino) && Visible(s) == Some(work.base) && !work.update.Reset?)
      || (pc.Reread? && work.held == Some(pc.ino) && Visible(s) == Some(work.base) && !work.update.Reset?)
      || (pc.Written? && work == pc.work)
  {
  }

  lemma NextKeepsDocInv(s: State, s': State, p: Pid)
    requires DocInv(s) && Next(s, s', p)
    ensures DocInv(s') && |s'.pcs| == |s.pcs|
  {
    var pc := s.pcs[p];
    if Stop(s, s', p) {
      GotoKeepsDocInv(s, p, Stopped(Committed(pc)));
    } else if pc.Prepared? || pc.Writing? || pc.Locked? {
      WriteKeepsDocInv(s, s', p);
    } else {
      QuietStepMoves(s, s', p);
      if HasWork(s'.pcs[p]) {
        QuietStepWork(s, s', p);
        assert Visible(s).Some? ==> FileInv(s.files[s.path.value]);
      }
      assert TmpInv(s, pc);
      GotoKeepsDocInv(s, p, s'.pcs[p]);
    }
  }

  lemma WriteKeepsDocInv(s: State, s': State, p: Pid)
    requires DocInv(s) && p < |s.pcs| && Step(s, s', p)
    requires s.pcs[p].Prepared? || s.pcs[p].Writing? || s.pcs[p].Locked?
    ensures DocInv(s') && |s'.pcs| == |s.pcs|
  {
    var pc := s.pcs[p];
    ApplyKeepsDistinct(pc.work.base, pc.work.update);
    assert TmpInv(s, pc);
    forall q | 0 <= q < |s'.pcs|
      ensures TmpInv(s', s'.pcs[q])
    {
      assert TmpInv(s, s.pcs[q]);
    }
    forall i | 0 <= i < |s'.files|
      ensures FileInv(s'.files[i])
    {
      assert i < |s.files| ==> FileInv(s.files[i]);
    }
  }

  lemma {:induction false} RunDocInv(run: seq<State>, pids: seq<Pid>, i: nat)
    requires Run(run, pids) && i < |run|
    ensures DocInv(run[i]) && |run[i].pcs| == |run[0].pcs|
  {
    if i == 0 {
      InitDocInv(run[0]);
    } else {
      RunDocInv(run, pids, i - 1);
      assert NextAt(run, pids, i - 1);
      NextKeepsDocInv(run[i - 1], run[i], pids[i - 1]);
    }
  }

  /**
  Under every interleaving, with stops anywhere and the constructors included, the metadata
  path names nothing or a complete document with pairwise distinct keys, and once it names a
  document it always will.
   */
  lemma {:induction false} DocumentAlwaysComplete(run: seq<State>, pids: seq<Pid>, i: nat)
    requires Run(run, pids) && i < |run|
    ensures run[i].path.Some? ==> Visible(run[i]).Some? && DistinctKeys(Visible(run[i]).value)
    ensures i > 0 && run[i - 1].path.Some? ==> run[i].path.Some?
  {
    RunDocInv(run, pids, i);
    assert run[i].path.Some? ==> FileInv(run[i].files[run[i].path.value]);
    if i > 0 {
      assert NextAt(run, pids, i - 1);
    }
  }

  /** Every step shows readers the old document, or, by one rename, the new document of the process that took it. */
  lemma OldOrNewDocument(s: State, s': State, p: Pid)
    requires DocInv(s) && Next(s, s', p)
    ensures Visible(s') == Visible(s) ||
            (s.pcs[p].Locked? && Visible(s') == Some(Apply(s.pcs[p].work.base, s.pcs[p].work.update)))
  {
    assert TmpInv(s, s.pcs[p]);
  }

  // ---------------------------------------------------------------- serialisability

  /** The document after the logged updates, in commit order. */
  function Replay(start: Document, log: seq<(Pid, Update)>): Document {
    if log == [] then start else Apply(Replay(start, log[..|log| - 1]), log[|log| - 1].1)
  }

  function Commits(log: seq<(Pid, Update)>, p: Pid): nat {
    if log == [] then 0 else Commits(log[..|log| - 1], p) + (if log[|log| - 1].0 == p then 1 else 0)
  }

  lemma LogAppend(start: Document, log: seq<(Pid, Update)>, p: Pid, u: Update, q: Pid)
    ensures Replay(start, log + [(p, u)]) == Apply(Replay(start, log), u)
    ensures Commits(log + [(p, u)], q) == Commits(log, q) + (if p == q then 1 else 0)
  {
    assert (log + [(p, u)])[..|log|] == log;
  }

  /** Two documents differ at most in what they hold under the key of the update. */
  predicate AgreeOutside(a: Document, b: Document, update: Update) {
    match update
    case Put(e) => WithoutKey(a, e.uniqueKey) == WithoutKey(b, e.uniqueKey)
    case Delete(k) => WithoutKey(a, k) == WithoutKey(b, k)
    case Reset => true
  }

  /** An update makes no difference between two documents exactly if they agree outside its key. */
  lemma ApplyEqualIff(a: Document, b: Document, update: Update)
    requires DistinctKeys(a) && DistinctKeys(b)
    ensures Apply(a, update) == Apply(b, update) <==> AgreeOutside(a, b, update)
  {
    match update
    case Put(e) =>
      var a', b' := WithoutKey(a, e.uniqueKey), WithoutKey(b, e.uniqueKey);
      assert (a' + [e])[..|a'|] == a' && (b' + [e])[..|b'|] == b';
    case Delete(k) =>
      RemoveIsWithoutKey(a, k);
      RemoveIsWithoutKey(b, k);
    case Reset =>
  }

  /** The i-th step of the run is a rename. */
  predicate RenameAt(run: seq<State>, pids: seq<Pid>, i: nat)
    requires i < |pids| && i + 1 < |run|
  {
    pids[i] < |run[i].pcs| && run[i].pcs[pids[i]].Locked? && run[i + 1].log != run[i].log
  }

  /** A rename, if the i-th step is one, replaces a document that agrees with the one read outside the key of the update. */
  predicate RenameAgrees(run: seq<State>, pids: seq<Pid>, i: nat)
    requires i < |pids| && i + 1 < |run|
  {
    RenameAt(run, pids, i) ==>
      var work := run[i].pcs[pids[i]].work;
      Visible(run[i]).Some? && AgreeOutside(work.base, Visible(run[i]).value, work.update)
  }

  predicate SerialAt(s: State, start: Document) { Visible(s) == Some(Replay(start, s.log)) }

  /** A step keeps the document equal to the logged updates exactly if it is no rename over a document that differs elsewhere. */
  lemma SerialStep(run: seq<State>, pids: seq<Pid>, i: nat, start: Document)
    requires Run(run, pids) && i < |pids| && SerialAt(run[i], start)
    ensures SerialAt(run[i + 1], start) <==> RenameAgrees(run, pids, i)
  {
    var s, s', p := run[i], run[i + 1], pids[i];
    RunDocInv(run, pids, i);
    assert NextAt(run, pids, i);
    if s.pcs[p].Locked? && Step(s, s', p) {
      var work := s.pcs[p].work;
      assert TmpInv(s, s.pcs[p]);
      LogAppend(start, s.log, p, work.update, p);
      assert FileInv(s.files[s.path.value]);
      ApplyEqualIff(work.base, Visible(s).value, work.update);
      assert RenameAt(run, pids, i);
    } else {
      QuietForReaders(s, s', p);
    }
  }

  lemma QuietForReaders(s: State, s': State, p: Pid)
    requires DocInv(s) && Next(s, s', p) && !(s.pcs[p].Locked? && Step(s, s', p))
    ensures Visible(s') == Visible(s) && s'.log == s.log
  {
    assert TmpInv(s, s.pcs[p]);
  }

  ghost predicate SerialUpTo(run: seq<State>, n: nat, start: Document)
    requires n < |run|
  {
    forall i :: 0 <= i <= n ==> SerialAt(run[i], start)
  }

  ghost predicate RenamesAgreeUpTo(run: seq<State>, pids: seq<Pid>, n: nat)
    requires |run| == |pids| + 1 && n <= |pids|
  {
    forall i :: 0 <= i < n ==> RenameAgrees(run, pids, i)
  }

  lemma SerialAtStart(s: State)
    requires Init(s) && s.path.Some?
    ensures SerialAt(s, Visible(s).value)
  {
  }

  lemma SerialUpToNext(run: seq<State>, n: nat, start: Document)
    requires 0 < n < |run|
    ensures SerialUpTo(run, n, start) <==> SerialUpTo(run, n - 1, start) && SerialAt(run[n], start)
  {
  }

  lemma RenamesAgreeUpToNext(run: seq<State>, pids: seq<Pid>, n: nat)
    requires |run| == |pids| + 1 && 0 < n <= |pids|
    ensures RenamesAgreeUpTo(run, pids, n) <==> RenamesAgreeUpTo(run, pids, n - 1) && RenameAgrees(run, pids, n - 1)
  {
  }

  /**
  For every run from an existing file: the document is always the result of the committed updates in
  commit order exactly if every rename replaces a document that agrees, outside the key of its
  update, with the one the process had read.
   */
  lemma {:induction false} SerialisableIff(run: seq<State>, pids: seq<Pid>, n: nat)
    requires Run(run, pids) && run[0].path.Some? && n < |run|
    ensures SerialUpTo(run, n, Visible(run[0]).value) <==> RenamesAgreeUpTo(run, pids, n)
  {
    var start := Visible(run[0]).value;
    if n == 0 {
      SerialAtStart(run[0]);
    } else {
      SerialisableIff(run, pids, n - 1);
      SerialUpToNext(run, n, start);
      RenamesAgreeUpToNext(run, pids, n);
      if SerialUpTo(run, n - 1, start) {
        SerialStep(run, pids, n - 1, start);
      }
    }
  }

  // ---------------------------------------------------------------- every commit once

  /** The updates of a process that started with a metadata file are not initialisations. */
  predicate NoReset(pc: Pc) {
    match pc
    case Prepared(w) => !w.update.Reset?
    case Writing(w, _) => !w.update.Reset?
    case Written(w, _) => !w.update.Reset?
    case Locked(w, _) => !w.update.Reset?
    case Renamed(w, _) => !w.update.Reset?
    case HandedOver(u, _) => !u.Reset?
    case Closed(u) => !u.Reset?
    case _ => true
  }

  predicate CountInv(s: State, p: Pid)
    requires p < |s.pcs|
  {
    NoReset(s.pcs[p]) && Commits(s.log, p) == if Committed(s.pcs[p]) then 1 else 0
  }

  ghost predicate CommitInv(s: State) {
    WellSized(s) && s.path.Some? && forall p :: 0 <= p < |s.pcs| ==> CountInv(s, p)
  }

  /** A step changes the program counter of one process, and the log by a rename only. */
  lemma StepOfOne(s: State, s': State, p: Pid)
    requires s.path.Some? && Next(s, s', p)
    ensures WellSized(s') && s'.path.Some? && |s'.pcs| == |s.pcs| && s'.pcs == s.pcs[p := s'.pcs[p]]
    ensures if s.pcs[p].Locked? && s'.pcs[p].Renamed? then s'.log == s.log + [(p, s.pcs[p].work.update)] else s'.log == s.log
  {
  }

  lemma StepOfOneCounts(s: State, s': State, p: Pid)
    requires s.path.Some? && Next(s, s', p) && NoReset(s.pcs[p]) && |s'.pcs| == |s.pcs|
    ensures NoReset(s'.pcs[p])
    ensures Committed(s'.pcs[p]) <==> Committed(s.pcs[p]) || (s.pcs[p].Locked? && s'.pcs[p].Renamed?)
    ensures s.pcs[p].Locked? ==> !Committed(s.pcs[p])
  {
  }

  lemma NextKeepsCommitInv(s: State, s': State, p: Pid)
    requires CommitInv(s) && Next(s, s', p)
    ensures CommitInv(s')
  {
    StepOfOne(s, s', p);
    assert CountInv(s, p);
    StepOfOneCounts(s, s', p);
    forall q | 0 <= q < |s'.pcs|
      ensures CountInv(s', q)
    {
      assert CountInv(s, q);
      if s.pcs[p].Locked? {
        LogAppend([], s.log, p, s.pcs[p].work.update, q);
      }
    }
  }

  /** In every run from an existing file, fresh reads or not, a process is in the log once if it committed, else not at all. */
  lemma {:induction false} CommitsOnce(run: seq<State>, pids: seq<Pid>, i: nat)
    requires Run(run, pids) && run[0].path.Some? && i < |run|
    ensures CommitInv(run[i])
  {
    if i > 0 {
      CommitsOnce(run, pids, i - 1);
      assert NextAt(run, pids, i - 1);
      NextKeepsCommitInv(run[i - 1], run[i], pids[i - 1]);
    }
  }

  // ---------------------------------------------------------------- every commit is what the operation asks for

  /** The update that an operation may commit: an addition its entry, a removal or a find without files its key's deletion. */
  predicate Fits(op: Op, update: Update) {
    match op
    case AddImage(e) => update == Put(e)
    case RemoveImage(k) => update == Delete(k)
    case FindImage(k, filesGone) => filesGone && update == Delete(k)
  }

  /** Where a find is only if it missed the files. */
  predicate SoughtFiles(op: Op, pc: Pc) {
    (pc.Convert? ==> op.FindImage? && op.filesGone) && (pc.Reread? ==> op.FindImage? && op.filesGone)
  }

  predicate UpdateInv(op: Op, pc: Pc) {
    SoughtFiles(op, pc) && (HasWork(pc) ==> Fits(op, pc.work.update))
  }

  ghost predicate OpsInv(s: State) {
    && WellSized(s) && s.path.Some?
    && (forall p :: 0 <= p < |s.pcs| ==> UpdateInv(s.ops[p], s.pcs[p]))
    && (forall j :: 0 <= j < |s.log| ==> s.log[j].0 < |s.ops| && Fits(s.ops[s.log[j].0], s.log[j].1))
  }

  lemma NextKeepsOpsInv(s: State, s': State, p: Pid)
    requires OpsInv(s) && Next(s, s', p)
    ensures OpsInv(s') && s'.ops == s.ops
  {
    StepOfOne(s, s', p);
    assert UpdateInv(s.ops[p], s.pcs[p]);
    assert UpdateInv(s'.ops[p], s'.pcs[p]);
    forall q | 0 <= q < |s'.pcs|
      ensures UpdateInv(s'.ops[q], s'.pcs[q])
    {
      assert UpdateInv(s.ops[q], s.pcs[q]);
    }
  }

  lemma {:induction false} RunOpsInv(run: seq<State>, pids: seq<Pid>, i: nat)
    requires Run(run, pids) && run[0].path.Some? && i < |run|
    ensures OpsInv(run[i]) && run[i].ops == run[0].ops
  {
    if i > 0 {
      RunOpsInv(run, pids, i - 1);
      assert NextAt(run, pids, i - 1);
      NextKeepsOpsInv(run[i - 1], run[i], pids[i - 1]);
    }
  }

  /**
  In every run from an existing file, every committed update is the one its process was asked for: an
  addition puts its entry, a removal deletes its key, and a find deletes its key only if it missed the files.
   */
  lemma CommitsAreAskedFor(run: seq<State>, pids: seq<Pid>, i: nat, j: nat)
    requires Run(run, pids) && run[0].path.Some? && i < |run| && j < |run[i].log|
    ensures run[i].log[j].0 < |run[0].ops|
    ensures match run[0].ops[run[i].log[j].0]
      case AddImage(e) => run[i].log[j].1 == Put(e)
      case RemoveImage(k) => run[i].log[j].1 == Delete(k)
      case FindImage(k, filesGone) => filesGone && run[i].log[j].1 == Delete(k)
  {
    RunOpsInv(run, pids, i);
  }

  /** The i-th step is process p reading the document: for the first time, or again after a conversion. */
  predicate ReadsAt(run: seq<State>, pids: seq<Pid>, p: Pid, i: nat) {
    && i < |pids| && i + 1 < |run| && pids[i] == p && p < |run[i].pcs| && p < |run[i + 1].pcs|
    && run[i].pcs[p].Read? && !run[i + 1].pcs[p].Stopped?
  }

  predicate RereadsAt(run: seq<State>, pids: seq<Pid>, p: Pid, i: nat) {
    && i < |pids| && i + 1 < |run| && pids[i] == p && p < |run[i].pcs| && p < |run[i + 1].pcs|
    && run[i].pcs[p].Reread? && !run[i + 1].pcs[p].Stopped?
  }

  /** The process is on the way to its commit, or has made it; a stopped one may be either. */
  predicate HeadsForCommit(pc: Pc) {
    HasWork(pc) || pc.Renamed? || pc.HandedOver? || pc.Closed? || pc == Finished(true) || pc.Stopped?
  }

  /** The process leaves without a commit. */
  predicate Leaves(pc: Pc) { pc.Release? || pc == Finished(false) || pc == Stopped(false) }

  lemma DecidedStays(s: State, s': State, p: Pid, q: Pid)
    requires CommitInv(s) && Next(s, s', p) && q < |s.pcs|
    ensures q < |s'.pcs|
    ensures HeadsForCommit(s.pcs[q]) ==> HeadsForCommit(s'.pcs[q])
    ensures Leaves(s.pcs[q]) ==> Leaves(s'.pcs[q])
  {
    StepOfOne(s, s', p);
    assert CountInv(s, p);
  }

  lemma {:induction false} DecisionHolds(run: seq<State>, pids: seq<Pid>, first: nat, last: nat, p: Pid)
    requires Run(run, pids) && run[0].path.Some? && first <= last < |run| && p < |run[first].pcs|
    ensures p < |run[last].pcs|
    ensures HeadsForCommit(run[first].pcs[p]) ==> HeadsForCommit(run[last].pcs[p])
    ensures Leaves(run[first].pcs[p]) ==> Leaves(run[last].pcs[p])
    decreases last
  {
    if first < last {
      DecisionHolds(run, pids, first, last - 1, p);
      CommitsOnce(run, pids, last - 1);
      assert NextAt(run, pids, last - 1);
      DecidedStays(run[last - 1], run[last], pids[last - 1], p);
    }
  }

  /** What the document says when process p reads it at step j, or again at step j. */
  predicate Saw(run: seq<State>, j: nat, key: string) {
    j < |run| && Visible(run[j]).Some? && key in View(Visible(run[j]).value)
  }

  lemma ReadDecides(run: seq<State>, pids: seq<Pid>, p: Pid, j: nat)
    requires Run(run, pids) && run[0].path.Some? && ReadsAt(run, pids, p, j)
    ensures p < |run[0].ops|
    ensures match run[0].ops[p]
      case AddImage(_) => HeadsForCommit(run[j + 1].pcs[p])
      case RemoveImage(k) => if Saw(run, j, k) then HeadsForCommit(run[j + 1].pcs[p]) else Leaves(run[j + 1].pcs[p])
      case FindImage(k, filesGone) => if Saw(run, j, k) && filesGone then run[j + 1].pcs[p].Convert? else Leaves(run[j + 1].pcs[p])
  {
    RunOpsInv(run, pids, j);
    assert NextAt(run, pids, j);
  }

  lemma RereadDecides(run: seq<State>, pids: seq<Pid>, p: Pid, j: nat)
    requires Run(run, pids) && run[0].path.Some? && RereadsAt(run, pids, p, j)
    ensures p < |run[0].ops| && run[0].ops[p].FindImage? && run[0].ops[p].filesGone
    ensures if Saw(run, j, run[0].ops[p].key) then HeadsForCommit(run[j + 1].pcs[p]) else Leaves(run[j + 1].pcs[p])
  {
    RunOpsInv(run, pids, j);
    assert UpdateInv(run[j].ops[p], run[j].pcs[p]);
    assert NextAt(run, pids, j);
  }

  /** A finished process is in the log exactly if it said so. */
  lemma FinishedIsLogged(run: seq<State>, pids: seq<Pid>, i: nat, p: Pid)
    requires Run(run, pids) && run[0].path.Some? && i < |run| && p < |run[i].pcs| && run[i].pcs[p].Finished?
    ensures Commits(run[i].log, p) == if run[i].pcs[p].committed then 1 else 0
  {
    CommitsOnce(run, pids, i);
    assert CountInv(run[i], p);
  }

  /** An addition that finishes has committed. */
  lemma AddCommits(run: seq<State>, pids: seq<Pid>, i: nat, p: Pid, j: nat)
    requires Run(run, pids) && run[0].path.Some? && j < i < |run| && p < |run[0].ops| && run[0].ops[p].AddImage?
    requires ReadsAt(run, pids, p, j) && p < |run[i].pcs| && run[i].pcs[p].Finished?
    ensures Commits(run[i].log, p) == 1
  {
    ReadDecides(run, pids, p, j);
    DecisionHolds(run, pids, j + 1, i, p);
    FinishedIsLogged(run, pids, i, p);
  }

  /** A removal that finishes has committed exactly if its key was in the document it read. */
  lemma RemoveCommitsIff(run: seq<State>, pids: seq<Pid>, i: nat, p: Pid, j: nat)
    requires Run(run, pids) && run[0].path.Some? && j < i < |run| && p < |run[0].ops| && run[0].ops[p].RemoveImage?
    requires ReadsAt(run, pids, p, j) && p < |run[i].pcs| && run[i].pcs[p].Finished?
    ensures Commits(run[i].log, p) == if Saw(run, j, run[0].ops[p].key) then 1 else 0
  {
    ReadDecides(run, pids, p, j);
    DecisionHolds(run, pids, j + 1, i, p);
    FinishedIsLogged(run, pids, i, p);
  }

  /** A find that did not see its key, or saw the files, commits nothing. */
  lemma FindLeaves(run: seq<State>, pids: seq<Pid>, i: nat, p: Pid, j: nat)
    requires Run(run, pids) && run[0].path.Some? && j < i < |run| && p < |run[0].ops| && run[0].ops[p].FindImage?
    requires ReadsAt(run, pids, p, j) && p < |run[i].pcs| && run[i].pcs[p].Finished?
    requires !Saw(run, j, run[0].ops[p].key) || !run[0].ops[p].filesGone
    ensures Commits(run[i].log, p) == 0
  {
    ReadDecides(run, pids, p, j);
    DecisionHolds(run, pids, j + 1, i, p);
    FinishedIsLogged(run, pids, i, p);
  }

  /** One that reads again under the exclusive lock commits exactly if its key is still there. */
  lemma FindCommitsIff(run: seq<State>, pids: seq<Pid>, i: nat, p: Pid, j: nat)
    requires Run(run, pids) && run[0].path.Some? && j < i < |run|
    requires RereadsAt(run, pids, p, j) && p < |run[i].pcs| && run[i].pcs[p].Finished?
    ensures p < |run[0].ops| && run[0].ops[p].FindImage?
    ensures Commits(run[i].log, p) == if Saw(run, j, run[0].ops[p].key) then 1 else 0
  {
    RereadDecides(run, pids, p, j);
    DecisionHolds(run, pids, j + 1, i, p);
    FinishedIsLogged(run, pids, i, p);
  }

  /** Beyond its first read. */
  predicate PastRead(pc: Pc) { !pc.Construct? && !pc.Open? && !pc.Wait? && !pc.Read? && !pc.Stopped? }

  predicate PastReread(pc: Pc) { PastRead(pc) && !pc.Convert? && !pc.Reread? }

  /** Whoever finishes has read the document, and before it finished. */
  lemma {:induction false} ReadHappened(run: seq<State>, pids: seq<Pid>, i: nat, p: Pid) returns (j: nat)
    requires Run(run, pids) && run[0].path.Some? && i < |run| && p < |run[i].pcs| && PastRead(run[i].pcs[p])
    ensures j < i && ReadsAt(run, pids, p, j)
  {
    CommitsOnce(run, pids, i - 1);
    assert NextAt(run, pids, i - 1);
    StepOfOne(run[i - 1], run[i], pids[i - 1]);
    if PastRead(run[i - 1].pcs[p]) {
      j := ReadHappened(run, pids, i - 1, p);
    } else {
      j := i - 1;
    }
  }

  /** A find that saw its key and missed the files reads again before it finishes. */
  lemma {:induction false} RereadHappened(run: seq<State>, pids: seq<Pid>, i: nat, p: Pid, j: nat) returns (k: nat)
    requires Run(run, pids) && run[0].path.Some? && j < i < |run| && p < |run[0].ops| && run[0].ops[p].FindImage?
    requires ReadsAt(run, pids, p, j) && Saw(run, j, run[0].ops[p].key) && run[0].ops[p].filesGone
    requires p < |run[i].pcs| && PastReread(run[i].pcs[p])
    ensures j < k < i && RereadsAt(run, pids, p, k)
  {
    ReadDecides(run, pids, p, j);
    CommitsOnce(run, pids, i - 1);
    assert NextAt(run, pids, i - 1);
    StepOfOne(run[i - 1], run[i], pids[i - 1]);
    if PastReread(run[i - 1].pcs[p]) {
      k := RereadHappened(run, pids, i - 1, p, j);
    } else {
      ConvertOrReread(run, pids, j, i - 1, p);
      k := i - 1;
    }
  }

  lemma {:induction false} ConvertOrReread(run: seq<State>, pids: seq<Pid>, first: nat, last: nat, p: Pid)
    requires Run(run, pids) && run[0].path.Some? && first < last < |run| && p < |run[first + 1].pcs|
    requires run[first + 1].pcs[p].Convert?
    ensures p < |run[last].pcs| && (PastRead(run[last].pcs[p]) || run[last].pcs[p].Stopped?)
    decreases last
  {
    if first + 1 < last {
      ConvertOrReread(run, pids, first, last - 1, p);
      CommitsOnce(run, pids, last - 1);
      assert CommitInv(run[last - 1]) && CountInv(run[last - 1], p);
      assert NextAt(run, pids, last - 1);
      StepOfOne(run[last - 1], run[last], pids[last - 1]);
    }
  }

  // ---------------------------------------------------------------- fresh reads

  /** If p is about to read the document it will update, the inode it locked is the one the path names. */
  predicate FreshRead(s: State, p: Pid)
    requires WellSized(s) && p < |s.pcs|
  {
    (s.pcs[p].Read? && !s.ops[p].FindImage?) || s.pcs[p].Reread? ==> s.path == Some(s.pcs[p].ino)
  }

  predicate Excludes(s: State, p: Pid, q: Pid, ino: Ino)
    requires WellSized(s) && p < |s.pcs| && q < |s.pcs|
  {
    p != q && Holds(s.ops[p], s.pcs[p], ino) == Some(Exclusive) ==> Holds(s.ops[q], s.pcs[q], ino) == None
  }

  /** flock keeps an exclusive lock exclusive. */
  ghost predicate LockInv(s: State)
    requires WellSized(s)
  {
    forall p: Pid, q: Pid, ino: Ino :: p < |s.pcs| && q < |s.pcs| ==> Excludes(s, p, q, ino)
  }

  /** An update under way works on the visible document and holds the lock of its inode. */
  predicate WorkInv(s: State, pc: Pc) {
    HasWork(pc) ==> pc.work.held == s.path && Some(pc.work.base) == Visible(s)
  }

  ghost predicate FreshInv(s: State) {
    DocInv(s) && s.path.Some? && LockInv(s) && forall p :: 0 <= p < |s.pcs| ==> WorkInv(s, s.pcs[p])
  }

  /** A lock that p gains is one that flock grants. */
  ghost predicate LocksGranted(s: State, p: Pid, pc: Pc)
    requires WellSized(s) && p < |s.pcs|
  {
    forall ino: Ino :: Holds(s.ops[p], pc, ino).Some? ==>
      || Holds(s.ops[p], s.pcs[p], ino) == Holds(s.ops[p], pc, ino)
      || CanLock(s, p, ino, Holds(s.ops[p], pc, ino).value)
  }

  lemma GotoKeepsLockInv(s: State, p: Pid, pc: Pc)
    requires WellSized(s) && LockInv(s) && p < |s.pcs| && LocksGranted(s, p, pc)
    ensures LockInv(s.Goto(p, pc))
  {
    var s' := s.Goto(p, pc);
    forall a: Pid, b: Pid, ino: Ino | a < |s'.pcs| && b < |s'.pcs|
      ensures Excludes(s', a, b, ino)
    {
      assert Excludes(s, a, b, ino) && Excludes(s, b, a, ino);
    }
  }

  lemma SameLocks(s: State, s': State)
    requires WellSized(s) && LockInv(s) && s'.ops == s.ops && s'.pcs == s.pcs
    ensures LockInv(s')
  {
    forall a: Pid, b: Pid, ino: Ino | a < |s'.pcs| && b < |s'.pcs|
      ensures Excludes(s', a, b, ino)
    {
      assert Excludes(s, a, b, ino);
    }
  }

  /** A step that only moves the program counter of p. */
  lemma GotoKeepsFreshInv(s: State, p: Pid, pc: Pc)
    requires FreshInv(s) && p < |s.pcs| && LocksGranted(s, p, pc) && WorkInv(s, pc)
    requires DocInv(s.Goto(p, pc))
    ensures FreshInv(s.Goto(p, pc))
  {
    var s' := s.Goto(p, pc);
    GotoKeepsLockInv(s, p, pc);
    forall q | 0 <= q < |s'.pcs|
      ensures WorkInv(s', s'.pcs[q])
    {
      assert WorkInv(s, s.pcs[q]);
    }
  }

  lemma WriteKeepsFreshInv(s: State, s': State, p: Pid)
    requires FreshInv(s) && p < |s.pcs| && Step(s, s', p)
    requires s.pcs[p].Prepared? || s.pcs[p].Writing?
    ensures FreshInv(s')
  {
    NextKeepsDocInv(s, s', p);
    assert TmpInv(s, s.pcs[p]) && WorkInv(s, s.pcs[p]);
    assert Visible(s') == Visible(s);
    GotoKeepsLockInv(s, p, s'.pcs[p]);
    SameLocks(s.Goto(p, s'.pcs[p]), s');
    forall q | 0 <= q < |s'.pcs|
      ensures WorkInv(s', s'.pcs[q])
    {
      assert WorkInv(s, s.pcs[q]);
    }
  }

  lemma QuietStepLocks(s: State, s': State, p: Pid)
    requires WellSized(s) && p < |s.pcs| && Quiet(s.pcs[p]) && Step(s, s', p)
    requires |s'.pcs| == |s.pcs|
    ensures LocksGranted(s, p, s'.pcs[p])
  {
  }

  /** At a rename no other update is under way: it would hold the same exclusive lock. */
  lemma RenameIsAlone(s: State, p: Pid, q: Pid)
    requires FreshInv(s) && p < |s.pcs| && q < |s.pcs| && p != q
    requires s.pcs[p].Locked?
    ensures !HasWork(s.pcs[q])
  {
    assert WorkInv(s, s.pcs[p]) && WorkInv(s, s.pcs[q]);
    assert Excludes(s, p, q, s.path.value);
  }

  lemma RenameKeepsFreshInv(s: State, s': State, p: Pid)
    requires FreshInv(s) && p < |s.pcs| && Step(s, s', p)
    requires s.pcs[p].Locked?
    ensures FreshInv(s')
  {
    NextKeepsDocInv(s, s', p);
    GotoKeepsLockInv(s, p, s'.pcs[p]);
    SameLocks(s.Goto(p, s'.pcs[p]), s');
    forall q | 0 <= q < |s'.pcs|
      ensures WorkInv(s', s'.pcs[q])
    {
      if q != p {
        RenameIsAlone(s, p, q);
      }
    }
  }

  lemma NextKeepsFreshInv(s: State, s': State, p: Pid)
    requires FreshInv(s) && Next(s, s', p) && FreshRead(s, p)
    ensures FreshInv(s')
  {
    NextKeepsDocInv(s, s', p);
    var pc := s.pcs[p];
    if Stop(s, s', p) {
      GotoKeepsFreshInv(s, p, Stopped(Committed(pc)));
    } else if pc.Prepared? || pc.Writing? {
      WriteKeepsFreshInv(s, s', p);
    } else if pc.Locked? {
      RenameKeepsFreshInv(s, s', p);
    } else {
      QuietStepMoves(s, s', p);
      QuietStepLocks(s, s', p);
      assert WorkInv(s, s'.pcs[p]) by {
        assert WorkInv(s, pc);
        if HasWork(s'.pcs[p]) {
          QuietStepWork(s, s', p);
        }
      }
      GotoKeepsFreshInv(s, p, s'.pcs[p]);
    }
  }

  ghost predicate FreshRun(run: seq<State>, pids: seq<Pid>)
    requires Run(run, pids)
  {
    forall i: nat :: i < |pids| && WellSized(run[i]) && pids[i] < |run[i].pcs| ==> FreshRead(run[i], pids[i])
  }

  lemma {:induction false} RunFreshInv(run: seq<State>, pids: seq<Pid>, i: nat)
    requires Run(run, pids) && run[0].path.Some? && FreshRun(run, pids) && i < |run|
    ensures FreshInv(run[i])
  {
    if i == 0 {
      InitDocInv(run[0]);
    } else {
      RunFreshInv(run, pids, i - 1);
      assert NextAt(run, pids, i - 1);
      NextKeepsFreshInv(run[i - 1], run[i], pids[i - 1]);
    }
  }

  /** With fresh reads the document in place at a rename is the one that was read. */
  lemma FreshRenameAgrees(run: seq<State>, pids: seq<Pid>, i: nat)
    requires Run(run, pids) && run[0].path.Some? && FreshRun(run, pids) && i < |pids|
    ensures RenameAgrees(run, pids, i)
  {
    RunFreshInv(run, pids, i);
    if RenameAt(run, pids, i) {
      assert WorkInv(run[i], run[i].pcs[pids[i]]);
    }
  }

  /**
  If every writer's locked inode is the one the path names when it reads, then in every
  interleaving the document is the result of the committed updates in commit order, and
  every process that committed is in that order exactly once.
   */
  lemma Serialisability(run: seq<State>, pids: seq<Pid>, i: nat, p: Pid)
    requires Run(run, pids) && run[0].path.Some? && FreshRun(run, pids)
    requires i < |run| && p < |run[i].pcs|
    ensures Visible(run[i]) == Some(Replay(Visible(run[0]).value, run[i].log))
    ensures Commits(run[i].log, p) == if Committed(run[i].pcs[p]) then 1 else 0
  {
    forall j: nat | j < i
      ensures RenameAgrees(run, pids, j)
    {
      FreshRenameAgrees(run, pids, j);
    }
    SerialisableIff(run, pids, i);
    assert SerialAt(run[i], Visible(run[0]).value);
    CommitsOnce(run, pids, i);
    assert CountInv(run[i], p);
  }

  /** The key an update is about. */
  predicate Touches(update: Update, key: string) {
    match update
    case Put(e) => e.uniqueKey == key
    case Delete(k) => k == key
    case Reset => true
  }

  lemma {:induction false} ReplayDistinct(start: Document, log: seq<(Pid, Update)>)
    requires DistinctKeys(start)
    ensures DistinctKeys(Replay(start, log))
  {
    if log != [] {
      ReplayDistinct(start, log[..|log| - 1]);
      ApplyKeepsDistinct(Replay(start, log[..|log| - 1]), log[|log| - 1].1);
    }
  }

  /** No update is lost: an image added by a committed update stays until a later one names its key. */
  lemma {:induction false} AddedImageStays(start: Document, log: seq<(Pid, Update)>, j: nat)
    requires DistinctKeys(start) && j < |log| && log[j].1.Put?
    requires forall k :: j < k < |log| ==> !Touches(log[k].1, log[j].1.entry.uniqueKey)
    ensures var e := log[j].1.entry; var view := View(Replay(start, log)); e.uniqueKey in view && view[e.uniqueKey] == e
    decreases |log|
  {
    var before := Replay(start, log[..|log| - 1]);
    ReplayDistinct(start, log[..|log| - 1]);
    match log[|log| - 1].1 {
      case Put(e) => AddIsMapUpdate(before, e);
      case Delete(k) => RemoveIsMapRemoval(before, k);
      case Reset =>
    }
    if j < |log| - 1 {
      AddedImageStays(start, log[..|log| - 1], j);
      assert !Touches(log[|log| - 1].1, log[j].1.entry.uniqueKey);
    }
  }

  // ---------------------------------------------------------------- why the reads must be fresh

  lemma Extend(run: seq<State>, pids: seq<Pid>, s: State, p: Pid) returns (run': seq<State>, pids': seq<Pid>)
    requires Run(run, pids) && Next(run[|run| - 1], s, p)
    ensures Run(run', pids') && run'[|run'| - 1] == s && run'[0] == run[0]
  {
    run', pids' := run + [s], pids + [p];
    forall i: nat | i < |pids'|
      ensures NextAt(run', pids', i)
    {
      if i < |pids| {
        assert NextAt(run, pids, i);
      }
    }
  }

  /** Process p takes, without interruption, the steps from its prepared update to the rename. */
  lemma CommitUninterrupted(run: seq<State>, pids: seq<Pid>, p: Pid) returns (run': seq<State>, pids': seq<Pid>)
    requires Run(run, pids) && WellSized(run[|run| - 1]) && p < |run[|run| - 1].pcs|
    requires var s := run[|run| - 1]; s.pcs[p].Prepared? && CanLock(s, p, |s.files|, Exclusive)
    ensures Run(run', pids') && run'[0] == run[0]
    ensures var s, w := run[|run| - 1], run[|run| - 1].pcs[p].work;
      run'[|run'| - 1] == s.Goto(p, Renamed(w, |s.files|)).(
        path := Some(|s.files|), files := s.files + [Some(Apply(w.base, w.update))], log := s.log + [(p, w.update)])
  {
    var s, w := run[|run| - 1], run[|run| - 1].pcs[p].work;
    var tmp := |s.files|;
    var s1 := s.Goto(p, Writing(w, tmp)).(files := s.files + [None]);
    run', pids' := Extend(run, pids, s1, p);
    var s2 := s1.Goto(p, Written(w, tmp)).(files := s1.files[tmp := Some(Apply(w.base, w.update))]);
    run', pids' := Extend(run', pids', s2, p);
    var s3 := s2.Goto(p, Locked(w, tmp));
    run', pids' := Extend(run', pids', s3, p);
    var s4 := s3.Goto(p, Renamed(w, tmp)).(path := Some(tmp), log := s3.log + [(p, w.update)]);
    run', pids' := Extend(run', pids', s4, p);
    assert s4.files == s.files + [Some(Apply(w.base, w.update))];
    assert s4.pcs == s.pcs[p := Renamed(w, tmp)];
  }

  /** Three additions, the second of which waits on the inode that the first replaces. */
  function StaleStart(a: Entry, b: Entry, c: Entry): State {
    State(Some(0), [Some([])], [AddImage(a), AddImage(b), AddImage(c)], [Construct, Construct, Construct], [])
  }

  /** The first is done; the second has locked the old inode; the third has not started. */
  function StaleLocked(a: Entry, b: Entry, c: Entry): State {
    State(Some(1), [Some([]), Some(Add([], a))], [AddImage(a), AddImage(b), AddImage(c)],
          [Closed(Put(a)), Read(0), Construct], [(0, Put(a))])
  }

  /** Both remaining additions have read the same document, each under an exclusive lock. */
  function StaleRead(a: Entry, b: Entry, c: Entry): State {
    State(Some(1), [Some([]), Some(Add([], a))], [AddImage(a), AddImage(b), AddImage(c)],
          [Closed(Put(a)), Prepared(Work(Some(0), Add([], a), Put(b))), Prepared(Work(Some(1), Add([], a), Put(c)))],
          [(0, Put(a))])
  }

  lemma StartWaiting(run: seq<State>, pids: seq<Pid>, p: Pid) returns (run': seq<State>, pids': seq<Pid>)
    requires Run(run, pids) && WellSized(run[|run| - 1]) && p < |run[|run| - 1].pcs|
    requires run[|run| - 1].pcs[p].Construct? && run[|run| - 1].path.Some?
    ensures Run(run', pids') && run'[0] == run[0]
    ensures run'[|run'| - 1] == run[|run| - 1].Goto(p, Wait(run[|run| - 1].path.value))
  {
    var s := run[|run| - 1];
    run', pids' := Extend(run, pids, s.Goto(p, Open), p);
    run', pids' := Extend(run', pids', s.Goto(p, Open).Goto(p, Wait(s.path.value)), p);
    assert s.pcs[p := Open][p := Wait(s.path.value)] == s.pcs[p := Wait(s.path.value)];
  }

  lemma ReadToAdd(run: seq<State>, pids: seq<Pid>, p: Pid) returns (run': seq<State>, pids': seq<Pid>)
    requires Run(run, pids) && WellSized(run[|run| - 1]) && p < |run[|run| - 1].pcs|
    requires var s := run[|run| - 1]; s.pcs[p].Read? && s.ops[p].AddImage? && Visible(s).Some?
    ensures Run(run', pids') && run'[0] == run[0]
    ensures var s := run[|run| - 1];
      run'[|run'| - 1] == s.Goto(p, Prepared(Work(Some(s.pcs[p].ino), Visible(s).value, Put(s.ops[p].entry))))
  {
    var s := run[|run| - 1];
    var s' := s.Goto(p, AfterRead(s.ops[p], s.pcs[p].ino, Visible(s).value));
    assert Step(s, s', p);
    run', pids' := Extend(run, pids, s', p);
  }

  lemma FinishCommit(run: seq<State>, pids: seq<Pid>, p: Pid) returns (run': seq<State>, pids': seq<Pid>)
    requires Run(run, pids) && WellSized(run[|run| - 1]) && p < |run[|run| - 1].pcs|
    requires run[|run| - 1].pcs[p].Renamed?
    ensures Run(run', pids') && run'[0] == run[0]
    ensures run'[|run'| - 1] == run[|run| - 1].Goto(p, Closed(run[|run| - 1].pcs[p].work.update))
  {
    var s := run[|run| - 1];
    var u, tmp := s.pcs[p].work.update, s.pcs[p].tmp;
    run', pids' := Extend(run, pids, s.Goto(p, HandedOver(u, tmp)), p);
    run', pids' := Extend(run', pids', s.Goto(p, HandedOver(u, tmp)).Goto(p, Closed(u)), p);
    assert s.pcs[p := HandedOver(u, tmp)][p := Closed(u)] == s.pcs[p := Closed(u)];
  }

  lemma ReachStaleLocked(a: Entry, b: Entry, c: Entry) returns (run: seq<State>, pids: seq<Pid>)
    ensures Run(run, pids) && run[0] == StaleStart(a, b, c) && run[|run| - 1] == StaleLocked(a, b, c)
  {
    run, pids := ReachFirstReading(a, b, c);
    run, pids := ReadToAdd(run, pids, 0);
    run, pids := CommitUninterrupted(run, pids, 0);
    run, pids := FinishCommit(run, pids, 0);
    run, pids := Extend(run, pids, run[|run| - 1].Goto(1, Read(0)), 1);
    assert run[|run| - 1].pcs == [Closed(Put(a)), Read(0), Construct];
  }

  lemma ReachFirstReading(a: Entry, b: Entry, c: Entry) returns (run: seq<State>, pids: seq<Pid>)
    ensures Run(run, pids) && run[0] == StaleStart(a, b, c)
    ensures run[|run| - 1] == StaleStart(a, b, c).(pcs := [Read(0), Wait(0), Construct])
  {
    run, pids := [StaleStart(a, b, c)], [];
    run, pids := StartWaiting(run, pids, 0);
    run, pids := StartWaiting(run, pids, 1);
    run, pids := Extend(run, pids, run[|run| - 1].Goto(0, Read(0)), 0);
    assert run[|run| - 1].pcs == [Read(0), Wait(0), Construct];
  }

  lemma ReachStaleRead(a: Entry, b: Entry, c: Entry) returns (run: seq<State>, pids: seq<Pid>)
    ensures Run(run, pids) && run[0] == StaleStart(a, b, c) && run[|run| - 1] == StaleRead(a, b, c)
  {
    run, pids := ReachStaleLocked(a, b, c);
    run, pids := StartWaiting(run, pids, 2);
    run, pids := Extend(run, pids, run[|run| - 1].Goto(2, Read(1)), 2);
    run, pids := ReadToAdd(run, pids, 1);
    run, pids := ReadToAdd(run, pids, 2);
    assert run[|run| - 1].pcs == StaleRead(a, b, c).pcs;
  }

  /**
  Without fresh reads updates are lost: a process that waited on a replaced inode and one
  that locked the new inode both commit, and the document lacks the image of the former.
   */
  lemma StaleReadLosesUpdate(a: Entry, b: Entry, c: Entry) returns (run: seq<State>, pids: seq<Pid>)
    requires a.uniqueKey != b.uniqueKey && b.uniqueKey != c.uniqueKey && a.uniqueKey != c.uniqueKey
    ensures Run(run, pids) && run[0].path.Some?
    ensures var last := run[|run| - 1];
      && last.log == [(0, Put(a)), (1, Put(b)), (2, Put(c))]
      && Visible(last).Some? && b.uniqueKey !in View(Visible(last).value)
  {
    run, pids := ReachSecondCommit(a, b, c);
    run, pids := CommitUninterrupted(run, pids, 2);
    assert Visible(run[|run| - 1]) == Some(Add(Add([], a), c));
    LacksOverwritten(a, b, c);
  }

  lemma ReachSecondCommit(a: Entry, b: Entry, c: Entry) returns (run: seq<State>, pids: seq<Pid>)
    ensures Run(run, pids) && run[0] == StaleStart(a, b, c)
    ensures var s := StaleRead(a, b, c); var w := Work(Some(0), Add([], a), Put(b));
      run[|run| - 1] == s.(path := Some(2), files := s.files + [Some(Add(Add([], a), b))],
                           pcs := [s.pcs[0], Renamed(w, 2), s.pcs[2]], log := s.log + [(1, Put(b))])
  {
    run, pids := ReachStaleRead(a, b, c);
    run, pids := CommitUninterrupted(run, pids, 1);
    assert run[|run| - 1].pcs == [StaleRead(a, b, c).pcs[0], run[|run| - 1].pcs[1], StaleRead(a, b, c).pcs[2]];
  }

  lemma LacksOverwritten(a: Entry, b: Entry, c: Entry)
    requires a.uniqueKey != b.uniqueKey && b.uniqueKey != c.uniqueKey
    ensures b.uniqueKey !in View(Add(Add([], a), c))
  {
    AddIsMapUpdate([], a);
    AddIsMapUpdate(Add([], a), c);
  }
}
