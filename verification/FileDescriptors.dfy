/**
Closing and renumbering the file descriptors of the engine before the OCI runtime starts:
unwanted descriptors are closed, the preserved ones are moved down so that no gap remains,
and the container is told their new numbers.
 */
module FileDescriptors {
  import opened Wrappers
  import Decimal

  type File = nat  // an open file description

  type Table = map<int, File>

  datatype Info = Info(name: string, containerEnvVariable: Option<string>, ociAnnotation: Option<string>, forceDup: bool)

  predicate StrictlySorted(fds: seq<int>) {
    forall i, j :: 0 <= i < j < |fds| ==> fds[i] < fds[j]
  }

  /** The descriptor that dup() allocates. */
  predicate IsLowestFree(table: Table, fd: int) {
    0 <= fd && fd !in table && forall k :: 0 <= k < fd ==> k in table
  }

  /** The part of a table whose descriptors are to be kept. */
  ghost predicate KeptOf(kept: Table, table: Table, keep: map<int, Info>) {
    && (forall fd :: fd in kept <==> fd in table && fd in keep)
    && (forall fd :: fd in kept ==> kept[fd] == table[fd])
  }

  // ---------------------------------------------------------------- how far compaction has come

  /** Descriptor k is one of those from index a on. */
  predicate Pending(fds: seq<int>, a: nat, k: int) {
    exists j :: a <= j < |fds| && fds[j] == k
  }

  /**
  After `i` of the sorted descriptors are processed, the table is a solid block 0..m-1 and the
  descriptors from index `a` on, which are still unprocessed.  The unprocessed ones inside the
  block are exactly those that the counter of extra descriptors has not counted yet.
   */
  ghost predicate Compacting(table: Table, fds: seq<int>, i: nat, a: nat, m: int, extra: nat) {
    && i <= |fds| && 3 <= a <= |fds| && i <= a
    && m == 3 + extra + a - (if i < 3 then 3 else i)
    && (forall k :: k in table <==> 0 <= k < m || Pending(fds, a, k))
    && (forall j :: i <= j < a ==> 0 <= fds[j] < m)
    && (forall j :: a <= j < |fds| ==> m <= fds[j])
  }

  lemma {:induction false} SortedGap(fds: seq<int>, i: nat, j: nat)
    requires StrictlySorted(fds) && i <= j < |fds|
    ensures fds[j] - fds[i] >= j - i
    decreases j - i
  {
    if i < j {
      SortedGap(fds, i + 1, j);
    }
  }

  /** A descriptor inside the block is never above the lowest value the counter allows. */
  lemma InsideBlock(table: Table, fds: seq<int>, i: nat, a: nat, m: int, extra: nat)
    requires StrictlySorted(fds) && Compacting(table, fds, i, a, m, extra) && 3 <= i < a
    ensures fds[i] <= 3 + extra
  {
    SortedGap(fds, i, a - 1);
  }

  /** If the block is followed without gap by unprocessed descriptors up to f, these are the next ones. */
  lemma {:induction false} SolidRun(fds: seq<int>, a: nat, m: int, f: int)
    requires StrictlySorted(fds) && a <= |fds| && m <= f
    requires forall j :: a <= j < |fds| ==> m <= fds[j]
    requires forall k :: m <= k < f ==> Pending(fds, a, k)
    requires !Pending(fds, a, f)
    ensures a + (f - m) <= |fds|
    ensures forall j :: a <= j < a + (f - m) ==> fds[j] < f
    ensures forall j :: a + (f - m) <= j < |fds| ==> f < fds[j]
    ensures forall k :: Pending(fds, a, k) <==> m <= k < f || Pending(fds, a + (f - m), k)
    decreases f - m
  {
    if m < f {
      assert Pending(fds, a, m);
      assert fds[a] == m;
      SplitPending(fds, a);
      var b := a + 1;
      forall k | m + 1 <= k < f
        ensures Pending(fds, b, k)
      {
        assert Pending(fds, a, k);
      }
      SolidRun(fds, b, m + 1, f);
    }
  }

  // ---------------------------------------------------------------- the three ways to process one descriptor

  lemma StayKeepsCompacting(table: Table, fds: seq<int>, i: nat, a: nat, m: int, extra: nat) returns (a': nat, m': int)
    requires StrictlySorted(fds) && Compacting(table, fds, i, a, m, extra) && i < |fds|
    requires fds[i] <= 3 + extra && (i < 3 <==> fds[i] <= 2)
    ensures Compacting(table, fds, i + 1, a', m', if fds[i] > 2 then extra + 1 else extra)
    ensures m <= m' && fds[i] < m'
  {
    if i < a {
      a', m' := a, m;
    } else {
      a', m' := a + 1, m + 1;
      assert fds[a] == m;
      SplitPending(fds, a);
    }
  }

  lemma SplitPending(fds: seq<int>, a: nat)
    requires StrictlySorted(fds) && a < |fds|
    ensures forall k :: Pending(fds, a, k) <==> k == fds[a] || Pending(fds, a + 1, k)
    ensures !Pending(fds, a + 1, fds[a])
    ensures forall j :: a + 1 <= j < |fds| ==> fds[a] < fds[j]
  {
  }

  /** A descriptor above the block goes to its end, which is the lowest free value. */
  lemma MoveKeepsCompacting(table: Table, fds: seq<int>, i: nat, a: nat, m: int, extra: nat, newFd: int, file: File)
    requires StrictlySorted(fds) && Compacting(table, fds, i, a, m, extra) && i < |fds|
    requires fds[i] > 3 + extra && (i < 3 <==> fds[i] <= 2)
    requires IsLowestFree(table, newFd)
    ensures newFd == m && i == a
    ensures Compacting(table[newFd := file] - {fds[i]}, fds, i + 1, a + 1, m + 1, extra + 1)
  {
    if i < a {
      InsideBlock(table, fds, i, a, m, extra);
    }
    SplitPending(fds, a);
    assert m !in table;
    var table' := table[newFd := file] - {fds[i]};
    forall k
      ensures k in table' <==> 0 <= k < m + 1 || Pending(fds, a + 1, k)
    {
      assert k in table <==> 0 <= k < m || Pending(fds, a, k);
    }
  }

  lemma RoomToMove(table: Table, fds: seq<int>, i: nat, a: nat, m: int, extra: nat)
    requires StrictlySorted(fds) && Compacting(table, fds, i, a, m, extra) && i < |fds|
    requires fds[i] > 3 + extra && (i < 3 <==> fds[i] <= 2)
    ensures 0 <= m < fds[i] && m !in table
  {
    if i < a {
      InsideBlock(table, fds, i, a, m, extra);
    }
    SplitPending(fds, a);
  }

  /** A forced duplicate of a descriptor inside the block extends the block past what follows it. */
  lemma DuplicateKeepsCompacting(table: Table, fds: seq<int>, i: nat, a: nat, m: int, extra: nat, newFd: int, file: File)
      returns (a': nat)
    requires StrictlySorted(fds) && Compacting(table, fds, i, a, m, extra) && i < |fds|
    requires fds[i] in table && (i < 3 <==> fds[i] <= 2)
    requires IsLowestFree(table, newFd) && fds[i] < newFd
    ensures m <= newFd && 2 < newFd
    ensures Compacting(table[newFd := file], fds, i + 1, a', newFd + 1, if fds[i] > 2 then extra + 2 else extra + 1)
  {
    forall k | m <= k < newFd
      ensures Pending(fds, a, k)
    {
      assert k in table <==> 0 <= k < m || Pending(fds, a, k);
    }
    SolidRun(fds, a, m, newFd);
    a' := a + (newFd - m);
    var table' := table[newFd := file];
    forall k
      ensures k in table' <==> 0 <= k < newFd + 1 || Pending(fds, a', k)
    {
      assert k in table <==> 0 <= k < m || Pending(fds, a, k);
    }
  }

  // ---------------------------------------------------------------- what every descriptor denotes

  predicate Forced(preserve: map<int, Info>, fd: int) {
    fd in preserve && preserve[fd].forceDup
  }

  /** How many of the first i descriptors are to be duplicated. */
  function ForcedBefore(preserve: map<int, Info>, fds: seq<int>, i: nat): nat
    requires i <= |fds|
  {
    if i == 0 then 0 else ForcedBefore(preserve, fds, i - 1) + (if Forced(preserve, fds[i - 1]) then 1 else 0)
  }

  /**
  After i descriptors are processed, every open descriptor k denotes the file of the preserved
  descriptor origin[k]: an unprocessed one is still at its own number, a processed one is at its
  reported number and, when its duplication was forced, also at its own.
   */
  ghost predicate Tracks(table: Table, origin: map<int, int>, kept: Table, preserve: map<int, Info>,
                         fds: seq<int>, i: nat, moved: map<int, int>) {
    && i <= |fds|
    && (forall k :: k in table ==> k in origin && origin[k] in kept && table[k] == kept[origin[k]])
    && (forall j :: 0 <= j < i ==> fds[j] in moved)
    && (forall j :: i <= j < |fds| ==> fds[j] !in moved && fds[j] in table && origin[fds[j]] == fds[j])
    && (forall fd :: fd in moved ==> moved[fd] in table && origin[moved[fd]] == fd)
    && (forall fd :: fd in moved && (Forced(preserve, fd) || fd <= 2) ==> fd in table && origin[fd] == fd)
    && (forall fd :: fd in moved && Forced(preserve, fd) ==> moved[fd] != fd)
  }

  /** One descriptor is processed: it keeps its number, or its file moves to or is duplicated at a free one. */
  lemma TrackOne(table: Table, origin: map<int, int>, kept: Table, preserve: map<int, Info>, fds: seq<int>, i: nat,
                 moved: map<int, int>, newFd: int, table': Table) returns (origin': map<int, int>)
    requires StrictlySorted(fds) && Tracks(table, origin, kept, preserve, fds, i, moved) && i < |fds|
    requires
      var fd := fds[i];
      if Forced(preserve, fd) then newFd !in table && table' == table[newFd := table[fd]]
      else if newFd == fd then table' == table
      else fd > 2 && newFd !in table && table' == table[newFd := table[fd]] - {fd}
    ensures Tracks(table', origin', kept, preserve, fds, i + 1, moved[fds[i] := newFd])
  {
    var fd := fds[i];
    origin' := origin[newFd := fd];
  }

  // ---------------------------------------------------------------- what the container is told

  /** The environment after the first i reports: later reports of a variable overwrite earlier ones. */
  function EnvAfter(env: map<string, string>, preserve: map<int, Info>, fds: seq<int>, moved: map<int, int>, i: nat): map<string, string>
    requires i <= |fds| && forall j :: 0 <= j < i ==> fds[j] in preserve && fds[j] in moved && moved[fds[j]] >= 0
  {
    if i == 0 then env
    else
      var before := EnvAfter(env, preserve, fds, moved, i - 1);
      var v := preserve[fds[i - 1]].containerEnvVariable;
      if v.Some? then before[v.value := Decimal.ToString(moved[fds[i - 1]])] else before
  }

  /** The annotations after the first i reports: an annotation that is already set stays (emplace). */
  function AnnotationsAfter(annotations: map<string, string>, preserve: map<int, Info>, fds: seq<int>, moved: map<int, int>, i: nat): map<string, string>
    requires i <= |fds| && forall j :: 0 <= j < i ==> fds[j] in preserve && fds[j] in moved && moved[fds[j]] >= 0
  {
    if i == 0 then annotations
    else
      var before := AnnotationsAfter(annotations, preserve, fds, moved, i - 1);
      var a := preserve[fds[i - 1]].ociAnnotation;
      if a.Some? && a.value !in before then before[a.value := Decimal.ToString(moved[fds[i - 1]])] else before
  }

  /** A variable named by one preserved descriptor only ends up with that descriptor's new number. */
  lemma {:induction false} EnvNames(env: map<string, string>, preserve: map<int, Info>, fds: seq<int>, moved: map<int, int>, i: nat, n: nat, v: string)
    requires n <= |fds| && forall j :: 0 <= j < n ==> fds[j] in preserve && fds[j] in moved && moved[fds[j]] >= 0
    requires i < n && preserve[fds[i]].containerEnvVariable == Some(v)
    requires forall j :: 0 <= j < n && j != i ==> preserve[fds[j]].containerEnvVariable != Some(v)
    ensures var after := EnvAfter(env, preserve, fds, moved, n); v in after && after[v] == Decimal.ToString(moved[fds[i]])
    decreases n
  {
    if i < n - 1 {
      EnvNames(env, preserve, fds, moved, i, n - 1, v);
    }
  }

  /** A variable that no preserved descriptor names keeps its value. */
  lemma {:induction false} EnvKeeps(env: map<string, string>, preserve: map<int, Info>, fds: seq<int>, moved: map<int, int>, n: nat, v: string)
    requires n <= |fds| && forall j :: 0 <= j < n ==> fds[j] in preserve && fds[j] in moved && moved[fds[j]] >= 0
    requires forall j :: 0 <= j < n ==> preserve[fds[j]].containerEnvVariable != Some(v)
    ensures var after := EnvAfter(env, preserve, fds, moved, n); (v in after <==> v in env) && (v in env ==> after[v] == env[v])
    decreases n
  {
    if n > 0 {
      EnvKeeps(env, preserve, fds, moved, n - 1, v);
    }
  }

  /** An annotation that is set already stays, whoever names it. */
  lemma {:induction false} AnnotationStays(
      annotations: map<string, string>, preserve: map<int, Info>, fds: seq<int>, moved: map<int, int>, n: nat, a: string)
    requires n <= |fds| && forall j :: 0 <= j < n ==> fds[j] in preserve && fds[j] in moved && moved[fds[j]] >= 0
    requires a in annotations || forall j :: 0 <= j < n ==> preserve[fds[j]].ociAnnotation != Some(a)
    ensures var after := AnnotationsAfter(annotations, preserve, fds, moved, n);
      (a in after <==> a in annotations) && (a in annotations ==> after[a] == annotations[a])
    decreases n
  {
    if n > 0 {
      AnnotationStays(annotations, preserve, fds, moved, n - 1, a);
    }
  }

  /** One that is not set gets the number of the first descriptor that names it. */
  lemma {:induction false} AnnotationNames(
      annotations: map<string, string>, preserve: map<int, Info>, fds: seq<int>, moved: map<int, int>, i: nat, n: nat, a: string)
    requires n <= |fds| && forall j :: 0 <= j < n ==> fds[j] in preserve && fds[j] in moved && moved[fds[j]] >= 0
    requires a !in annotations && i < n && preserve[fds[i]].ociAnnotation == Some(a)
    requires forall j :: 0 <= j < i ==> preserve[fds[j]].ociAnnotation != Some(a)
    ensures var after := AnnotationsAfter(annotations, preserve, fds, moved, n); a in after && after[a] == Decimal.ToString(moved[fds[i]])
    decreases n
  {
    if i < n - 1 {
      AnnotationNames(annotations, preserve, fds, moved, i, n - 1, a);
    } else {
      AnnotationStays(annotations, preserve, fds, moved, i, a);
    }
  }

  /** Reports already made do not depend on the number of a descriptor still to come. */
  lemma {:induction false} ReportsFixed(env: map<string, string>, annotations: map<string, string>, preserve: map<int, Info>,
                                        fds: seq<int>, moved: map<int, int>, fd: int, newFd: int, i: nat)
    requires i <= |fds| && forall j :: 0 <= j < i ==> fds[j] in preserve && fds[j] in moved && moved[fds[j]] >= 0
    requires forall j :: 0 <= j < i ==> fds[j] != fd
    ensures EnvAfter(env, preserve, fds, moved[fd := newFd], i) == EnvAfter(env, preserve, fds, moved, i)
    ensures AnnotationsAfter(annotations, preserve, fds, moved[fd := newFd], i) == AnnotationsAfter(annotations, preserve, fds, moved, i)
  {
    if i > 0 {
      ReportsFixed(env, annotations, preserve, fds, moved, fd, newFd, i - 1);
    }
  }

  /** dup() below the descriptor: all lower descriptors and duplicates together do not reach it. */
  lemma LowerMeansGap(table: Table, fds: seq<int>, i: nat, a: nat, m: int, extra: nat, preserve: map<int, Info>)
    requires StrictlySorted(fds) && Compacting(table, fds, i, a, m, extra) && i < |fds| && (i < 3 <==> fds[i] <= 2)
    requires extra == (if i < 3 then 0 else i - 3) + ForcedBefore(preserve, fds, i)
    requires exists f :: IsLowestFree(table, f) && f < fds[i]
    ensures fds[i] > i + ForcedBefore(preserve, fds, i)
  {
    var f :| IsLowestFree(table, f) && f < fds[i];
    assert f >= m;
  }

  lemma ForcedWithoutGap(table: Table, fds: seq<int>, i: nat, a: nat, m: int, extra: nat, preserve: map<int, Info>, newFd: int)
    requires StrictlySorted(fds) && Compacting(table, fds, i, a, m, extra) && i < |fds|
    requires fds[0] == 0 && |fds| >= 3 && fds[1] == 1 && fds[2] == 2
    requires extra == (if i < 3 then 0 else i - 3) + ForcedBefore(preserve, fds, i)
    requires IsLowestFree(table, newFd) && fds[i] < newFd
    ensures fds[i] <= i + ForcedBefore(preserve, fds, i)
  {
    if 3 <= i {
      if i < a {
        InsideBlock(table, fds, i, a, m, extra);
      } else {
        assert fds[i] > m ==> !Pending(fds, a, m);
        assert m in table;
      }
    }
  }

  // ---------------------------------------------------------------- one turn of the loop

  /** The parts of the process state that the handler changes. */
  datatype Snapshot = Snapshot(table: Table, extra: nat, env: map<string, string>, annotations: map<string, string>)

  /** What the handler knows, for the proof, after i descriptors. */
  datatype Ledger = Ledger(i: nat, a: nat, m: int, moved: map<int, int>, origin: map<int, int>)

  predicate Reported(preserve: map<int, Info>, fds: seq<int>, i: nat, moved: map<int, int>) {
    i <= |fds| && forall j :: 0 <= j < i ==> fds[j] in preserve && fds[j] in moved && moved[fds[j]] >= 0
  }

  predicate NoGapBelowForced(preserve: map<int, Info>, fds: seq<int>, i: nat)
    requires i <= |fds|
  {
    forall j :: 0 <= j < i && Forced(preserve, fds[j]) ==> fds[j] <= j + ForcedBefore(preserve, fds, j)
  }

  predicate StartsWithStdio(fds: seq<int>) {
    |fds| >= 3 && fds[0] == 0 && fds[1] == 1 && fds[2] == 2 && forall i :: 0 <= i < |fds| ==> (i < 3 <==> fds[i] <= 2)
  }

  ghost predicate Counting(s: Snapshot, preserve: map<int, Info>, fds: seq<int>, i: nat, a: nat, m: int) {
    && StrictlySorted(fds) && StartsWithStdio(fds)
    && Compacting(s.table, fds, i, a, m, s.extra)
    && s.extra == (if i < 3 then 0 else i - 3) + ForcedBefore(preserve, fds, i)
    && NoGapBelowForced(preserve, fds, i)
  }

  predicate Reporting(start: Snapshot, s: Snapshot, preserve: map<int, Info>, fds: seq<int>, l: Ledger) {
    && Reported(preserve, fds, l.i, l.moved)
    && s.env == EnvAfter(start.env, preserve, fds, l.moved, l.i)
    && s.annotations == AnnotationsAfter(start.annotations, preserve, fds, l.moved, l.i)
  }

  ghost predicate Progress(start: Snapshot, s: Snapshot, preserve: map<int, Info>, fds: seq<int>, l: Ledger) {
    && Counting(s, preserve, fds, l.i, l.a, l.m)
    && Tracks(s.table, l.origin, start.table, preserve, fds, l.i, l.moved)
    && Reporting(start, s, preserve, fds, l)
  }

  /** The variable of a descriptor is set to its new number. */
  function ReportEnv(env: map<string, string>, info: Info, newFd: int): map<string, string>
    requires newFd >= 0
  {
    if info.containerEnvVariable.Some? then env[info.containerEnvVariable.value := Decimal.ToString(newFd)] else env
  }

  /** Its annotation is, unless there is one already. */
  function ReportAnnotation(annotations: map<string, string>, info: Info, newFd: int): map<string, string>
    requires newFd >= 0
  {
    if info.ociAnnotation.Some? && info.ociAnnotation.value !in annotations
    then annotations[info.ociAnnotation.value := Decimal.ToString(newFd)] else annotations
  }

  /** What processing descriptor fd does to the state when it succeeds with newFd. */
  predicate Processed(s: Snapshot, s': Snapshot, info: Info, fd: int, newFd: int) {
    && fd in s.table
    && (if info.forceDup then
          IsLowestFree(s.table, newFd) && fd < newFd && s'.table == s.table[newFd := s.table[fd]]
        else if fd <= 3 + s.extra then newFd == fd && s'.table == s.table
        else IsLowestFree(s.table, newFd) && s'.table == s.table[newFd := s.table[fd]] - {fd})
    && s'.extra == s.extra + (if newFd > 2 then 1 else 0) + (if info.forceDup && fd > 2 then 1 else 0)
    && newFd >= 0
    && s'.env == ReportEnv(s.env, info, newFd)
    && s'.annotations == ReportAnnotation(s.annotations, info, newFd)
  }

  lemma CompactOne(s: Snapshot, s': Snapshot, preserve: map<int, Info>, fds: seq<int>, i: nat, a: nat, m: int, newFd: int)
      returns (a': nat, m': int)
    requires StrictlySorted(fds) && StartsWithStdio(fds) && Compacting(s.table, fds, i, a, m, s.extra) && i < |fds|
    requires fds[i] in preserve && Processed(s, s', preserve[fds[i]], fds[i], newFd)
    requires s.extra == (if i < 3 then 0 else i - 3) + ForcedBefore(preserve, fds, i)
    ensures Compacting(s'.table, fds, i + 1, a', m', s'.extra)
    ensures s'.extra == (if i + 1 < 3 then 0 else i + 1 - 3) + ForcedBefore(preserve, fds, i + 1)
    ensures Forced(preserve, fds[i]) ==> fds[i] <= i + ForcedBefore(preserve, fds, i)
  {
    if preserve[fds[i]].forceDup {
      ForcedWithoutGap(s.table, fds, i, a, m, s.extra, preserve, newFd);
      a' := DuplicateKeepsCompacting(s.table, fds, i, a, m, s.extra, newFd, s.table[fds[i]]);
      m' := newFd + 1;
    } else if fds[i] <= 3 + s.extra {
      a', m' := StayKeepsCompacting(s.table, fds, i, a, m, s.extra);
    } else {
      MoveKeepsCompacting(s.table, fds, i, a, m, s.extra, newFd, s.table[fds[i]]);
      a', m' := a + 1, m + 1;
    }
  }

  lemma CountOne(s: Snapshot, s': Snapshot, preserve: map<int, Info>, fds: seq<int>, i: nat, a: nat, m: int, newFd: int)
      returns (a': nat, m': int)
    requires Counting(s, preserve, fds, i, a, m) && i < |fds|
    requires fds[i] in preserve && Processed(s, s', preserve[fds[i]], fds[i], newFd)
    ensures Counting(s', preserve, fds, i + 1, a', m')
  {
    a', m' := CompactOne(s, s', preserve, fds, i, a, m, newFd);
  }

  lemma ReportOne(start: Snapshot, s: Snapshot, s': Snapshot, preserve: map<int, Info>, fds: seq<int>, l: Ledger, newFd: int, l': Ledger)
    requires StrictlySorted(fds) && l.i < |fds| && Reporting(start, s, preserve, fds, l)
    requires fds[l.i] in preserve && Processed(s, s', preserve[fds[l.i]], fds[l.i], newFd)
    requires l'.i == l.i + 1 && l'.moved == l.moved[fds[l.i] := newFd]
    ensures Reporting(start, s', preserve, fds, l')
  {
    ReportsFixed(start.env, start.annotations, preserve, fds, l.moved, fds[l.i], newFd, l.i);
  }

  lemma ProgressOne(start: Snapshot, s: Snapshot, s': Snapshot, preserve: map<int, Info>, fds: seq<int>, l: Ledger, newFd: int)
      returns (l': Ledger)
    requires Progress(start, s, preserve, fds, l) && l.i < |fds|
    requires fds[l.i] in preserve && Processed(s, s', preserve[fds[l.i]], fds[l.i], newFd)
    ensures Progress(start, s', preserve, fds, l') && l'.i == l.i + 1
  {
    var a', m' := CountOne(s, s', preserve, fds, l.i, l.a, l.m, newFd);
    var origin' := TrackOne(s.table, l.origin, start.table, preserve, fds, l.i, l.moved, newFd, s'.table);
    l' := Ledger(l.i + 1, a', m', l.moved[fds[l.i] := newFd], origin');
    ReportOne(start, s, s', preserve, fds, l, newFd, l');
  }

  /**
  What the handler achieves.  The open descriptors are exactly 0 .. 2 + extra; each denotes the file
  of the preserved descriptor it stems from, each preserved one is reported at a descriptor of its
  file, and environment and annotations carry the reports.
   */
  ghost predicate Compacted(kept: Table, env: map<string, string>, annotations: map<string, string>, s: Snapshot,
                            preserve: map<int, Info>, fds: seq<int>, moved: map<int, int>, origin: map<int, int>) {
    && (forall k :: k in s.table <==> 0 <= k < 3 + s.extra)
    && s.extra == |fds| - 3 + ForcedBefore(preserve, fds, |fds|)
    && Tracks(s.table, origin, kept, preserve, fds, |fds|, moved)
    && Reported(preserve, fds, |fds|, moved)
    && s.env == EnvAfter(env, preserve, fds, moved, |fds|)
    && s.annotations == AnnotationsAfter(annotations, preserve, fds, moved, |fds|)
  }

  /** No forced duplication has a gap below it, and descriptors and duplicates together are within the limit. */
  ghost predicate CanCompact(preserve: map<int, Info>, fds: seq<int>, limit: nat) {
    NoGapBelowForced(preserve, fds, |fds|) && |fds| + ForcedBefore(preserve, fds, |fds|) <= limit
  }

  /** What an error means. */
  ghost predicate ErrorMeans(error: FdError, preserve: map<int, Info>, fds: seq<int>, limit: nat) {
    match error
    case DupCreatedLowerFd => !NoGapBelowForced(preserve, fds, |fds|)
    case DupFailed => limit < |fds| + ForcedBefore(preserve, fds, |fds|)
  }

  lemma ProgressEnd(start: Snapshot, s: Snapshot, preserve: map<int, Info>, fds: seq<int>, l: Ledger, limit: nat)
    requires Progress(start, s, preserve, fds, l) && l.i == |fds| && forall fd :: fd in s.table ==> fd < limit
    ensures Compacted(start.table, start.env, start.annotations, s, preserve, fds, l.moved, l.origin)
    ensures CanCompact(preserve, fds, limit)
  {
    assert l.m - 1 in s.table;
  }

  lemma ProgressGap(start: Snapshot, s: Snapshot, preserve: map<int, Info>, fds: seq<int>, l: Ledger)
    requires Progress(start, s, preserve, fds, l) && l.i < |fds| && Forced(preserve, fds[l.i])
    requires exists f :: IsLowestFree(s.table, f) && f < fds[l.i]
    ensures !NoGapBelowForced(preserve, fds, |fds|)
  {
    LowerMeansGap(s.table, fds, l.i, l.a, l.m, s.extra, preserve);
  }

  lemma {:induction false} ForcedGrows(preserve: map<int, Info>, fds: seq<int>, i: nat, j: nat)
    requires i <= j <= |fds|
    ensures ForcedBefore(preserve, fds, i) <= ForcedBefore(preserve, fds, j)
    decreases j
  {
    if i < j {
      ForcedGrows(preserve, fds, i, j - 1);
    }
  }

  /** A full table holds one descriptor for every preserved one and every duplicate so far. */
  lemma ProgressFull(start: Snapshot, s: Snapshot, preserve: map<int, Info>, fds: seq<int>, l: Ledger, limit: nat)
    requires Progress(start, s, preserve, fds, l) && l.i < |fds| && Forced(preserve, fds[l.i])
    requires forall k :: k in s.table ==> k < limit
    requires forall k :: 0 <= k < limit ==> k in s.table
    ensures limit < |fds| + ForcedBefore(preserve, fds, |fds|)
  {
    assert l.m > 0 && l.m - 1 in s.table;
    forall k | l.m <= k < limit
      ensures Pending(fds, l.a, k)
    {
      assert k in s.table;
    }
    assert !Pending(fds, l.a, limit);
    SolidRun(fds, l.a, l.m, limit);
    ForcedGrows(preserve, fds, l.i + 1, |fds|);
  }

  lemma ProgressStart(start: Snapshot, preserve: map<int, Info>, fds: seq<int>) returns (l: Ledger)
    requires StrictlySorted(fds) && (forall fd :: fd in fds <==> fd in start.table) && (forall fd :: fd in fds ==> 0 <= fd)
    requires 0 in fds && 1 in fds && 2 in fds && start.extra == 0
    ensures Progress(start, start, preserve, fds, l) && l.i == 0
  {
    StdioFirst(fds);
    StartsCompacting(start.table, fds);
    l := Ledger(0, 3, 3, map[], map fd | fd in start.table :: fd);
    StartsTracking(start.table, preserve, fds);
  }

  lemma StartsTracking(table: Table, preserve: map<int, Info>, fds: seq<int>)
    requires forall fd :: fd in fds ==> fd in table
    ensures Tracks(table, map fd | fd in table :: fd, table, preserve, fds, 0, map[])
  {
    forall j | 0 <= j < |fds|
      ensures fds[j] in table
    {
      var fd := fds[j];
      assert fd in fds;
    }
  }

  lemma StartsCompacting(table: Table, fds: seq<int>)
    requires StrictlySorted(fds) && StartsWithStdio(fds) && (forall fd :: fd in fds <==> fd in table) && (forall fd :: fd in fds ==> 0 <= fd)
    ensures Compacting(table, fds, 0, 3, 3, 0)
  {
    forall k
      ensures k in table <==> 0 <= k < 3 || Pending(fds, 3, k)
    {
      assert k in fds <==> k in table;
      assert k in fds <==> k == fds[0] || k == fds[1] || k == fds[2] || Pending(fds, 3, k);
    }
  }

  // ---------------------------------------------------------------- the handler

  datatype FdError = DupFailed | DupCreatedLowerFd

  /** The first descriptors of a table that has stdin, stdout and stderr are these three. */
  lemma StdioFirst(fds: seq<int>)
    requires StrictlySorted(fds) && 0 in fds && 1 in fds && 2 in fds && forall fd :: fd in fds ==> 0 <= fd
    ensures |fds| >= 3 && fds[0] == 0 && fds[1] == 1 && fds[2] == 2
    ensures forall i :: 0 <= i < |fds| ==> (i < 3 <==> fds[i] <= 2)
  {
    var i0 :| 0 <= i0 < |fds| && fds[i0] == 0;
    var i1 :| 0 <= i1 < |fds| && fds[i1] == 1;
    var i2 :| 0 <= i2 < |fds| && fds[i2] == 2;
    SortedGap(fds, i0, i1);
    SortedGap(fds, i1, i2);
    SortedGap(fds, 0, i0);
    assert fds[0] in fds;
    assert i0 == 0 && i1 == 1 && i2 == 2;
  }

  class Handler {
    var table: Table                      // the descriptors of this process
    const limit: nat                      // every descriptor is below this limit
    var preserve: map<int, Info>          // fileDescriptorsToPreserve
    var extra: nat                        // extraFileDescriptors
    var env: map<string, string>          // the host environment of the run command
    var annotations: map<string, string>  // the OCI annotations of the run command

    ghost predicate Valid()
      reads this
    {
      && (forall fd :: fd in table ==> 0 <= fd < limit)
      && 0 in table && 1 in table && 2 in table
      && 0 in preserve && 1 in preserve && 2 in preserve
    }

    constructor (table: Table, limit: nat, env: map<string, string>, annotations: map<string, string>)
      requires forall fd :: fd in table ==> 0 <= fd < limit
      requires 0 in table && 1 in table && 2 in table
      ensures Valid() && this.table == table && this.limit == limit && this.env == env && this.annotations == annotations
      ensures extra == 0 && preserve == STDIO
    {
      this.table, this.limit, this.env, this.annotations := table, limit, env, annotations;
      extra := 0;
      preserve := STDIO;
    }

    method GetOpenFileDescriptors() returns (fds: seq<int>)
      requires Valid()
      ensures StrictlySorted(fds) && forall fd :: fd in fds <==> fd in table
    {
      fds := [];
      for fd := 0 to limit
        invariant StrictlySorted(fds)
        invariant forall j :: 0 <= j < |fds| ==> fds[j] < fd
        invariant forall k :: k in fds <==> k in table && k < fd
      {
        if fd in table {
          fds := fds + [fd];
        }
      }
    }

    /** dup(2): the lowest free descriptor, or -1 when all are taken. */
    method Dup(fd: int) returns (newFd: int)
      requires Valid() && fd in table
      modifies this`table
      ensures newFd == -1 || IsLowestFree(old(table), newFd)
      ensures newFd == -1 ==> table == old(table) && forall k :: 0 <= k < limit ==> k in table
      ensures newFd != -1 ==> newFd < limit && table == old(table)[newFd := old(table)[fd]]
    {
      newFd := 0;
      while newFd < limit && newFd in table
        invariant 0 <= newFd <= limit && forall k :: 0 <= k < newFd ==> k in table
      {
        newFd := newFd + 1;
      }
      if newFd == limit {
        newFd := -1;
      } else {
        table := table[newFd := table[fd]];
      }
    }

    method DuplicateFdAndPreserveBoth(fd: int) returns (result: Result<int, FdError>)
      requires Valid() && fd in table
      modifies this`table, this`extra
      ensures result.Success? ==>
                var newFd := result.value;
                && IsLowestFree(old(table), newFd) && fd < newFd
                && table == old(table)[newFd := old(table)[fd]]
                && extra == old(extra) + (if fd > 2 then 1 else 0) + (if newFd > 2 then 1 else 0)
                && Valid()
      ensures result == Failure(DupCreatedLowerFd) ==>
                extra == old(extra) && exists f :: IsLowestFree(old(table), f) && f < fd && table == old(table)[f := old(table)[fd]]
      ensures result == Failure(DupFailed) ==>
                extra == old(extra) && table == old(table) && forall k :: 0 <= k < limit ==> k in old(table)
    {
      var newFd := Dup(fd);
      if newFd == -1 {
        return Failure(DupFailed);
      }
      if newFd < fd {
        return Failure(DupCreatedLowerFd);
      }
      if fd > 2 {
        extra := extra + 1;
      }
      if newFd > 2 {
        extra := extra + 1;
      }
      return Success(newFd);
    }

    method MoveFdToLowestAvailableValue(fd: int) returns (result: Result<int, FdError>)
      requires Valid() && fd in table
      modifies this`table, this`extra
      ensures result.Success? ==>
                var newFd := result.value;
                && (fd <= 3 + old(extra) ==> newFd == fd && table == old(table))
                && (fd > 3 + old(extra) ==> IsLowestFree(old(table), newFd) && table == old(table)[newFd := old(table)[fd]] - {fd})
                && extra == old(extra) + (if newFd > 2 then 1 else 0)
                && Valid()
      ensures result.Failure? ==>
                && result.error == DupFailed && fd > 3 + old(extra) && extra == old(extra) && table == old(table)
                && forall k :: 0 <= k < limit ==> k in old(table)
    {
      var newFd := fd;
      if fd > 3 + extra {
        newFd := Dup(fd);
        if newFd == -1 {
          return Failure(DupFailed);
        }
        table := table - {fd};
      }
      if newFd > 2 {
        extra := extra + 1;
      }
      return Success(newFd);
    }

    ghost function Snap(): Snapshot
      reads this
    {
      Snapshot(table, extra, env, annotations)
    }

    method CloseUnwanted()
      requires Valid()
      modifies this`table
      ensures Valid() && KeptOf(table, old(table), preserve)
    {
      var fds := GetOpenFileDescriptors();
      for i := 0 to |fds|
        invariant forall fd :: fd in table <==> fd in old(table) && (fd in preserve || Pending(fds, i, fd))
        invariant forall fd :: fd in table ==> table[fd] == old(table)[fd]
      {
        SplitPending(fds, i);
        if fds[i] !in preserve {
          table := table - {fds[i]};
        }
      }
    }

    method ProcessOne(fd: int) returns (result: Result<int, FdError>)
      requires Valid() && fd in table && fd in preserve
      modifies this`table, this`extra, this`env, this`annotations
      ensures result.Success? ==> Valid() && Processed(old(Snap()), Snap(), preserve[fd], fd, result.value)
      ensures result == Failure(DupCreatedLowerFd) ==>
                Forced(preserve, fd) && exists f :: IsLowestFree(old(table), f) && f < fd
      ensures result == Failure(DupFailed) ==> forall k :: 0 <= k < limit ==> k in old(table)
      ensures result.Failure? && !Forced(preserve, fd) ==> result.error == DupFailed && fd > 3 + old(extra)
    {
      var info := preserve[fd];
      if info.forceDup {
        result := DuplicateFdAndPreserveBoth(fd);
      } else {
        result := MoveFdToLowestAvailableValue(fd);
      }
      if result.Success? {
        Report(info, result.value);
      }
    }

    method Report(info: Info, newFd: int)
      requires newFd >= 0
      modifies this`env, this`annotations
      ensures env == ReportEnv(old(env), info, newFd) && annotations == ReportAnnotation(old(annotations), info, newFd)
    {
      if info.containerEnvVariable.Some? {
        env := env[info.containerEnvVariable.value := Decimal.ToString(newFd)];
      }
      if info.ociAnnotation.Some? && info.ociAnnotation.value !in annotations {
        annotations := annotations[info.ociAnnotation.value := Decimal.ToString(newFd)];
      }
    }

    /** One turn of the loop, with what it does to the progress made so far. */
    method Turn(fd: int, ghost start: Snapshot, ghost fds: seq<int>, ghost l: Ledger) returns (result: Result<int, FdError>, ghost l': Ledger)
      requires Valid() && Progress(start, Snap(), preserve, fds, l)
      requires l.i < |fds| && fds[l.i] == fd && fd in preserve
      modifies this`table, this`extra, this`env, this`annotations
      ensures result.Success? ==> Valid() && Progress(start, Snap(), preserve, fds, l') && l'.i == l.i + 1
      ensures result.Failure? ==> ErrorMeans(result.error, preserve, fds, limit) && Forced(preserve, fd)
    {
      ghost var s := Snap();
      if !Forced(preserve, fd) && fd > 3 + extra {
        RoomToMove(table, fds, l.i, l.a, l.m, extra);
      }
      l' := l;
      result := ProcessOne(fd);
      if result.Success? {
        l' := ProgressOne(start, s, Snap(), preserve, fds, l, result.value);
      } else if result.error == DupCreatedLowerFd {
        ProgressGap(start, s, preserve, fds, l);
      } else {
        ProgressFull(start, s, preserve, fds, l, limit);
      }
    }

    /**
    applyChangesToFdsAndEnvVariablesAndBundleAnnotations: closes what is not preserved and compacts
    the rest.  `kept` is what was open and preserved; `fds` lists its descriptors in order.  It succeeds
    exactly if no forced duplication has a gap below it and all descriptors and duplicates together
    are within the limit; so without forced duplications nothing can fail.
     */
    method Apply() returns (result: Result<(), FdError>, ghost kept: Table, ghost fds: seq<int>, ghost moved: map<int, int>, ghost origin: map<int, int>)
      requires Valid() && extra == 0
      modifies this`table, this`extra, this`env, this`annotations
      ensures KeptOf(kept, old(table), preserve)
      ensures StrictlySorted(fds) && forall fd :: fd in fds <==> fd in kept
      ensures result.Success? ==> Compacted(kept, old(env), old(annotations), Snap(), preserve, fds, moved, origin)
      ensures result.Success? <==> CanCompact(preserve, fds, limit)
      ensures result.Failure? ==> ErrorMeans(result.error, preserve, fds, limit) && exists fd :: fd in fds && Forced(preserve, fd)
    {
      CloseUnwanted();
      kept := table;
      ghost var start := Snap();
      var open := GetOpenFileDescriptors();
      fds := open;
      var error;
      ghost var l := ProgressStart(start, preserve, fds);
      error, l := ProcessAll(open, start, l);
      if error.Some? {
        return Failure(error.value), kept, fds, map[], map[];
      }
      ProgressEnd(start, Snap(), preserve, fds, l, limit);
      return Success(()), kept, fds, l.moved, l.origin;
    }

    /** The loop over the remaining descriptors. */
    method ProcessAll(fds: seq<int>, ghost start: Snapshot, ghost l: Ledger) returns (error: Option<FdError>, ghost l': Ledger)
      requires Valid() && Progress(start, Snap(), preserve, fds, l) && l.i == 0
      requires forall fd :: fd in fds ==> fd in preserve
      modifies this`table, this`extra, this`env, this`annotations
      ensures error.None? ==> Valid() && Progress(start, Snap(), preserve, fds, l') && l'.i == |fds|
      ensures error.Some? ==> ErrorMeans(error.value, preserve, fds, limit) && exists fd :: fd in fds && Forced(preserve, fd)
    {
      l' := l;
      var i := 0;
      while i < |fds|
        invariant l'.i == i <= |fds| && Valid() && Progress(start, Snap(), preserve, fds, l')
      {
        assert fds[i] in fds;
        var turn;
        turn, l' := Turn(fds[i], start, fds, l');
        if turn.Failure? {
          return Some(turn.error), l';
        }
        i := i + 1;
      }
      return None, l';
    }

    /** preservePMIFdIfAny: the descriptor that PMI_FD names is preserved and reported under that variable. */
    method PreservePMIFdIfAny() returns (result: Result<(), Decimal.NumberError>)
      requires Valid()
      modifies this`preserve
      ensures Valid()
      ensures if PMI_FD !in env then result.Success? && preserve == old(preserve)
              else match Decimal.Stoi(env[PMI_FD])
                case Success(fd) => result.Success? && preserve == old(preserve)[fd := Info("PMI", Some(PMI_FD), None, false)]
                case Failure(e) => result == Failure(e) && preserve == old(preserve)
    {
      if PMI_FD !in env {
        return Success(());
      }
      var fd := Decimal.Stoi(env[PMI_FD]);
      if fd.Failure? {
        return Failure(fd.error);
      }
      preserve := preserve[fd.value := Info("PMI", Some(PMI_FD), None, false)];
      return Success(());
    }
  }

  const PMI_FD := "PMI_FD"

  const STDIO: map<int, Info> :=
    map[0 := Info("stdin", None, None, false), 1 := Info("stdout", None, None, false), 2 := Info("stderr", None, None, false)]

  /** The descriptor that PMI_FD names, if it is a number. */
  function NamedByPmi(env: map<string, string>): Option<int> {
    if PMI_FD in env && Decimal.Stoi(env[PMI_FD]).Success? then Some(Decimal.Stoi(env[PMI_FD]).value) else None
  }

  /**
  The engine's use of the handler.  If PMI_FD is the number of an open descriptor then afterwards it is
  the number of a descriptor of the same file, and the open descriptors have no gap; if it is not set or
  the number of a closed one, stdin, stdout and stderr are all that stays open and the environment is
  unchanged.  The last two clauses are for other texts, which std::stoi reads or refuses.
   */
  method PreserveForContainer(table: Table, limit: nat, env: map<string, string>, annotations: map<string, string>)
      returns (result: Result<Handler, Decimal.NumberError>, ghost newFd: int)
    requires forall fd :: fd in table ==> 0 <= fd < limit
    requires 0 in table && 1 in table && 2 in table
    ensures "PMI_FD" !in env ==> result.Success? && StdioOnly(result.value.Snap(), table, env)
    ensures forall fd: nat :: "PMI_FD" in env && env["PMI_FD"] == Decimal.ToString(fd) && fd in table && fd <= 0x7fff_ffff ==>
              result.Success? && Follows(result.value.Snap(), table, fd, newFd)
    ensures forall fd: nat :: "PMI_FD" in env && env["PMI_FD"] == Decimal.ToString(fd) && fd !in table && fd <= 0x7fff_ffff ==>
              result.Success? && StdioOnly(result.value.Snap(), table, env)
    ensures result.Failure? <==> PMI_FD in env && NamedByPmi(env).None?
    ensures result.Success? ==> ForContainer(result.value.Snap(), table, env, newFd)
  {
    newFd := 0;
    var handler := new Handler(table, limit, env, annotations);
    forall fd: nat | "PMI_FD" in env && env["PMI_FD"] == Decimal.ToString(fd) && fd <= 0x7fff_ffff
      ensures NamedByPmi(env) == Some(fd)
    {
      Decimal.StoiOfToString(fd);
    }
    var preserved := handler.PreservePMIFdIfAny();
    if preserved.Failure? {
      return Failure(preserved.error), newFd;
    }
    PreservedWithPmi(env, handler.preserve);
    var applied, kept, fds, moved, origin := handler.Apply();
    NewNumbers(table, env, annotations, kept, handler.Snap(), handler.preserve, fds, moved, origin);
    newFd := if NamedByPmi(env).Some? && NamedByPmi(env).value in moved then moved[NamedByPmi(env).value] else 0;
    result := Success(handler);
  }

  /** Stdin, stdout and stderr as before, and nothing else open or changed. */
  ghost predicate StdioOnly(s: Snapshot, table: Table, env: map<string, string>) {
    && (forall k :: k in s.table <==> 0 <= k <= 2)
    && (forall k :: 0 <= k <= 2 ==> k in table && s.table[k] == table[k])
    && s.extra == 0 && s.env == env
  }

  /** Descriptors without gap, stdio as before, and PMI_FD the number of a descriptor of the file that fd was open on. */
  ghost predicate Follows(s: Snapshot, table: Table, fd: int, newFd: int) {
    && (forall k :: k in s.table <==> 0 <= k < 3 + s.extra) && s.extra == (if fd > 2 then 1 else 0)
    && (forall k :: 0 <= k <= 2 ==> k in table && s.table[k] == table[k])
    && newFd >= 0 && "PMI_FD" in s.env && s.env["PMI_FD"] == Decimal.ToString(newFd)
    && newFd in s.table && fd in table && s.table[newFd] == table[fd]
  }

  ghost predicate ForContainer(s: Snapshot, table: Table, env: map<string, string>, newFd: int) {
    var pmi := NamedByPmi(env);
    if pmi.Some? && pmi.value in table then Follows(s, table, pmi.value, newFd) else StdioOnly(s, table, env)
  }

  /** What is preserved: stdio, and the descriptor that PMI_FD names, which is reported under it. */
  ghost predicate PreservesPmi(env: map<string, string>, preserve: map<int, Info>) {
    && (forall fd :: fd in preserve <==> 0 <= fd <= 2 || Some(fd) == NamedByPmi(env))
    && (forall fd :: fd in preserve ==> !preserve[fd].forceDup)
    && (forall fd :: fd in preserve ==>
          preserve[fd].containerEnvVariable == if Some(fd) == NamedByPmi(env) then Some(PMI_FD) else None)
  }

  lemma PreservedWithPmi(env: map<string, string>, preserve: map<int, Info>)
    requires preserve == WithPmi(env) && !(PMI_FD in env && NamedByPmi(env).None?)
    ensures PreservesPmi(env, preserve)
  {
  }

  /** The handler's map after it has looked at PMI_FD. */
  function WithPmi(env: map<string, string>): map<int, Info> {
    var pmi := NamedByPmi(env);
    if pmi.Some? then STDIO[pmi.value := Info("PMI", Some(PMI_FD), None, false)] else STDIO
  }

  lemma NewNumbers(table: Table, env: map<string, string>, annotations: map<string, string>, kept: Table, s: Snapshot,
                   preserve: map<int, Info>, fds: seq<int>, moved: map<int, int>, origin: map<int, int>)
    requires 0 in table && 1 in table && 2 in table && forall fd :: fd in table ==> 0 <= fd
    requires PreservesPmi(env, preserve) && KeptOf(kept, table, preserve)
    requires StrictlySorted(fds) && forall fd :: fd in fds <==> fd in kept
    requires Compacted(kept, env, annotations, s, preserve, fds, moved, origin)
    ensures var pmi := NamedByPmi(env);
      ForContainer(s, table, env, if pmi.Some? && pmi.value in moved then moved[pmi.value] else 0)
  {
    var pmi := NamedByPmi(env);
    if pmi.Some? && pmi.value in table {
      PmiFollows(kept, env, annotations, s, preserve, fds, moved, origin, pmi.value);
    } else {
      OnlyStdio(kept, env, annotations, s, preserve, fds, moved, origin);
    }
  }

  lemma {:induction false} NothingReported(env: map<string, string>, preserve: map<int, Info>, fds: seq<int>, moved: map<int, int>, n: nat)
    requires n <= |fds| && forall j :: 0 <= j < n ==> fds[j] in preserve && fds[j] in moved && moved[fds[j]] >= 0
    requires forall j :: 0 <= j < n ==> preserve[fds[j]].containerEnvVariable.None?
    ensures EnvAfter(env, preserve, fds, moved, n) == env
    decreases n
  {
    if n > 0 {
      NothingReported(env, preserve, fds, moved, n - 1);
    }
  }

  /** With nothing but stdio kept, the environment stays. */
  lemma OnlyStdio(kept: Table, env: map<string, string>, annotations: map<string, string>, s: Snapshot,
                  preserve: map<int, Info>, fds: seq<int>, moved: map<int, int>, origin: map<int, int>)
    requires StrictlySorted(fds) && (forall fd :: fd in fds <==> 0 <= fd <= 2)
    requires Compacted(kept, env, annotations, s, preserve, fds, moved, origin)
    requires forall fd :: fd in preserve ==> !preserve[fd].forceDup
    requires forall fd :: 0 <= fd <= 2 ==> fd in preserve && preserve[fd].containerEnvVariable.None?
    ensures s.extra == 0 && s.env == env
    ensures forall fd :: 0 <= fd <= 2 ==> fd in s.table && fd in kept && s.table[fd] == kept[fd]
  {
    NoneForced(preserve, fds, |fds|);
    SizeOfFds(fds, 0);
    forall j | 0 <= j < |fds|
      ensures 0 <= fds[j] <= 2
    {
      assert fds[j] in fds;
    }
    NothingReported(env, preserve, fds, moved, |fds|);
    StdioStays(kept, s, preserve, fds, moved, origin);
  }

  lemma StdioStays(kept: Table, s: Snapshot, preserve: map<int, Info>, fds: seq<int>, moved: map<int, int>, origin: map<int, int>)
    requires Tracks(s.table, origin, kept, preserve, fds, |fds|, moved)
    requires 0 in fds && 1 in fds && 2 in fds
    ensures forall fd :: 0 <= fd <= 2 ==> fd in s.table && fd in kept && s.table[fd] == kept[fd]
  {
    forall fd | 0 <= fd <= 2
      ensures fd in s.table && fd in kept && s.table[fd] == kept[fd]
    {
      assert fd in fds;
      var j :| 0 <= j < |fds| && fds[j] == fd;
    }
  }

  lemma {:induction false} NoneForced(preserve: map<int, Info>, fds: seq<int>, i: nat)
    requires i <= |fds| && forall fd :: fd in preserve ==> !preserve[fd].forceDup
    ensures ForcedBefore(preserve, fds, i) == 0
  {
    if i > 0 {
      NoneForced(preserve, fds, i - 1);
    }
  }

  /** With stdio and one more descriptor kept and nothing forced, the reported number denotes its file. */
  lemma PmiFollows(kept: Table, env: map<string, string>, annotations: map<string, string>, s: Snapshot,
                   preserve: map<int, Info>, fds: seq<int>, moved: map<int, int>, origin: map<int, int>, pmi: int)
    requires StrictlySorted(fds) && (forall fd :: fd in fds <==> 0 <= fd <= 2 || fd == pmi) && pmi >= 0
    requires Compacted(kept, env, annotations, s, preserve, fds, moved, origin)
    requires forall fd :: fd in preserve ==> !preserve[fd].forceDup
    requires forall fd :: fd in preserve ==> preserve[fd].containerEnvVariable == if fd == pmi then Some(PMI_FD) else None
    ensures s.extra == if pmi > 2 then 1 else 0
    ensures pmi in kept && pmi in moved && moved[pmi] >= 0 && PMI_FD in s.env && s.env[PMI_FD] == Decimal.ToString(moved[pmi])
    ensures moved[pmi] in s.table && s.table[moved[pmi]] == kept[pmi]
    ensures forall fd :: 0 <= fd <= 2 ==> fd in s.table && fd in kept && s.table[fd] == kept[fd]
  {
    NoneForced(preserve, fds, |fds|);
    SizeOfFds(fds, pmi);
    assert pmi in fds;
    var i :| 0 <= i < |fds| && fds[i] == pmi;
    EnvNames(env, preserve, fds, moved, i, |fds|, PMI_FD);
    StdioStays(kept, s, preserve, fds, moved, origin);
  }

  lemma SizeOfFds(fds: seq<int>, pmi: int)
    requires StrictlySorted(fds) && (forall fd :: fd in fds <==> 0 <= fd <= 2 || fd == pmi) && pmi >= 0
    ensures |fds| == if pmi > 2 then 4 else 3
  {
    StdioFirst(fds);
    assert pmi in fds;
    forall j | 3 <= j < |fds|
      ensures fds[j] == pmi
    {
      assert fds[j] in fds;
    }
    if |fds| > 3 {
      SortedGap(fds, 3, |fds| - 1);
    }
  }
}
