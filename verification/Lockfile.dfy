/**
A lock that is held by whoever created a file: acquisition with a time-out, hand-over by moving, and
release.  Several processes work on the same directory, so between two attempts to create the file
the directory may change in any way.
 */
module Lockfile {
  import opened Wrappers

  const NO_TIMEOUT: nat := 4294967295
  const UINT_SIZE: nat := 4294967296
  const BACKOFF_MS: nat := 100

  // ---------------------------------------------------------------- how long acquisition goes on

  /** The unsigned 32-bit time counter after the given number of waits. */
  function Elapsed(waits: nat): nat { (BACKOFF_MS * waits) % UINT_SIZE }

  /** The attempt after that many waits, if it fails, is the last. */
  predicate GivesUp(timeoutMs: nat, waits: nat) {
    timeoutMs != NO_TIMEOUT && Elapsed(waits) >= timeoutMs
  }

  ghost predicate GivesUpEventually(timeoutMs: nat) {
    exists waits: nat :: GivesUp(timeoutMs, waits)
  }

  ghost predicate GivesUpWithin(timeoutMs: nat, attempts: nat) {
    exists waits: nat :: waits < attempts && GivesUp(timeoutMs, waits)
  }

  /** The counter runs through multiples of four only. */
  lemma ElapsedIsMultipleOfFour(waits: nat)
    ensures Elapsed(waits) % 4 == 0 && Elapsed(waits) <= UINT_SIZE - 4
  {
    ModuloKeepsFour(25 * waits);
  }

  lemma ModuloKeepsFour(quarter: nat)
    ensures (4 * quarter) % UINT_SIZE == 4 * (quarter % 1073741824)
  {
  }

  /** Acquisition ends for every 32-bit time-out except the three largest values. */
  lemma GivesUpEventuallyIff(timeoutMs: nat)
    requires timeoutMs < UINT_SIZE
    ensures GivesUpEventually(timeoutMs) <==> timeoutMs <= 4294967292
  {
    if timeoutMs <= 4294967292 {
      assert GivesUp(timeoutMs, 1030792151);
    } else if waits: nat :| GivesUp(timeoutMs, waits) {
      ElapsedIsMultipleOfFour(waits);
    }
  }

  function CeilDiv(a: nat, b: nat): nat
    requires b > 0
  {
    (a + b - 1) / b
  }

  /**
  A lock that stays taken is given up within ceil(T/100) + 1 attempts exactly for time-outs up to
  4294967200 ms; beyond, the counter wraps around first.
   */
  lemma GivesUpInTimeIff(timeoutMs: nat)
    requires timeoutMs < UINT_SIZE
    ensures GivesUpWithin(timeoutMs, CeilDiv(timeoutMs, BACKOFF_MS) + 1) <==> timeoutMs <= 4294967200
  {
    var n := CeilDiv(timeoutMs, BACKOFF_MS);
    if timeoutMs <= 4294967200 {
      assert GivesUp(timeoutMs, n);
    } else {
      forall waits: nat | waits < n + 1
        ensures !GivesUp(timeoutMs, waits)
      {
        assert waits <= 42949672 || Elapsed(waits) == 4;
      }
    }
  }

  // ---------------------------------------------------------------- the lock object

  class Directory {
    var files: set<string>

    constructor (files: set<string>)
      ensures this.files == files
    {
      this.files := files;
    }
  }

  function LockfileOf(file: string): string { file + ".lock" }

  /** How far an acquisition has come: done, given up, or still waiting. */
  datatype Acquisition = Acquired(lock: Lock) | TimedOut | StillWaiting

  class Lock {
    var lockfile: Option<string>

    /** A lock object that locks nothing. */
    constructor ()
      ensures lockfile == None
    {
      lockfile := None;
    }

    constructor Named(file: string)
      ensures lockfile == Some(file + ".lock")
    {
      lockfile := Some(LockfileOf(file));
    }

    /** Exclusive creation of the lockfile. */
    method CreateLockfileAtomically(dir: Directory) returns (created: bool)
      requires lockfile.Some?
      modifies dir
      ensures created <==> lockfile.value !in old(dir.files)
      ensures dir.files == old(dir.files) + {lockfile.value}
    {
      created := lockfile.value !in dir.files;
      dir.files := dir.files + {lockfile.value};
    }

    /**
    The first attempts to acquire the lock of a file, which go on until one succeeds or the time is
    over.  Here others(n) is the directory after n waits, as the other processes have left it.  On a
    time-out the object is gone and the lockfile stays as it was.
     */
    static method Acquire(dir: Directory, file: string, timeoutMs: nat, others: nat -> set<string>, attempts: nat)
      returns (outcome: Acquisition, waits: nat)
      requires timeoutMs < UINT_SIZE && attempts > 0
      modifies dir
      ensures waits < attempts && forall n :: 0 <= n < waits ==> LockfileOf(file) in others(n) && !GivesUp(timeoutMs, n)
      ensures outcome.Acquired? <==> LockfileOf(file) !in others(waits)
      ensures outcome.Acquired? ==> fresh(outcome.lock) && outcome.lock.lockfile == Some(LockfileOf(file))
      ensures outcome.TimedOut? ==> GivesUp(timeoutMs, waits)
      ensures outcome.StillWaiting? ==> !GivesUp(timeoutMs, waits) && waits + 1 == attempts
      ensures dir.files == others(waits) + {LockfileOf(file)}
    {
      var l := new Lock.Named(file);
      waits := 0;
      var elapsedTimeMs := 0;
      dir.files := others(0);
      var created := l.CreateLockfileAtomically(dir);
      while !created
        invariant waits < attempts && elapsedTimeMs == Elapsed(waits)
        invariant l.lockfile == Some(LockfileOf(file)) && dir.files == others(waits) + {LockfileOf(file)}
        invariant created <==> LockfileOf(file) !in others(waits)
        invariant forall n :: 0 <= n < waits ==> LockfileOf(file) in others(n) && !GivesUp(timeoutMs, n)
        decreases attempts - waits
      {
        if timeoutMs != NO_TIMEOUT && elapsedTimeMs >= timeoutMs {
          return TimedOut, waits;
        }
        if waits + 1 == attempts {
          return StillWaiting, waits;
        }
        elapsedTimeMs := (elapsedTimeMs + BACKOFF_MS) % UINT_SIZE;
        waits := waits + 1;
        ElapsedNext(waits - 1);
        dir.files := others(waits);
        created := l.CreateLockfileAtomically(dir);
      }
      return Acquired(l), waits;
    }

    /** Move construction. */
    constructor Move(rhs: Lock)
      requires rhs.lockfile.Some?
      modifies rhs
      ensures lockfile == old(rhs.lockfile) && rhs.lockfile == None
    {
      lockfile := rhs.lockfile;
      new;
      rhs.lockfile := None;
    }

    /** Move assignment, which releases what the object held before; assigning an object to itself releases it. */
    method MoveAssign(dir: Directory, rhs: Lock)
      requires rhs.lockfile.Some?
      modifies this, rhs, dir
      ensures rhs.lockfile == None
      ensures this != rhs ==> lockfile == old(rhs.lockfile)
      ensures dir.files == if old(lockfile).Some? then old(dir.files) - {old(lockfile).value} else old(dir.files)
    {
      if lockfile.Some? {
        dir.files := dir.files - {lockfile.value};
      }
      lockfile := rhs.lockfile;
      rhs.lockfile := None;
    }

    /** The destructor; afterwards the object is gone. */
    method Destroy(dir: Directory)
      modifies dir
      ensures dir.files == if lockfile.Some? then old(dir.files) - {lockfile.value} else old(dir.files)
    {
      if lockfile.Some? {
        dir.files := dir.files - {lockfile.value};
      }
    }
  }

  lemma ElapsedNext(waits: nat)
    ensures Elapsed(waits + 1) == (Elapsed(waits) + BACKOFF_MS) % UINT_SIZE
  {
    AddedModulo(BACKOFF_MS * waits);
  }

  lemma AddedModulo(total: nat)
    ensures (total + BACKOFF_MS) % UINT_SIZE == (total % UINT_SIZE + BACKOFF_MS) % UINT_SIZE
  {
  }

  // ---------------------------------------------------------------- exclusiveness

  /** The lock objects, of all processes, that hold a lockfile. */
  ghost function Owners(locks: set<Lock>, path: string): set<Lock>
    reads locks
  {
    set l | l in locks && l.lockfile == Some(path)
  }

  /** What is held exists, and is held once. */
  ghost predicate Exclusive(dir: Directory, locks: set<Lock>)
    reads dir, locks
  {
    && (forall l :: l in locks && l.lockfile.Some? ==> l.lockfile.value in dir.files)
    && (forall k, l :: k in locks && l in locks && k.lockfile.Some? && k.lockfile == l.lockfile ==> k == l)
  }

  /** A new lock is the only one on its file. */
  method AcquireKeepsExclusive(dir: Directory, locks: set<Lock>, file: string) returns (lock: Option<Lock>)
    requires Exclusive(dir, locks)
    modifies dir
    ensures lock.Some? ==> fresh(lock.value) && Exclusive(dir, locks + {lock.value})
    ensures lock.Some? ==> old(Owners(locks, LockfileOf(file))) == {} && Owners(locks + {lock.value}, LockfileOf(file)) == {lock.value}
    ensures lock.None? ==> Exclusive(dir, locks) && dir.files == old(dir.files)
  {
    var l := new Lock.Named(file);
    var created := l.CreateLockfileAtomically(dir);
    lock := if created then Some(l) else None;
  }

  /** Move construction leaves the file locked, by the new object alone. */
  method MoveKeepsExclusive(dir: Directory, locks: set<Lock>, rhs: Lock) returns (lock: Lock)
    requires Exclusive(dir, locks) && rhs in locks && rhs.lockfile.Some?
    modifies rhs
    ensures fresh(lock) && Exclusive(dir, locks + {lock})
    ensures Owners(locks + {lock}, old(rhs.lockfile).value) == {lock}
    ensures forall p :: p != old(rhs.lockfile).value ==> Owners(locks + {lock}, p) == old(Owners(locks, p))
  {
    lock := new Lock.Move(rhs);
  }

  /** Move assignment between two objects hands over one lock and frees the other. */
  method MoveAssignKeepsExclusive(dir: Directory, locks: set<Lock>, lhs: Lock, rhs: Lock)
    requires Exclusive(dir, locks) && lhs in locks && rhs in locks && lhs != rhs && rhs.lockfile.Some?
    modifies lhs, rhs, dir
    ensures Exclusive(dir, locks)
    ensures Owners(locks, old(rhs.lockfile).value) == {lhs} && old(rhs.lockfile).value in dir.files
    ensures old(lhs.lockfile).Some? ==> Owners(locks, old(lhs.lockfile).value) == {} && old(lhs.lockfile).value !in dir.files
  {
    lhs.MoveAssign(dir, rhs);
  }

  /** Destroying an object frees its lock and no other; destroying one that was moved from frees nothing. */
  method DestroyKeepsExclusive(dir: Directory, locks: set<Lock>, lock: Lock)
    requires Exclusive(dir, locks) && lock in locks
    modifies dir
    ensures Exclusive(dir, locks - {lock})
    ensures lock.lockfile.None? ==> dir.files == old(dir.files)
    ensures forall p :: Some(p) != lock.lockfile ==> Owners(locks - {lock}, p) == Owners(locks, p)
  {
    lock.Destroy(dir);
  }
}
