/**
Advisory locks on files: acquisition with a time-out, conversion, moving and release.  A lock
belongs to the file that the descriptor was opened on, which need not be the one its path names
later on.
 */
module Flock {
  import opened Wrappers

  datatype Type = ReadLock | WriteLock

  /** An open descriptor: the file it is open on, and the lock held through it. */
  datatype Descriptor = Descriptor(inode: nat, held: Option<Type>)

  /** What the other processes have made of the files: the file that a path names, and their strongest lock on each file. */
  datatype World = World(inodes: map<string, nat>, locks: map<nat, Type>)

  predicate Conflict(a: Type, b: Type) { a == WriteLock || b == WriteLock }

  /** Some other process holds a lock on the file that excludes this one. */
  predicate BlockedByOthers(world: World, inode: nat, t: Type) {
    inode in world.locks && Conflict(world.locks[inode], t)
  }

  /** Some descriptor of this process among the given ones does. */
  ghost predicate BlockedIn(descriptors: map<nat, Descriptor>, inode: nat, t: Type) {
    exists k :: k in descriptors && descriptors[k].inode == inode && descriptors[k].held.Some? && Conflict(descriptors[k].held.value, t)
  }

  /** A write lock excludes every other lock on its file. */
  ghost predicate Compatible(open: map<nat, Descriptor>) {
    forall j, k :: j in open && k in open && j != k && open[j].inode == open[k].inode && open[j].held.Some? && open[k].held.Some? ==>
      !Conflict(open[j].held.value, open[k].held.value)
  }

  lemma LockKeepsCompatible(open: map<nat, Descriptor>, fd: nat, t: Type)
    requires Compatible(open) && fd in open && !BlockedIn(open - {fd}, open[fd].inode, t)
    ensures Compatible(open[fd := Descriptor(open[fd].inode, Some(t))])
  {
    forall k | k in open && k != fd && open[k].inode == open[fd].inode && open[k].held.Some?
      ensures !Conflict(open[k].held.value, t)
    {
      assert k in open - {fd};
    }
  }

  predicate IsLowestFree(open: map<nat, Descriptor>, fd: nat) {
    fd !in open && forall k :: 0 <= k < fd ==> k in open
  }

  /** The descriptors of this process. */
  class Descriptors {
    var open: map<nat, Descriptor>

    ghost predicate Valid()
      reads this
    {
      Compatible(open)
    }

    /** open(2) takes the lowest free number. */
    method Open(inode: nat) returns (fd: nat)
      requires Valid()
      modifies this
      ensures Valid() && IsLowestFree(old(open), fd) && open == old(open)[fd := Descriptor(inode, None)]
    {
      fd := 0;
      ghost var above := open.Keys;
      while fd in open
        invariant forall k :: 0 <= k < fd ==> k in open
        invariant forall k :: k in above <==> k in open && fd <= k
        decreases |above|
      {
        above := above - {fd};
        fd := fd + 1;
      }
      open := open[fd := Descriptor(inode, None)];
    }

    /** The non-blocking system call: a lock that cannot be had costs the one held before. */
    method TryLock(fd: nat, t: Type, world: World) returns (ok: bool)
      requires Valid() && fd in open
      modifies this`open
      ensures Valid()
      ensures ok <==> !BlockedByOthers(world, old(open)[fd].inode, t) && !BlockedIn(old(open) - {fd}, old(open)[fd].inode, t)
      ensures open == old(open)[fd := Descriptor(old(open)[fd].inode, if ok then Some(t) else None)]
    {
      var inode := open[fd].inode;
      var others := open - {fd};
      var blocked := exists k :: k in others && others[k].inode == inode && others[k].held.Some? && Conflict(others[k].held.value, t);
      ok := !blocked && !BlockedByOthers(world, inode, t);
      if ok {
        LockKeepsCompatible(open, fd, t);
      }
      open := open[fd := Descriptor(inode, if ok then Some(t) else None)];
    }

    /** Closing a descriptor that is not open only fails. */
    method Close(fd: nat)
      requires Valid()
      modifies this`open
      ensures Valid() && open == old(open) - {fd}
    {
      open := open - {fd};
    }
  }

  // ---------------------------------------------------------------- how acquisition goes

  const NO_TIMEOUT: int := -1

  predicate GivesUp(timeoutMs: int, waits: nat) { timeoutMs != NO_TIMEOUT && 100 * waits >= timeoutMs }

  /** The file open after an attempt: the one open before, else the one the path names. */
  function OpenedBy(before: Option<nat>, path: string, world: World): Option<nat> {
    if before.Some? then before else if path in world.inodes then Some(world.inodes[path]) else None
  }

  /** The file that is locked or waited for after so many waits. */
  function InodeAfter(start: Option<nat>, path: string, world: nat -> World, waits: nat): Option<nat> {
    OpenedBy(if waits == 0 then start else InodeAfter(start, path, world, waits - 1), path, world(waits))
  }

  /** After so many waits the lock is to be had, with the given other descriptors in the process. */
  ghost predicate Granted(rest: map<nat, Descriptor>, inode: Option<nat>, world: World, t: Type) {
    inode.Some? && !BlockedByOthers(world, inode.value, t) && !BlockedIn(rest, inode.value, t)
  }

  /** A read lock is to be had beside read locks only, a write lock beside no other lock. */
  lemma GrantedIff(rest: map<nat, Descriptor>, inode: nat, world: World, t: Type)
    ensures Granted(rest, Some(inode), world, t) <==>
      && (inode in world.locks ==> t == ReadLock && world.locks[inode] == ReadLock)
      && (forall k :: k in rest && rest[k].inode == inode && rest[k].held.Some? ==> t == ReadLock && rest[k].held == Some(ReadLock))
  {
  }

  /** The attempt after so many waits neither succeeds nor is the last one. */
  ghost predicate GoesOn(
      rest: map<nat, Descriptor>, start: Option<nat>, path: string, world: nat -> World, t: Type, timeoutMs: int, waits: nat)
  {
    !Granted(rest, InodeAfter(start, path, world, waits), world(waits), t) && !GivesUp(timeoutMs, waits)
  }

  /** How far an acquisition has come: done, given up, or still waiting. */
  datatype Acquisition = Acquired | TimedOut | StillWaiting

  /** A time-out in milliseconds is given up within ceil(T/100) + 1 attempts. */
  lemma GivesUpInTime(timeoutMs: nat)
    ensures GivesUp(timeoutMs, (timeoutMs + 99) / 100)
    ensures forall waits: nat :: GivesUp(timeoutMs, waits) ==> (timeoutMs + 99) / 100 <= waits
  {
  }

  /** A waiting process keeps the file it opened first, whatever the path names by then. */
  lemma {:induction false} InodeStays(start: Option<nat>, path: string, world: nat -> World, first: nat, waits: nat)
    requires first <= waits && InodeAfter(start, path, world, first).Some?
    ensures InodeAfter(start, path, world, waits) == InodeAfter(start, path, world, first)
  {
    if first < waits {
      InodeStays(start, path, world, first, waits - 1);
    }
  }

  lemma {:induction false} StartStays(start: Option<nat>, path: string, world: nat -> World, waits: nat)
    requires start.Some?
    ensures InodeAfter(start, path, world, waits) == start
  {
    if waits > 0 {
      StartStays(start, path, world, waits - 1);
    }
  }

  class Lock {
    var lockfile: string
    var lockType: Type
    var fd: int
    var timeoutMs: int

    constructor (file: string, lockType: Type, timeoutMs: int)
      ensures lockfile == file && this.lockType == lockType && fd == -1 && this.timeoutMs == timeoutMs
    {
      lockfile, this.lockType, fd, this.timeoutMs := file, lockType, -1, timeoutMs;
    }

    ghost predicate Opened(files: Descriptors)
      reads this, files
    {
      files.Valid() && (fd >= 0 ==> fd in files.open)
    }

    /** The file that the object has open. */
    ghost function OpenOn(files: Descriptors): Option<nat>
      reads this, files
    {
      if fd >= 0 && fd in files.open then Some(files.open[fd].inode) else None
    }

    ghost predicate Holds(files: Descriptors, inode: nat)
      reads this, files
    {
      fd >= 0 && fd in files.open && files.open[fd] == Descriptor(inode, Some(lockType))
    }

    /** What the other descriptors of the process are. */
    ghost function Rest(files: Descriptors): map<nat, Descriptor>
      reads this, files
    {
      if fd >= 0 then files.open - {fd} else files.open
    }

    /** The outcome of an attempt: what is open, and what is held, while the other descriptors are as given. */
    ghost predicate Tried(files: Descriptors, rest: map<nat, Descriptor>, inode: Option<nat>, world: World, ok: bool)
      reads this, files
    {
      && Opened(files) && Rest(files) == rest && OpenOn(files) == inode
      && (ok <==> Granted(rest, inode, world, lockType))
      && (ok ==> Holds(files, inode.value))
      && (!ok && inode.Some? ==> files.open[fd].held == None)
    }

    /** One attempt: opens the file unless that is done, and tries to lock what is open. */
    method AcquireLockAtomically(files: Descriptors, world: World) returns (ok: bool)
      requires Opened(files)
      modifies this`fd, files
      ensures Tried(files, old(Rest(files)), OpenedBy(old(OpenOn(files)), lockfile, world), world, ok)
    {
      if fd < 0 {
        if lockfile !in world.inodes {
          return false;
        }
        fd := files.Open(world.inodes[lockfile]);
      }
      ok := files.TryLock(fd, lockType, world);
    }

    /**
    The first attempts of an acquisition, which goes on until the lock is to be had or the time is
    over.  Here world(n) is what the other processes have made of the files after n waits.
     */
    method TimedLockAcquisition(files: Descriptors, world: nat -> World, attempts: nat) returns (outcome: Acquisition, waits: nat)
      requires Opened(files) && attempts > 0
      modifies this`fd, files
      ensures waits < attempts
      ensures Tried(files, old(Rest(files)), InodeAfter(old(OpenOn(files)), lockfile, world, waits), world(waits), outcome.Acquired?)
      ensures forall n: nat :: n < waits ==> GoesOn(old(Rest(files)), old(OpenOn(files)), lockfile, world, lockType, timeoutMs, n)
      ensures outcome.TimedOut? ==> GivesUp(timeoutMs, waits)
      ensures outcome.StillWaiting? ==>
                waits + 1 == attempts && GoesOn(old(Rest(files)), old(OpenOn(files)), lockfile, world, lockType, timeoutMs, waits)
    {
      ghost var start, rest := OpenOn(files), Rest(files);
      waits := 0;
      var elapsed := 0;
      var ok := AcquireLockAtomically(files, world(0));
      while !ok
        invariant waits < attempts && elapsed == 100 * waits
        invariant Tried(files, rest, InodeAfter(start, lockfile, world, waits), world(waits), ok)
        invariant forall n: nat :: n < waits ==> GoesOn(rest, start, lockfile, world, lockType, timeoutMs, n)
        decreases attempts - waits
      {
        if timeoutMs != NO_TIMEOUT && elapsed >= timeoutMs {
          return TimedOut, waits;
        }
        assert GoesOn(rest, start, lockfile, world, lockType, timeoutMs, waits);
        if waits + 1 == attempts {
          return StillWaiting, waits;
        }
        elapsed := elapsed + 100;
        waits := waits + 1;
        ok := AcquireLockAtomically(files, world(waits));
      }
      return Acquired, waits;
    }

    /** Conversion works on the file that is open; while it waits, and if it times out, there is no lock, under the new type. */
    method ConvertToType(files: Descriptors, t: Type, world: nat -> World, attempts: nat) returns (outcome: Acquisition)
      requires Opened(files) && attempts > 0
      modifies this`fd, this`lockType, files
      ensures Opened(files) && Rest(files) == old(Rest(files)) && lockType == t
      ensures old(lockType) == t ==> outcome.Acquired? && files.open == old(files.open) && fd == old(fd)
      ensures old(OpenOn(files)).Some? ==> OpenOn(files) == old(OpenOn(files))
      ensures old(lockType) != t && outcome.Acquired? ==> OpenOn(files).Some? && Holds(files, OpenOn(files).value)
      ensures !outcome.Acquired? && OpenOn(files).Some? ==> files.open[fd].held == None
    {
      outcome := Acquired;
      if t != lockType {
        lockType := t;
        var waits;
        outcome, waits := TimedLockAcquisition(files, world, attempts);
        if old(OpenOn(files)).Some? {
          StartStays(old(OpenOn(files)), lockfile, world, waits);
        }
      }
    }

    /** Gives up the lock and closes the file; the object keeps the number. */
    method Release(files: Descriptors)
      requires files.Valid()
      modifies files
      ensures files.Valid() && files.open == if fd >= 0 then old(files.open) - {fd} else old(files.open)
    {
      if fd >= 0 {
        files.Close(fd);
      }
    }

    /** Move assignment releases what the object held, and shares the descriptor with the source from then on. */
    method MoveAssign(files: Descriptors, rhs: Lock)
      requires files.Valid()
      modifies this, files
      ensures files.Valid() && files.open == if old(fd) >= 0 then old(files.open) - {old(fd)} else old(files.open)
      ensures lockfile == old(rhs.lockfile) && lockType == old(rhs.lockType) && fd == old(rhs.fd) && timeoutMs == old(rhs.timeoutMs)
      ensures rhs != this ==> rhs.fd == fd
    {
      Release(files);
      lockType := rhs.lockType;
      lockfile := rhs.lockfile;
      fd := rhs.fd;
      timeoutMs := rhs.timeoutMs;
    }
  }

  /**
  Handing a lock over: the assignment alone keeps the lock held exactly if the two objects did not
  share the descriptor before, but once the source is destroyed nothing is locked any more.
   */
  method HandOver(files: Descriptors, lhs: Lock, rhs: Lock, ghost inode: nat)
    requires files.Valid() && lhs != rhs && rhs.Holds(files, inode)
    modifies lhs, files
    ensures files.Valid() && lhs.fd == rhs.fd && lhs.fd !in files.open
    ensures forall i :: !lhs.Holds(files, i)
    ensures files.open == AfterHandOver(old(files.open), old(lhs.fd), rhs.fd)
  {
    ghost var before := lhs.fd;
    lhs.MoveAssign(files, rhs);
    assert lhs.Holds(files, inode) <==> before != rhs.fd;
    rhs.Release(files);
  }

  /**
  The target of a hand-over keeps the closed number.  If the process then opens another file, releasing
  the target closes that file, exactly if the number is the lowest free one.
   */
  method ReleaseAfterHandOver(files: Descriptors, lhs: Lock, rhs: Lock, ghost inode: nat, other: nat) returns (fd: nat)
    requires files.Valid() && lhs != rhs && rhs.Holds(files, inode)
    modifies lhs, files
    ensures files.Valid() && fd !in AfterHandOver(old(files.open), old(lhs.fd), rhs.fd)
    ensures fd in files.open <==> !IsLowestFree(AfterHandOver(old(files.open), old(lhs.fd), rhs.fd), rhs.fd)
    ensures fd in files.open ==> files.open[fd].inode == other
    ensures forall k :: k in AfterHandOver(old(files.open), old(lhs.fd), rhs.fd) ==>
              k in files.open && files.open[k] == old(files.open)[k]
  {
    HandOver(files, lhs, rhs, inode);
    fd := files.Open(other);
    lhs.Release(files);
  }

  /** The descriptors left by a hand-over. */
  ghost function AfterHandOver(open: map<nat, Descriptor>, lhs: int, rhs: int): map<nat, Descriptor> {
    map k | k in open && k != lhs && k != rhs :: open[k]
  }
}
