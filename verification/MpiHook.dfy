/**
Replacing the container's MPI libraries by the host's: which container libraries correspond to a
host library, the checks before anything is mounted, and what is done with every host library.
 */
module MpiHook {
  import opened Wrappers
  import opened MpiLibraries

  type Path = seq<string>
  type LibsMap = map<Path, seq<Library>>

  // ---------------------------------------------------------------- the compatibility checkers

  datatype Kind = Major | Full | Strict | Dependencies

  /** What a check answers when it does not throw: whether compatible, and whether with a warning. */
  datatype Verdict = Verdict(compatible: bool, warned: bool)

  datatype HookError = NoMpiLibraries | HostWithoutVersion | ContainerWithoutVersion | NotAbiCompatible | MountFailed

  function Check(kind: Kind, host: Library, container: Library): Result<Verdict, HookError> {
    match kind
    case Major => if AreMajorAbiCompatible(host, container) then Success(Verdict(true, false)) else Failure(NotAbiCompatible)
    case Strict => if AreStrictlyAbiCompatible(host, container) then Success(Verdict(true, false)) else Failure(NotAbiCompatible)
    case Full => CheckFull(host, container)
    case Dependencies =>
      var full := CheckFull(host, container);
      if full.Success? then full else Success(Verdict(false, true))
  }

  function CheckFull(host: Library, container: Library): Result<Verdict, HookError> {
    if AreFullAbiCompatible(host, container) then Success(Verdict(true, false))
    else if AreMajorAbiCompatible(host, container) then Success(Verdict(true, true))
    else Failure(NotAbiCompatible)
  }

  predicate SameMajor(host: Library, container: Library) {
    host.linkerName == container.linkerName && host.major == container.major
  }

  /** The container's minor number is newer, where no number is older than every number. */
  predicate NewerMinor(host: Library, container: Library) {
    container.minor.Some? && (host.minor.None? || host.minor.value < container.minor.value)
  }

  /** What a check lets pass, in terms of linker name, major and minor number. */
  predicate PairPasses(kind: Kind, host: Library, container: Library) {
    match kind
    case Strict => host.linkerName == container.linkerName && host.major == container.major && host.minor == container.minor
    case Major => host.linkerName == container.linkerName && host.major == container.major
    case Full => host.linkerName == container.linkerName && host.major == container.major
    case Dependencies => true
  }

  lemma CheckPassesIff(kind: Kind, host: Library, container: Library)
    ensures Check(kind, host, container).Success? <==> PairPasses(kind, host, container)
    ensures Check(kind, host, container).Failure? ==> Check(kind, host, container).error == NotAbiCompatible
  {
  }

  /** Which checks warn: the full one about a newer minor number, the one for dependencies about anything less than full. */
  lemma CheckWarnsIff(kind: Kind, host: Library, container: Library)
    requires Check(kind, host, container).Success?
    ensures var verdict := Check(kind, host, container).value;
      match kind
      case Strict => verdict == Verdict(true, false)
      case Major => verdict == Verdict(true, false)
      case Full => verdict == Verdict(true, NewerMinor(host, container))
      case Dependencies =>
        verdict == Verdict(SameMajor(host, container), !SameMajor(host, container) || NewerMinor(host, container))
  {
  }

  // ---------------------------------------------------------------- host to container libraries

  /** The container libraries with a host library's linker name, in their order. */
  function Namesakes(host: Library, containerLibs: seq<Library>): seq<Library> {
    if containerLibs == [] then []
    else
      var before := Namesakes(host, containerLibs[..|containerLibs| - 1]);
      var last := containerLibs[|containerLibs| - 1];
      if host.linkerName == last.linkerName then before + [last] else before
  }

  /** What a host path is mapped to: the namesakes of every host library with that path, in turn. */
  function Mapped(path: Path, hostLibs: seq<Library>, containerLibs: seq<Library>): seq<Library> {
    if hostLibs == [] then []
    else
      var before := Mapped(path, hostLibs[..|hostLibs| - 1], containerLibs);
      var last := hostLibs[|hostLibs| - 1];
      if last.path == path then before + Namesakes(last, containerLibs) else before
  }

  lemma {:induction false} NamesakesMembers(host: Library, containerLibs: seq<Library>, c: Library)
    ensures c in Namesakes(host, containerLibs) <==> c in containerLibs && c.linkerName == host.linkerName
  {
    if containerLibs != [] {
      NamesakesMembers(host, containerLibs[..|containerLibs| - 1], c);
    }
  }

  /** A container library is mapped to a host path exactly if a host library with that path has its linker name. */
  lemma {:induction false} MappedMembers(path: Path, hostLibs: seq<Library>, containerLibs: seq<Library>, c: Library)
    ensures c in Mapped(path, hostLibs, containerLibs) <==>
            c in containerLibs && exists h :: h in hostLibs && h.path == path && h.linkerName == c.linkerName
  {
    if hostLibs != [] {
      var before, last := hostLibs[..|hostLibs| - 1], hostLibs[|hostLibs| - 1];
      MappedMembers(path, before, containerLibs, c);
      NamesakesMembers(last, containerLibs, c);
      assert hostLibs == before + [last];
    }
  }

  /** The libraries listed for a key, none if it is missing. */
  function At(m: LibsMap, path: Path): seq<Library> {
    if path in m then m[path] else []
  }

  ghost predicate NoEmptyEntry(m: LibsMap) {
    forall p :: p in m ==> m[p] != []
  }

  /** The map from host paths to container libraries; a path without namesakes is not a key. */
  ghost function MapOf(hostLibs: seq<Library>, containerLibs: seq<Library>): (m: LibsMap)
    ensures NoEmptyEntry(m)
    ensures forall p :: At(m, p) == Mapped(p, hostLibs, containerLibs)
  {
    var paths := set h | h in hostLibs :: h.path;
    forall p | p !in paths ensures Mapped(p, hostLibs, containerLibs) == [] { MappedOtherPath(p, hostLibs, containerLibs); }
    map p | p in paths && Mapped(p, hostLibs, containerLibs) != [] :: Mapped(p, hostLibs, containerLibs)
  }

  lemma {:induction false} MappedOtherPath(path: Path, hostLibs: seq<Library>, containerLibs: seq<Library>)
    requires forall h :: h in hostLibs ==> h.path != path
    ensures Mapped(path, hostLibs, containerLibs) == []
  {
    if hostLibs != [] {
      MappedOtherPath(path, hostLibs[..|hostLibs| - 1], containerLibs);
    }
  }

  lemma SameMap(m: LibsMap, m': LibsMap)
    requires NoEmptyEntry(m) && NoEmptyEntry(m') && forall p :: At(m, p) == At(m', p)
    ensures m == m'
  {
    forall p
      ensures p in m <==> p in m'
      ensures p in m ==> m[p] == m'[p]
    {
      assert At(m, p) == At(m', p);
    }
  }

  method MapHostToContainerLibs(hostLibs: seq<Library>, containerLibs: seq<Library>) returns (m: LibsMap)
    ensures m == MapOf(hostLibs, containerLibs)
  {
    m := map[];
    for i := 0 to |hostLibs|
      invariant NoEmptyEntry(m)
      invariant forall p :: At(m, p) == Mapped(p, hostLibs[..i], containerLibs)
    {
      var host := hostLibs[i];
      ghost var start := m;
      for j := 0 to |containerLibs|
        invariant NoEmptyEntry(m)
        invariant At(m, host.path) == At(start, host.path) + Namesakes(host, containerLibs[..j])
        invariant forall p :: p != host.path ==> At(m, p) == At(start, p)
      {
        var container := containerLibs[j];
        assert containerLibs[..j + 1][..j] == containerLibs[..j];
        if host.linkerName == container.linkerName {
          m := m[host.path := At(m, host.path) + [container]];
        }
      }
      assert containerLibs[..|containerLibs|] == containerLibs;
      assert hostLibs[..i + 1][..i] == hostLibs[..i];
    }
    assert hostLibs[..|hostLibs|] == hostLibs;
    SameMap(m, MapOf(hostLibs, containerLibs));
  }

  // ---------------------------------------------------------------- the checks before injecting

  predicate Versioned(libs: seq<Library>) {
    forall l :: l in libs ==> l.HasMajorVersion()
  }

  predicate SomeVersioned(libs: seq<Library>) {
    exists l :: l in libs && l.HasMajorVersion()
  }

  predicate EveryEntryVersioned(m: LibsMap) {
    forall p :: p in m ==> SomeVersioned(m[p])
  }

  predicate AllPass(kind: Kind, host: Library, libs: seq<Library>) {
    forall c :: c in libs ==> Check(kind, host, c).Success?
  }

  predicate EveryEntryPasses(kind: Kind, load: Path -> Library, m: LibsMap) {
    forall p :: p in m ==> AllPass(kind, load(p), m[p])
  }

  method CheckHostLibrariesHaveAbiVersion(hostLibs: seq<Library>) returns (ok: bool)
    ensures ok <==> Versioned(hostLibs)
  {
    for i := 0 to |hostLibs|
      invariant forall j :: 0 <= j < i ==> hostLibs[j].HasMajorVersion()
    {
      if !hostLibs[i].HasMajorVersion() {
        assert hostLibs[i] in hostLibs;
        return false;
      }
    }
    return true;
  }

  method CheckContainerLibrariesHaveAbiVersion(m: LibsMap) returns (ok: bool)
    ensures ok <==> EveryEntryVersioned(m)
  {
    var left := m.Keys;
    while left != {}
      invariant left <= m.Keys
      invariant forall p :: p in m && p !in left ==> SomeVersioned(m[p])
    {
      var p :| p in left;
      var found := false;
      for i := 0 to |m[p]|
        invariant !found
        invariant forall j :: 0 <= j < i ==> !m[p][j].HasMajorVersion()
      {
        if m[p][i].HasMajorVersion() {
          found := true;
          break;
        }
      }
      if !found {
        return false;
      }
      left := left - {p};
    }
    return true;
  }

  method CheckHostContainerAbiCompatibility(kind: Kind, load: Path -> Library, m: LibsMap) returns (ok: bool)
    ensures ok <==> EveryEntryPasses(kind, load, m)
  {
    var left := m.Keys;
    while left != {}
      invariant left <= m.Keys
      invariant forall p :: p in m && p !in left ==> AllPass(kind, load(p), m[p])
    {
      var p :| p in left;
      var host := load(p);
      for i := 0 to |m[p]|
        invariant forall j :: 0 <= j < i ==> Check(kind, host, m[p][j]).Success?
      {
        if Check(kind, host, m[p][i]).Failure? {
          assert !AllPass(kind, host, m[p]);
          return false;
        }
      }
      left := left - {p};
    }
    return true;
  }

  // ---------------------------------------------------------------- injecting

  datatype Action =
    /** Mount the host library over a container library. */
    | Override(host: Library, container: Library, preserveRootLinks: bool)
    /** Mount the host library into /lib. */
    | AddToLib(host: Library, preserveRootLinks: bool)

  predicate ContainerHasIncompatibleVersion(host: Library, libs: seq<Library>) {
    exists c :: c in libs && c.HasMajorVersion() && !AreFullAbiCompatible(host, c)
  }

  function Injection(kind: Kind, host: Library, m: LibsMap): Result<Action, HookError>
    requires At(m, host.path) == [] ==> host.path !in m
  {
    if host.path !in m then Success(AddToLib(host, false))
    else
      var best := Pick(host, m[host.path]);
      var incompatible := ContainerHasIncompatibleVersion(host, m[host.path]);
      var verdict := Check(kind, host, best);
      if verdict.Failure? then Failure(verdict.error)
      else if !verdict.value.warned then Success(Override(host, best, incompatible))
      else Success(AddToLib(host, if verdict.value.compatible then incompatible else true))
  }

  /** Injects the libraries in turn; mounts says which mounts the system performs. */
  method InjectHostLibraries(kind: Kind, hostLibs: seq<Library>, m: LibsMap, mounts: Action -> bool)
      returns (error: Option<HookError>, actions: seq<Action>)
    requires NoEmptyEntry(m)
    ensures |actions| <= |hostLibs| && forall i :: 0 <= i < |actions| ==> InjectedAs(kind, hostLibs[i], m, mounts, actions[i])
    ensures error.None? ==> |actions| == |hostLibs|
    ensures error.Some? ==> |actions| < |hostLibs| && StopsWith(kind, hostLibs[|actions|], m, mounts, error.value)
  {
    actions := [];
    for i := 0 to |hostLibs|
      invariant |actions| == i
      invariant forall j :: 0 <= j < i ==> InjectedAs(kind, hostLibs[j], m, mounts, actions[j])
    {
      var injection := Injection(kind, hostLibs[i], m);
      if injection.Failure? {
        return Some(injection.error), actions;
      }
      if !mounts(injection.value) {
        return Some(MountFailed), actions;
      }
      actions := actions + [injection.value];
    }
    return None, actions;
  }

  ghost predicate InjectedAs(kind: Kind, host: Library, m: LibsMap, mounts: Action -> bool, action: Action)
    requires NoEmptyEntry(m)
  {
    Injection(kind, host, m) == Success(action) && mounts(action)
  }

  /** Why the injection of a library stops: its check fails, or its mount does. */
  ghost predicate StopsWith(kind: Kind, host: Library, m: LibsMap, mounts: Action -> bool, error: HookError)
    requires NoEmptyEntry(m)
  {
    match Injection(kind, host, m)
    case Failure(e) => error == e
    case Success(action) => !mounts(action) && error == MountFailed
  }

  /** After the checks, injecting a library cannot fail. */
  lemma InjectionSucceeds(kind: Kind, load: Path -> Library, host: Library, m: LibsMap)
    requires NoEmptyEntry(m) && host == load(host.path)
    requires kind.Dependencies? || EveryEntryPasses(kind, load, m)
    ensures Injection(kind, host, m).Success?
  {
    if host.path in m {
      PickIsCandidate(host, m[host.path]);
      assert kind.Dependencies? || AllPass(kind, host, m[host.path]);
    }
  }

  /**
  What an injection does after the checks.  The library that is mounted over is one of the
  container's namesakes and has the host library's major number.  A host library with a namesake
  always goes over one of them under the major and strict checks; under the full check exactly if
  some namesake is fully ABI compatible.  Existing links to the library in the root directories are
  kept exactly if the container has a namesake with a newer minor number than the host library.
   */
  lemma WhatIsInjected(kind: Kind, host: Library, m: LibsMap)
    requires NoEmptyEntry(m) && host.path in m && AllPass(kind, host, m[host.path])
    requires Constructed(host) && host.HasMajorVersion() && !kind.Dependencies?
    requires forall c :: c in m[host.path] ==> Constructed(c) && c.linkerName == host.linkerName
    ensures Injection(kind, host, m).Success?
    ensures var action := Injection(kind, host, m).value;
      && action.host == host
      && (action.Override? ==> action.container in m[host.path] && AreMajorAbiCompatible(host, action.container))
      && (kind.Major? || kind.Strict? ==> action.Override?)
      && (action.preserveRootLinks <==> exists c :: c in m[host.path] && Less(host.minor, c.minor))
      && (kind.Full? ==> (action.Override? <==> exists c :: c in m[host.path] && AreFullAbiCompatible(host, c)))
  {
    var libs := m[host.path];
    PickIsCandidate(host, libs);
    forall c | c in libs
      ensures c.HasMajorVersion() && AreMajorAbiCompatible(host, c)
    {
      assert Check(kind, host, c).Success?;
      MajorVersionIff(host);
      MajorVersionIff(c);
    }
    if kind.Full? && exists c :: c in libs && AreFullAbiCompatible(host, c) {
      forall c | c in libs
        ensures !Less(c.major, host.major)
      {
        assert Check(kind, host, c).Success?;
      }
      PickIsCompatible(host, libs);
    }
  }

  /** A dependency goes over a namesake exactly if the pick is fully ABI compatible, which PickSucceeds decides. */
  lemma WhatIsInjectedForDependencies(host: Library, m: LibsMap)
    requires NoEmptyEntry(m) && host.path in m
    requires Constructed(host) && forall c :: c in m[host.path] ==> Constructed(c) && c.linkerName == host.linkerName
    ensures Injection(Dependencies, host, m).Success?
    ensures Injection(Dependencies, host, m).value.Override? <==>
            (exists c :: c in m[host.path] && AreFullAbiCompatible(host, c)) && PickSucceeds(host, m[host.path])
    ensures Injection(Dependencies, host, m).value.host == host
    ensures Injection(Dependencies, host, m).value.preserveRootLinks <==>
            || SomeVersionedMisfit(host, m[host.path])
            || !SameMajor(host, Pick(host, m[host.path]))
  {
    var libs := m[host.path];
    OverrideOfDependency(host, m);
    if exists c :: c in libs && AreFullAbiCompatible(host, c) {
      PickIsCompatibleIff(host, libs);
    } else {
      PickIsCandidate(host, libs);
    }
  }

  /** Some library with a version has another major number than the host library, or a newer minor one. */
  ghost predicate SomeVersionedMisfit(host: Library, libs: seq<Library>) {
    exists c :: c in libs && c.realName != c.linkerName && (!SameMajor(host, c) || NewerMinor(host, c))
  }

  /** A host library without namesakes goes into /lib, and no links are kept for it. */
  lemma InjectionWithoutNamesakes(kind: Kind, host: Library, m: LibsMap)
    requires NoEmptyEntry(m) && host.path !in m
    ensures Injection(kind, host, m) == Success(AddToLib(host, false))
  {
  }

  lemma OverrideOfDependency(host: Library, m: LibsMap)
    requires NoEmptyEntry(m) && host.path in m
    ensures Injection(Dependencies, host, m).Success?
    ensures Injection(Dependencies, host, m).value.Override? <==> AreFullAbiCompatible(host, Pick(host, m[host.path]))
    ensures Injection(Dependencies, host, m).value.host == host
    ensures Injection(Dependencies, host, m).value.preserveRootLinks <==>
            SomeVersionedMisfit(host, m[host.path]) || !SameMajor(host, Pick(host, m[host.path]))
  {
    assert ContainerHasIncompatibleVersion(host, m[host.path]) <==> SomeVersionedMisfit(host, m[host.path]);
  }

  // ---------------------------------------------------------------- activating MPI support

  ghost predicate ChecksPass(kind: Kind, load: Path -> Library, hostMpi: seq<Library>, m: LibsMap) {
    m != map[] && Versioned(hostMpi) && EveryEntryVersioned(m) && EveryEntryPasses(kind, load, m)
  }

  /** The actions are those of the libraries, in order, as far as they go. */
  ghost predicate Injected(kind: Kind, hostLibs: seq<Library>, m: LibsMap, mounts: Action -> bool, actions: seq<Action>)
    requires NoEmptyEntry(m)
  {
    |actions| <= |hostLibs| && forall i :: 0 <= i < |actions| ==> InjectedAs(kind, hostLibs[i], m, mounts, actions[i])
  }

  /** The mount of the library after those injected is the one that failed. */
  ghost predicate StopsAfter(kind: Kind, hostLibs: seq<Library>, m: LibsMap, mounts: Action -> bool, actions: seq<Action>)
    requires NoEmptyEntry(m)
  {
    |actions| < |hostLibs| && StopsWith(kind, hostLibs[|actions|], m, mounts, MountFailed)
  }

  ghost predicate Loaded(load: Path -> Library, hostLibs: seq<Library>) {
    forall h :: h in hostLibs ==> h == load(h.path)
  }

  /**
  What the checks demand of the libraries: some host library has a namesake in the container, all host
  libraries and some namesake of each have a version, and all pairs of namesakes pass.
   */
  ghost predicate Activatable(kind: Kind, hostMpi: seq<Library>, containerLibs: seq<Library>) {
    && (exists h :: h in hostMpi && SomeNamesake(h, containerLibs))
    && (forall h :: h in hostMpi ==> h.realName != h.linkerName)
    && (forall h :: h in hostMpi && SomeNamesake(h, containerLibs) ==> SomeVersionedNamesake(h, containerLibs))
    && (forall h, c :: h in hostMpi && c in containerLibs && h.linkerName == c.linkerName ==> PairPasses(kind, h, c))
  }

  ghost predicate SomeVersionedNamesake(host: Library, containerLibs: seq<Library>) {
    exists c :: c in containerLibs && c.linkerName == host.linkerName && c.realName != c.linkerName
  }

  lemma ChecksPassIff(kind: Kind, load: Path -> Library, hostMpi: seq<Library>, containerLibs: seq<Library>)
    requires Loaded(load, hostMpi)
    ensures ChecksPass(kind, load, hostMpi, MapOf(hostMpi, containerLibs)) <==> Activatable(kind, hostMpi, containerLibs)
  {
    var m := MapOf(hostMpi, containerLibs);
    forall h | h in hostMpi
      ensures EntryIs(m, h, containerLibs)
    {
      EntryIsNamesakes(load, hostMpi, containerLibs, h);
    }
    forall p | p in m
      ensures load(p).path == p && load(p) in hostMpi
    {
      KeysAreHostPaths(load, hostMpi, containerLibs, p);
    }
    EveryKey(kind, load, hostMpi, containerLibs, m);
  }

  /** The entry of a host library lists its namesakes, and there is none without namesakes. */
  ghost predicate EntryIs(m: LibsMap, host: Library, containerLibs: seq<Library>) {
    && (host.path in m <==> SomeNamesake(host, containerLibs))
    && (host.path in m ==> forall c :: c in m[host.path] <==> c in containerLibs && c.linkerName == host.linkerName)
  }

  lemma EntryIsNamesakes(load: Path -> Library, hostLibs: seq<Library>, containerLibs: seq<Library>, host: Library)
    requires Loaded(load, hostLibs) && host in hostLibs
    ensures EntryIs(MapOf(hostLibs, containerLibs), host, containerLibs)
  {
    var m := MapOf(hostLibs, containerLibs);
    forall c
      ensures c in At(m, host.path) <==> c in containerLibs && c.linkerName == host.linkerName
    {
      MappedAreNamesakes(load, hostLibs, containerLibs, host, c);
    }
    if host.path in m {
      assert m[host.path][0] in At(m, host.path);
    } else {
      assert At(m, host.path) == [];
    }
  }

  lemma KeysAreHostPaths(load: Path -> Library, hostLibs: seq<Library>, containerLibs: seq<Library>, path: Path)
    requires Loaded(load, hostLibs) && path in MapOf(hostLibs, containerLibs)
    ensures load(path).path == path && load(path) in hostLibs
  {
    var m := MapOf(hostLibs, containerLibs);
    assert At(m, path) == Mapped(path, hostLibs, containerLibs);
    MappedMembers(path, hostLibs, containerLibs, m[path][0]);
    assert m[path][0] in Mapped(path, hostLibs, containerLibs);
  }

  /** Going through the keys is going through the host libraries that have namesakes. */
  lemma EveryKey(kind: Kind, load: Path -> Library, hostMpi: seq<Library>, containerLibs: seq<Library>, m: LibsMap)
    requires Loaded(load, hostMpi) && (forall h :: h in hostMpi ==> EntryIs(m, h, containerLibs))
    requires forall p :: p in m ==> load(p).path == p && load(p) in hostMpi
    ensures ChecksPass(kind, load, hostMpi, m) <==> Activatable(kind, hostMpi, containerLibs)
  {
    assert m != map[] <==> exists h :: h in hostMpi && SomeNamesake(h, containerLibs) by {
      if p :| p in m {
        assert EntryIs(m, load(p), containerLibs);
      }
      if h :| h in hostMpi && SomeNamesake(h, containerLibs) {
        assert EntryIs(m, h, containerLibs) && h.path in m;
      }
    }
    EveryKeyVersioned(load, hostMpi, containerLibs, m);
    EveryKeyPasses(kind, load, hostMpi, containerLibs, m);
  }

  lemma EveryKeyVersioned(load: Path -> Library, hostMpi: seq<Library>, containerLibs: seq<Library>, m: LibsMap)
    requires Loaded(load, hostMpi) && (forall h :: h in hostMpi ==> EntryIs(m, h, containerLibs))
    requires forall p :: p in m ==> load(p).path == p && load(p) in hostMpi
    ensures EveryEntryVersioned(m) <==>
            forall h :: h in hostMpi && SomeNamesake(h, containerLibs) ==> SomeVersionedNamesake(h, containerLibs)
  {
    forall h | h in hostMpi && SomeNamesake(h, containerLibs)
      ensures h.path in m && (SomeVersioned(m[h.path]) <==> SomeVersionedNamesake(h, containerLibs))
    {
      assert EntryIs(m, h, containerLibs);
    }
    forall p | p in m
      ensures SomeNamesake(load(p), containerLibs)
    {
      assert EntryIs(m, load(p), containerLibs);
    }
  }

  lemma EveryKeyPasses(kind: Kind, load: Path -> Library, hostMpi: seq<Library>, containerLibs: seq<Library>, m: LibsMap)
    requires Loaded(load, hostMpi) && (forall h :: h in hostMpi ==> EntryIs(m, h, containerLibs))
    requires forall p :: p in m ==> load(p).path == p && load(p) in hostMpi
    ensures EveryEntryPasses(kind, load, m) <==>
            forall h, c :: h in hostMpi && c in containerLibs && h.linkerName == c.linkerName ==> PairPasses(kind, h, c)
  {
    if EveryEntryPasses(kind, load, m) {
      forall h, c | h in hostMpi && c in containerLibs && h.linkerName == c.linkerName
        ensures PairPasses(kind, h, c)
      {
        assert EntryIs(m, h, containerLibs) && SomeNamesake(h, containerLibs);
        assert AllPass(kind, load(h.path), m[h.path]) && c in m[h.path];
        CheckPassesIff(kind, h, c);
      }
    }
    if forall h, c :: h in hostMpi && c in containerLibs && h.linkerName == c.linkerName ==> PairPasses(kind, h, c) {
      forall p, c | p in m && c in m[p]
        ensures Check(kind, load(p), c).Success?
      {
        assert EntryIs(m, load(p), containerLibs);
        CheckPassesIff(kind, load(p), c);
      }
    }
  }

  /**
  Either a check fails and nothing is mounted, or all checks pass; then the host libraries are
  injected in turn, the dependencies after the MPI libraries, and nothing but a mount that the system
  refuses can stop that.
   */
  method ActivateMpiSupport(
      kind: Kind, load: Path -> Library, hostMpi: seq<Library>, hostDependencies: seq<Library>, containerLibs: seq<Library>,
      mounts: Action -> bool)
    returns (error: Option<HookError>, mpiActions: seq<Action>, dependencyActions: seq<Action>)
    requires Loaded(load, hostMpi) && Loaded(load, hostDependencies)
    ensures error.None? || error == Some(MountFailed) <==> Activatable(kind, hostMpi, containerLibs)
    ensures error.Some? && error != Some(MountFailed) ==> mpiActions == [] && dependencyActions == []
    ensures Injected(kind, hostMpi, MapOf(hostMpi, containerLibs), mounts, mpiActions)
    ensures Injected(Dependencies, hostDependencies, MapOf(hostDependencies, containerLibs), mounts, dependencyActions)
    ensures error.None? ==> |mpiActions| == |hostMpi| && |dependencyActions| == |hostDependencies|
    ensures error == Some(MountFailed) ==>
              || (dependencyActions == [] && StopsAfter(kind, hostMpi, MapOf(hostMpi, containerLibs), mounts, mpiActions))
              || (|mpiActions| == |hostMpi| &&
                  StopsAfter(Dependencies, hostDependencies, MapOf(hostDependencies, containerLibs), mounts, dependencyActions))
  {
    ChecksPassIff(kind, load, hostMpi, containerLibs);
    var mpi := MapHostToContainerLibs(hostMpi, containerLibs);
    var dependencies := MapHostToContainerLibs(hostDependencies, containerLibs);
    mpiActions, dependencyActions := [], [];
    if mpi == map[] {
      return Some(NoMpiLibraries), [], [];
    }
    var versioned := CheckHostLibrariesHaveAbiVersion(hostMpi);
    if !versioned {
      return Some(HostWithoutVersion), [], [];
    }
    var found := CheckContainerLibrariesHaveAbiVersion(mpi);
    if !found {
      return Some(ContainerWithoutVersion), [], [];
    }
    var compatible := CheckHostContainerAbiCompatibility(kind, load, mpi);
    if !compatible {
      return Some(NotAbiCompatible), [], [];
    }
    error, mpiActions := InjectHostLibraries(kind, hostMpi, mpi, mounts);
    if error.Some? {
      InjectionSucceeds(kind, load, hostMpi[|mpiActions|], mpi);
      return error, mpiActions, [];
    }
    error, dependencyActions := InjectHostLibraries(Dependencies, hostDependencies, dependencies, mounts);
    if error.Some? {
      InjectionSucceeds(Dependencies, load, hostDependencies[|dependencyActions|], dependencies);
    }
  }

  /** The mapped libraries of a host library are its namesakes in the container. */
  lemma MappedAreNamesakes(load: Path -> Library, hostLibs: seq<Library>, containerLibs: seq<Library>, host: Library, c: Library)
    requires Loaded(load, hostLibs) && host in hostLibs
    ensures c in At(MapOf(hostLibs, containerLibs), host.path) <==> c in containerLibs && c.linkerName == host.linkerName
  {
    MappedMembers(host.path, hostLibs, containerLibs, c);
  }

  ghost predicate SomeFullyCompatible(host: Library, containerLibs: seq<Library>) {
    exists c :: c in containerLibs && SameMajor(host, c) && !NewerMinor(host, c)
  }

  ghost predicate SomeNewerNamesake(host: Library, containerLibs: seq<Library>) {
    exists c :: c in containerLibs && c.linkerName == host.linkerName && NewerMinor(host, c)
  }

  ghost predicate SomeNamesake(host: Library, containerLibs: seq<Library>) {
    exists c :: c in containerLibs && c.linkerName == host.linkerName
  }

  /**
  What happens to an MPI library of the host once the checks have passed, in terms of the
  container's libraries alone.
   */
  lemma WhatActivationDoes(kind: Kind, load: Path -> Library, hostMpi: seq<Library>, containerLibs: seq<Library>, host: Library)
    requires !kind.Dependencies?
    requires Loaded(load, hostMpi) && host in hostMpi
    requires Constructed(host) && forall c :: c in containerLibs ==> Constructed(c)
    requires Activatable(kind, hostMpi, containerLibs)
    ensures var injection := Injection(kind, host, MapOf(hostMpi, containerLibs));
      && injection.Success?
      && (injection.value.Override? ==>
            injection.value.container in containerLibs && SameMajor(host, injection.value.container))
      && (injection.value.preserveRootLinks <==> SomeNewerNamesake(host, containerLibs))
      && (!SomeNamesake(host, containerLibs) ==> injection.value.AddToLib?)
      && (SomeNamesake(host, containerLibs) && (kind.Major? || kind.Strict?) ==> injection.value.Override?)
      && (kind.Full? ==> (injection.value.Override? <==> SomeFullyCompatible(host, containerLibs)))
  {
    var m := MapOf(hostMpi, containerLibs);
    ChecksPassIff(kind, load, hostMpi, containerLibs);
    EntryIsNamesakes(load, hostMpi, containerLibs, host);
    if host.path in m {
      assert AllPass(kind, load(host.path), m[host.path]);
      WhatIsInjected(kind, host, m);
    }
  }
}
