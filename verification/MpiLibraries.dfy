/**
Libraries as the MPI hook sees them, the ABI compatibility checks between host and container
libraries, and the choice of the container library that a host library replaces.
 */
module MpiLibraries {
  import opened Wrappers
  import opened Text
  import opened SharedLibs
  import Decimal

  datatype Library = Library(
    path: seq<string>, linkerName: string, realName: string, major: Option<int>, minor: Option<int>, patch: Option<int>)
  {
    predicate HasMajorVersion() { realName != linkerName }
  }

  // ---------------------------------------------------------------- construction

  /** The i-th version number, if there are that many. */
  function VersionNumber(abi: seq<string>, i: nat): Result<Option<int>, LibError> {
    if i >= |abi| then Success(None)
    else
      var n := Decimal.Stoi(abi[i]);
      if n.Success? then Success(Some(n.value)) else Failure(BadVersionNumber)
  }

  /** SharedLibrary's constructor, given the resolved ABI. */
  function MakeLibrary(path: seq<string>, linkerName: string, abi: seq<string>): Result<Library, LibError> {
    var major, minor, patch := VersionNumber(abi, 0), VersionNumber(abi, 1), VersionNumber(abi, 2);
    if major.Failure? || minor.Failure? || patch.Failure? then Failure(BadVersionNumber)
    else Success(Library(path, linkerName, RealName(linkerName, abi), major.value, minor.value, patch.value))
  }

  /** The first three numbers are major, minor and patch; the real name has all of them. */
  lemma LibraryOfNumbers(path: seq<string>, linkerName: string, numbers: seq<nat>)
    requires forall n :: n in numbers ==> n <= 0x7fff_ffff
    ensures MakeLibrary(path, linkerName, Decimal.Texts(numbers)) ==
      Success(Library(
        path, linkerName, if numbers == [] then linkerName else linkerName + "." + Join(Decimal.Texts(numbers), '.'),
        if |numbers| > 0 then Some(numbers[0]) else None,
        if |numbers| > 1 then Some(numbers[1]) else None,
        if |numbers| > 2 then Some(numbers[2]) else None))
  {
    var texts := Decimal.Texts(numbers);
    forall i | 0 <= i < |numbers|
      ensures Decimal.Stoi(texts[i]) == Success(numbers[i])
    {
      assert numbers[i] in numbers;
      Decimal.StoiOfToString(numbers[i]);
    }
    JoinNonempty(texts);
    if |texts| == 1 {
      assert texts[0] != "" && texts == [texts[0]];
    }
  }

  ghost predicate ConstructedFrom(l: Library, abi: seq<string>) {
    FreeOf(abi, '.') && MakeLibrary(l.path, l.linkerName, abi) == Success(l)
  }

  ghost predicate Constructed(l: Library) {
    exists abi :: ConstructedFrom(l, abi)
  }

  lemma ConstructedVersion(l: Library, abi: seq<string>)
    requires ConstructedFrom(l, abi)
    ensures abi != [""]
    ensures l.HasMajorVersion() <==> l.major.Some?
  {
    JoinNonempty(abi);
    assert Decimal.Magnitude("") == Failure(Decimal.InvalidArgument);
    if abi != [] {
      assert |RealName(l.linkerName, abi)| > |l.linkerName|;
    }
  }

  lemma MajorVersionIff(l: Library)
    requires Constructed(l)
    ensures l.HasMajorVersion() <==> l.major.Some?
  {
    var abi :| ConstructedFrom(l, abi);
    ConstructedVersion(l, abi);
  }

  /** The real name determines the version numbers. */
  lemma SameRealName(a: Library, b: Library)
    requires Constructed(a) && Constructed(b) && a.linkerName == b.linkerName && a.realName == b.realName
    ensures a.major == b.major && a.minor == b.minor && a.patch == b.patch
  {
    var abiA :| ConstructedFrom(a, abiA);
    var abiB :| ConstructedFrom(b, abiB);
    ConstructedVersion(a, abiA);
    ConstructedVersion(b, abiB);
    SameNameSameAbi(a.linkerName, abiA, abiB);
  }

  // ---------------------------------------------------------------- comparing versions

  /** boost::optional's order: no number is below every number. */
  predicate Less(a: Option<int>, b: Option<int>) {
    b.Some? && (a.None? || a.value < b.value)
  }

  /** The order of numbers, with a missing one below all of them. */
  lemma MissingIsLeast(a: int, b: int)
    ensures Less(Some(a), Some(b)) <==> a < b
    ensures Less(None, Some(a)) && !Less(Some(a), None) && !Less(None, None)
  {
  }

  predicate AtMost(a: Option<int>, b: Option<int>) { !Less(b, a) }

  predicate AreMajorAbiCompatible(host: Library, container: Library) {
    host.linkerName == container.linkerName && host.major == container.major
  }

  predicate AreFullAbiCompatible(host: Library, container: Library) {
    AreMajorAbiCompatible(host, container) && AtMost(container.minor, host.minor)
  }

  predicate AreStrictlyAbiCompatible(host: Library, container: Library) {
    AreMajorAbiCompatible(host, container) && host.minor == container.minor
  }

  /** Not newer, by major and then minor number. */
  predicate NotNewer(a: Library, b: Library) {
    Less(a.major, b.major) || (a.major == b.major && AtMost(a.minor, b.minor))
  }

  // ---------------------------------------------------------------- picking a candidate

  /** The loop that looks for the oldest candidate moves on to c. */
  predicate Replaces(host: Library, oldest: Library, c: Library) {
    NotNewer(c, oldest) && !(oldest.major == host.major && Less(c.major, host.major))
  }

  /** Where that loop ends. */
  function OldestIndex(host: Library, candidates: seq<Library>): (k: nat)
    requires candidates != []
    ensures k < |candidates|
  {
    var n := |candidates| - 1;
    if n == 0 then 0
    else
      var k := OldestIndex(host, candidates[..n]);
      if Replaces(host, candidates[k], candidates[n]) then n else k
  }

  /** The guard against downgrading the patch number, which compares with the best candidate so far. */
  predicate Blocked(host: Library, best: Library, c: Library) {
    c.major == host.major && c.minor == host.minor && Less(c.patch, best.patch)
  }

  /** Neither number above the host's. */
  predicate Eligible(host: Library, c: Library) { AtMost(c.major, host.major) && AtMost(c.minor, host.minor) }

  /** One turn of the loop that looks for the best candidate. */
  function BestStep(host: Library, best: Library, c: Library): Library {
    if NotNewer(best, c) && Eligible(host, c) && !Blocked(host, best, c) then c else best
  }

  /** Where that loop ends, when it starts from the given library. */
  function BestOf(host: Library, start: Library, candidates: seq<Library>): Library {
    if candidates == [] then start
    else BestStep(host, BestOf(host, start, candidates[..|candidates| - 1]), candidates[|candidates| - 1])
  }

  /** The first candidate with the host's real name, or the number of candidates. */
  function FirstExact(host: Library, candidates: seq<Library>): (i: nat)
    ensures i <= |candidates|
    ensures i < |candidates| ==> candidates[i].realName == host.realName
    ensures forall j :: 0 <= j < i ==> candidates[j].realName != host.realName
  {
    if candidates == [] || candidates[0].realName == host.realName then 0 else 1 + FirstExact(host, candidates[1..])
  }

  function Pick(host: Library, candidates: seq<Library>): Library
    requires candidates != []
  {
    var exact := FirstExact(host, candidates);
    if |candidates| == 1 then candidates[0]
    else if exact < |candidates| then candidates[exact]
    else BestOf(host, candidates[OldestIndex(host, candidates)], candidates)
  }

  lemma OldestIndexNext(host: Library, candidates: seq<Library>, i: nat)
    requires i < |candidates|
    ensures OldestIndex(host, candidates[..i + 1]) ==
      if i == 0 then 0
      else
        var k := OldestIndex(host, candidates[..i]);
        if Replaces(host, candidates[k], candidates[i]) then i else k
  {
    assert candidates[..i + 1][..i] == candidates[..i];
  }

  lemma BestOfNext(host: Library, start: Library, candidates: seq<Library>, i: nat)
    requires i < |candidates|
    ensures BestOf(host, start, candidates[..i + 1]) == BestStep(host, BestOf(host, start, candidates[..i]), candidates[i])
  {
    assert candidates[..i + 1][..i] == candidates[..i];
  }

  datatype PickError = NoCandidates

  /** pickNewestAbiCompatibleLibrary as the two loops it is. */
  method PickNewestAbiCompatibleLibrary(host: Library, candidates: seq<Library>) returns (result: Result<Library, PickError>)
    ensures result.Failure? <==> candidates == []
    ensures result.Success? ==> result.value == Pick(host, candidates)
  {
    if |candidates| == 0 {
      return Failure(NoCandidates);
    }
    if |candidates| == 1 {
      return Success(candidates[0]);
    }
    var oldest := candidates[0];
    for i := 0 to |candidates|
      invariant forall j :: 0 <= j < i ==> candidates[j].realName != host.realName
      invariant oldest == if i == 0 then candidates[0] else candidates[OldestIndex(host, candidates[..i])]
    {
      var c := candidates[i];
      OldestIndexNext(host, candidates, i);
      if c.realName == host.realName {
        assert FirstExact(host, candidates) == i;
        return Success(c);
      }
      if Less(c.major, oldest.major) || (c.major == oldest.major && AtMost(c.minor, oldest.minor)) {
        if oldest.major == host.major && Less(c.major, host.major) {
          continue;
        }
        oldest := c;
      }
    }
    assert candidates[..|candidates|] == candidates;
    var best := oldest;
    for i := 0 to |candidates|
      invariant best == BestOf(host, oldest, candidates[..i])
    {
      var c := candidates[i];
      BestOfNext(host, oldest, candidates, i);
      if (Less(best.major, c.major) || (c.major == best.major && AtMost(best.minor, c.minor))) &&
         AtMost(c.major, host.major) && AtMost(c.minor, host.minor) {
        if c.major == host.major && c.minor == host.minor && Less(c.patch, best.patch) {
          continue;
        }
        best := c;
      }
    }
    return Success(best);
  }

  lemma {:induction false} BestIsCandidate(host: Library, start: Library, candidates: seq<Library>)
    ensures var b := BestOf(host, start, candidates); b == start || b in candidates
  {
    if candidates != [] {
      BestIsCandidate(host, start, candidates[..|candidates| - 1]);
    }
  }

  /** The pick is a candidate, and has the host's real name whenever some candidate has. */
  lemma PickIsCandidate(host: Library, candidates: seq<Library>)
    requires candidates != []
    ensures Pick(host, candidates) in candidates
    ensures (exists c :: c in candidates && c.realName == host.realName) ==> Pick(host, candidates).realName == host.realName
  {
    BestIsCandidate(host, candidates[OldestIndex(host, candidates)], candidates);
  }

  // ---------------------------------------------------------------- the first loop

  /** Reading the candidates in order, the first whose major is not above the host's has a lower one. */
  predicate OlderMajorComesFirst(host: Library, candidates: seq<Library>) {
    exists i :: 0 <= i < |candidates| && Less(candidates[i].major, host.major) && AllAbove(host, candidates, i)
  }

  predicate AllAbove(host: Library, candidates: seq<Library>, i: nat)
    requires i <= |candidates|
  {
    forall j :: 0 <= j < i ==> Less(host.major, candidates[j].major)
  }

  /** The candidates the search is about: all of them if an older major comes first, else those of the host's major. */
  predicate InPlay(host: Library, candidates: seq<Library>, c: Library) {
    OlderMajorComesFirst(host, candidates) || c.major == host.major
  }

  /** The last of the oldest candidates in play, by major and minor number. */
  predicate IsOldest(host: Library, candidates: seq<Library>, k: nat) {
    && k < |candidates| && InPlay(host, candidates, candidates[k])
    && forall j :: 0 <= j < |candidates| && InPlay(host, candidates, candidates[j]) ==>
         NotNewer(candidates[k], candidates[j]) && (NotNewer(candidates[j], candidates[k]) ==> j <= k)
  }

  lemma OldestIsUnique(host: Library, candidates: seq<Library>, k: nat, l: nat)
    requires IsOldest(host, candidates, k) && IsOldest(host, candidates, l)
    ensures k == l
  {
    assert InPlay(host, candidates, candidates[k]) && InPlay(host, candidates, candidates[l]);
  }

  /** One more candidate decides whether an older major comes first only if none so far was at or below the host's. */
  lemma OlderMajorNext(host: Library, candidates: seq<Library>)
    requires candidates != []
    ensures var n := |candidates| - 1;
      OlderMajorComesFirst(host, candidates) <==>
      OlderMajorComesFirst(host, candidates[..n]) || (AllAbove(host, candidates, n) && Less(candidates[n].major, host.major))
  {
    var n := |candidates| - 1;
    var init := candidates[..n];
    forall i: nat | i <= n
      ensures AllAbove(host, init, i) <==> AllAbove(host, candidates, i)
    {
    }
    if i :| 0 <= i < n && Less(init[i].major, host.major) && AllAbove(host, init, i) {
      assert Less(candidates[i].major, host.major) && AllAbove(host, candidates, i);
    }
    if i :| 0 <= i < |candidates| && Less(candidates[i].major, host.major) && AllAbove(host, candidates, i) {
      assert i < n ==> Less(init[i].major, host.major) && AllAbove(host, init, i);
    }
  }

  /** The first loop ends at the last of the oldest candidates in play, unless all are above the host's major. */
  lemma {:induction false} OldestIs(host: Library, candidates: seq<Library>)
    requires candidates != []
    ensures var k := OldestIndex(host, candidates);
      if AllAbove(host, candidates, |candidates|) then Less(host.major, candidates[k].major) else IsOldest(host, candidates, k)
  {
    var n := |candidates| - 1;
    var init, c := candidates[..n], candidates[n];
    OlderMajorNext(host, candidates);
    if n == 0 {
      assert !OlderMajorComesFirst(host, init);
    } else {
      OldestIs(host, init);
      assert AllAbove(host, init, n) <==> AllAbove(host, candidates, n);
      if AllAbove(host, init, n) {
        NoneBelow(host, init);
      } else {
        OldestNext(host, candidates, OldestIndex(host, init));
      }
    }
  }

  lemma NoneBelow(host: Library, candidates: seq<Library>)
    requires AllAbove(host, candidates, |candidates|)
    ensures !OlderMajorComesFirst(host, candidates)
  {
  }

  /** One more candidate, after one at or below the host's major. */
  lemma OldestNext(host: Library, candidates: seq<Library>, k: nat)
    requires candidates != []
    requires var n := |candidates| - 1; !AllAbove(host, candidates, n) && IsOldest(host, candidates[..n], k)
    ensures var n := |candidates| - 1;
      IsOldest(host, candidates, if Replaces(host, candidates[k], candidates[n]) then n else k)
  {
    var n := |candidates| - 1;
    var init, c := candidates[..n], candidates[n];
    OlderMajorNext(host, candidates);
    assert OlderMajorComesFirst(host, candidates) <==> OlderMajorComesFirst(host, init);
    if OlderMajorComesFirst(host, init) {
      var i :| 0 <= i < n && Less(init[i].major, host.major) && AllAbove(host, init, i);
      assert InPlay(host, init, init[i]);
    }
    var k' := if Replaces(host, candidates[k], c) then n else k;
    forall j | 0 <= j < |candidates| && InPlay(host, candidates, candidates[j])
      ensures NotNewer(candidates[k'], candidates[j]) && (NotNewer(candidates[j], candidates[k']) ==> j <= k')
    {
      if j < n {
        assert InPlay(host, init, init[j]);
        assert NotNewer(candidates[k], candidates[j]);
      }
    }
  }

  // ---------------------------------------------------------------- the second loop

  predicate Compatible(host: Library, c: Library) {
    c.major == host.major && AtMost(c.minor, host.minor)
  }

  predicate SameMinor(host: Library, c: Library) {
    c.major == host.major && c.minor == host.minor
  }

  /** What a pick may be meant to be: fully ABI compatible, or even of the host's minor number. */
  datatype Aim = FullyCompatible | HostsMinor

  predicate Meets(aim: Aim, host: Library, c: Library) {
    match aim
    case FullyCompatible => Compatible(host, c)
    case HostsMinor => SameMinor(host, c)
  }

  /** Of a lower major than the host, or fully compatible. */
  predicate Reachable(host: Library, c: Library) { Less(c.major, host.major) || Compatible(host, c) }

  /** The second loop on the candidates that miss the aim. */
  function BestMissing(aim: Aim, host: Library, start: Library, candidates: seq<Library>): Library {
    if candidates == [] then start
    else
      var before := BestMissing(aim, host, start, candidates[..|candidates| - 1]);
      var last := candidates[|candidates| - 1];
      if Meets(aim, host, last) then before else BestStep(host, before, last)
  }

  lemma {:induction false} BestKeepsAim(aim: Aim, host: Library, start: Library, candidates: seq<Library>)
    requires Meets(aim, host, start)
    ensures Meets(aim, host, BestOf(host, start, candidates))
  {
    if candidates != [] {
      BestKeepsAim(aim, host, start, candidates[..|candidates| - 1]);
    }
  }

  /** A candidate that meets the aim and gets past the patch guard. */
  predicate Admitted(aim: Aim, host: Library, start: Library, candidates: seq<Library>, i: nat)
    requires i < |candidates|
  {
    Meets(aim, host, candidates[i]) && !Blocked(host, BestMissing(aim, host, start, candidates[..i]), candidates[i])
  }

  ghost predicate SomeAdmitted(aim: Aim, host: Library, start: Library, candidates: seq<Library>) {
    exists i: nat :: i < |candidates| && Admitted(aim, host, start, candidates, i)
  }

  lemma SomeAdmittedNext(aim: Aim, host: Library, start: Library, candidates: seq<Library>)
    requires candidates != []
    ensures var n := |candidates| - 1;
      SomeAdmitted(aim, host, start, candidates) <==>
      SomeAdmitted(aim, host, start, candidates[..n]) || Admitted(aim, host, start, candidates, n)
  {
    var n := |candidates| - 1;
    var init := candidates[..n];
    forall i: nat | i < n
      ensures Admitted(aim, host, start, init, i) <==> Admitted(aim, host, start, candidates, i)
    {
      assert init[..i] == candidates[..i];
    }
    if i: nat :| i < |init| && Admitted(aim, host, start, init, i) {
      assert Admitted(aim, host, start, candidates, i);
    }
    if i: nat :| i < |candidates| && Admitted(aim, host, start, candidates, i) {
      assert i < n ==> Admitted(aim, host, start, init, i);
    }
  }

  /** From below the aim, the second loop meets it exactly if a candidate is admitted. */
  lemma {:induction false} BestMeetsIff(aim: Aim, host: Library, start: Library, candidates: seq<Library>)
    requires Reachable(host, start) && !Meets(aim, host, start)
    ensures var b := BestOf(host, start, candidates);
      && Reachable(host, b)
      && (Meets(aim, host, b) <==> SomeAdmitted(aim, host, start, candidates))
      && (!Meets(aim, host, b) ==> b == BestMissing(aim, host, start, candidates))
  {
    if candidates != [] {
      var n := |candidates| - 1;
      BestMeetsIff(aim, host, start, candidates[..n]);
      SomeAdmittedNext(aim, host, start, candidates);
    }
  }

  /** Misses the aim, is not above the host, and not older than the start of the search. */
  predicate Counts(aim: Aim, host: Library, start: Library, c: Library) {
    !Meets(aim, host, c) && Eligible(host, c) && NotNewer(start, c)
  }

  /** The last of the newest of those. */
  predicate IsBestMissing(aim: Aim, host: Library, start: Library, candidates: seq<Library>, r: nat) {
    && r < |candidates| && Counts(aim, host, start, candidates[r])
    && forall j :: 0 <= j < |candidates| && Counts(aim, host, start, candidates[j]) ==>
         NotNewer(candidates[j], candidates[r]) && (NotNewer(candidates[r], candidates[j]) ==> j <= r)
  }

  predicate NoneCounts(aim: Aim, host: Library, start: Library, candidates: seq<Library>) {
    forall j :: 0 <= j < |candidates| ==> !Counts(aim, host, start, candidates[j])
  }

  lemma {:induction false} BestMissingIs(aim: Aim, host: Library, start: Library, candidates: seq<Library>) returns (r: nat)
    ensures var b := BestMissing(aim, host, start, candidates);
      if NoneCounts(aim, host, start, candidates) then b == start
      else IsBestMissing(aim, host, start, candidates, r) && b == candidates[r]
  {
    r := 0;
    if candidates != [] {
      var n := |candidates| - 1;
      var init, c := candidates[..n], candidates[n];
      r := BestMissingIs(aim, host, start, init);
      if NoneCounts(aim, host, start, init) {
        assert Counts(aim, host, start, c) ==> IsBestMissing(aim, host, start, candidates, n);
        r := n;
      } else {
        BestMissingNext(aim, host, start, candidates, r);
        r := if Counts(aim, host, start, c) && NotNewer(init[r], c) then n else r;
      }
    }
  }

  lemma BestMissingNext(aim: Aim, host: Library, start: Library, candidates: seq<Library>, r: nat)
    requires candidates != []
    requires var n := |candidates| - 1; IsBestMissing(aim, host, start, candidates[..n], r)
    ensures var n := |candidates| - 1;
      && IsBestMissing(aim, host, start, candidates,
           if Counts(aim, host, start, candidates[n]) && NotNewer(candidates[r], candidates[n]) then n else r)
      && (NotNewer(candidates[r], candidates[n]) && Eligible(host, candidates[n]) && !Meets(aim, host, candidates[n]) ==>
            Counts(aim, host, start, candidates[n]))
  {
    var n := |candidates| - 1;
    var init, c := candidates[..n], candidates[n];
    var r' := if Counts(aim, host, start, c) && NotNewer(candidates[r], c) then n else r;
    assert Counts(aim, host, start, init[r]);
    forall j | 0 <= j < |candidates| && Counts(aim, host, start, candidates[j])
      ensures NotNewer(candidates[j], candidates[r']) && (NotNewer(candidates[r'], candidates[j]) ==> j <= r')
    {
      if j < n {
        assert Counts(aim, host, start, init[j]);
      }
    }
  }

  // ---------------------------------------------------------------- the pick

  /** In play, not above the host, and missing the aim. */
  predicate Contender(aim: Aim, host: Library, candidates: seq<Library>, c: Library) {
    InPlay(host, candidates, c) && Eligible(host, c) && !Meets(aim, host, c)
  }

  /** The candidate whose patch number decides about the i-th: the last of the newest contenders before it, else the oldest. */
  predicate IsRival(aim: Aim, host: Library, candidates: seq<Library>, i: nat, r: nat)
    requires i < |candidates|
  {
    if exists j :: 0 <= j < i && Contender(aim, host, candidates, candidates[j]) then
      && r < i && Contender(aim, host, candidates, candidates[r])
      && forall j :: 0 <= j < i && Contender(aim, host, candidates, candidates[j]) ==>
           NotNewer(candidates[j], candidates[r]) && (NotNewer(candidates[r], candidates[j]) ==> j <= r)
    else IsOldest(host, candidates, r)
  }

  /** The i-th candidate meets the aim, and if its minor number is the host's, its patch number is not below its rival's. */
  predicate Unrivalled(aim: Aim, host: Library, candidates: seq<Library>, i: nat)
    requires i < |candidates|
  {
    && Meets(aim, host, candidates[i])
    && (SameMinor(host, candidates[i]) ==>
          forall r :: 0 <= r < |candidates| && IsRival(aim, host, candidates, i, r) ==> !Less(candidates[i].patch, candidates[r].patch))
  }

  predicate SomeUnrivalled(aim: Aim, host: Library, candidates: seq<Library>) {
    exists i :: 0 <= i < |candidates| && Unrivalled(aim, host, candidates, i)
  }

  /** Counting from the oldest is the same as contending. */
  lemma CountsIsContending(aim: Aim, host: Library, candidates: seq<Library>, o: nat, j: nat)
    requires IsOldest(host, candidates, o) && j < |candidates| && Reachable(host, candidates[o])
    ensures Counts(aim, host, candidates[o], candidates[j]) <==> Contender(aim, host, candidates, candidates[j])
  {
    if OlderMajorComesFirst(host, candidates) {
      assert InPlay(host, candidates, candidates[j]);
    } else {
      assert InPlay(host, candidates, candidates[o]);
    }
  }

  lemma RivalIs(aim: Aim, host: Library, candidates: seq<Library>, o: nat, i: nat) returns (r: nat)
    requires IsOldest(host, candidates, o) && i < |candidates| && Reachable(host, candidates[o])
    ensures r < |candidates| && IsRival(aim, host, candidates, i, r)
    ensures BestMissing(aim, host, candidates[o], candidates[..i]) == candidates[r]
    ensures forall q :: 0 <= q < |candidates| && IsRival(aim, host, candidates, i, q) ==> q == r
  {
    var prefix := candidates[..i];
    r := BestMissingIs(aim, host, candidates[o], prefix);
    forall j | 0 <= j < i
      ensures prefix[j] == candidates[j]
      ensures Counts(aim, host, candidates[o], prefix[j]) <==> Contender(aim, host, candidates, candidates[j])
    {
      CountsIsContending(aim, host, candidates, o, j);
    }
    if exists j :: 0 <= j < i && Contender(aim, host, candidates, candidates[j]) {
      var j :| 0 <= j < i && Contender(aim, host, candidates, candidates[j]);
      assert Counts(aim, host, candidates[o], prefix[j]);
      assert IsBestMissing(aim, host, candidates[o], prefix, r);
    } else {
      assert NoneCounts(aim, host, candidates[o], prefix);
      r := o;
      forall q | 0 <= q < |candidates| && IsRival(aim, host, candidates, i, q)
        ensures q == r
      {
        OldestIsUnique(host, candidates, q, o);
      }
    }
  }

  lemma AdmittedIsUnrivalled(aim: Aim, host: Library, candidates: seq<Library>, o: nat, i: nat)
    requires IsOldest(host, candidates, o) && i < |candidates| && Reachable(host, candidates[o])
    ensures Admitted(aim, host, candidates[o], candidates, i) <==> Unrivalled(aim, host, candidates, i)
  {
    var r := RivalIs(aim, host, candidates, o, i);
  }

  /** The oldest candidate, if it meets the aim, is unrivalled. */
  lemma OldestUnrivalled(aim: Aim, host: Library, candidates: seq<Library>, o: nat)
    requires IsOldest(host, candidates, o) && Meets(aim, host, candidates[o])
    ensures Unrivalled(aim, host, candidates, o)
  {
    if OlderMajorComesFirst(host, candidates) {
      var i :| 0 <= i < |candidates| && Less(candidates[i].major, host.major) && AllAbove(host, candidates, i);
      assert InPlay(host, candidates, candidates[i]);
    }
    forall j | 0 <= j < |candidates|
      ensures !Contender(aim, host, candidates, candidates[j])
    {
      if InPlay(host, candidates, candidates[j]) {
        assert NotNewer(candidates[o], candidates[j]);
      }
    }
    forall r | 0 <= r < |candidates| && IsRival(aim, host, candidates, o, r)
      ensures r == o
    {
      OldestIsUnique(host, candidates, r, o);
    }
  }

  /** The oldest candidate is not newer than one of the host's major. */
  lemma OldestBelow(host: Library, candidates: seq<Library>, good: Library)
    requires good in candidates && Compatible(host, good)
    ensures var o := OldestIndex(host, candidates); IsOldest(host, candidates, o) && Reachable(host, candidates[o]) && NotNewer(candidates[o], good)
  {
    OldestIs(host, candidates);
    var j :| 0 <= j < |candidates| && candidates[j] == good;
    assert InPlay(host, candidates, candidates[j]);
  }

  /** With a fully compatible candidate, the search meets an aim exactly if some candidate is unrivalled. */
  lemma SearchMeetsIff(aim: Aim, host: Library, candidates: seq<Library>, good: Library)
    requires good in candidates && Compatible(host, good)
    ensures Meets(aim, host, BestOf(host, candidates[OldestIndex(host, candidates)], candidates)) <==> SomeUnrivalled(aim, host, candidates)
  {
    var o := OldestIndex(host, candidates);
    OldestBelow(host, candidates, good);
    if Meets(aim, host, candidates[o]) {
      BestKeepsAim(aim, host, candidates[o], candidates);
      OldestUnrivalled(aim, host, candidates, o);
    } else {
      BestMeetsIff(aim, host, candidates[o], candidates);
      forall i: nat | i < |candidates|
        ensures Admitted(aim, host, candidates[o], candidates, i) <==> Unrivalled(aim, host, candidates, i)
      {
        AdmittedIsUnrivalled(aim, host, candidates, o, i);
      }
    }
  }

  predicate SomeExact(host: Library, candidates: seq<Library>) {
    exists c :: c in candidates && c.realName == host.realName
  }

  ghost predicate ShareLinkerName(host: Library, candidates: seq<Library>) {
    Constructed(host) && forall c :: c in candidates ==> Constructed(c) && c.linkerName == host.linkerName
  }

  lemma ExactPick(host: Library, candidates: seq<Library>)
    requires ShareLinkerName(host, candidates) && SomeExact(host, candidates)
    ensures SameMinor(host, Pick(host, candidates))
  {
    PickIsCandidate(host, candidates);
    SameRealName(host, Pick(host, candidates));
  }

  lemma PickIsSearch(host: Library, candidates: seq<Library>)
    requires candidates != [] && !SomeExact(host, candidates)
    ensures Pick(host, candidates) == BestOf(host, candidates[OldestIndex(host, candidates)], candidates)
  {
    if |candidates| == 1 {
      BestIsCandidate(host, candidates[0], candidates);
    } else {
      assert FirstExact(host, candidates) == |candidates|;
    }
  }

  lemma PickMeetsIff(aim: Aim, host: Library, candidates: seq<Library>, good: Library)
    requires ShareLinkerName(host, candidates) && good in candidates && Compatible(host, good) && Meets(aim, host, good)
    ensures Meets(aim, host, Pick(host, candidates)) <==> SomeExact(host, candidates) || SomeUnrivalled(aim, host, candidates)
  {
    if SomeExact(host, candidates) {
      ExactPick(host, candidates);
    } else {
      SearchMeetsIff(aim, host, candidates, good);
      PickIsSearch(host, candidates);
    }
  }

  /** What makes the pick fully ABI compatible, when some candidate is. */
  predicate PickSucceeds(host: Library, candidates: seq<Library>) {
    SomeExact(host, candidates) || SomeUnrivalled(FullyCompatible, host, candidates)
  }

  /**
  For candidates with the host's linker name, some of them fully ABI compatible, the pick is fully
  ABI compatible exactly when a candidate has the host's real name or a compatible one is unrivalled:
  its minor number is below the host's, or its patch number is not below that of the newest contender
  before it, or of the oldest candidate if there is none.
   */
  lemma PickIsCompatibleIff(host: Library, candidates: seq<Library>)
    requires ShareLinkerName(host, candidates)
    requires exists c :: c in candidates && AreFullAbiCompatible(host, c)
    ensures AreFullAbiCompatible(host, Pick(host, candidates)) <==> PickSucceeds(host, candidates)
  {
    var good :| good in candidates && AreFullAbiCompatible(host, good);
    PickMeetsIff(FullyCompatible, host, candidates, good);
    PickIsCandidate(host, candidates);
  }

  /** So the pick is compatible if some candidate is and no candidate has an older major, or none a patch number. */
  lemma PickIsCompatible(host: Library, candidates: seq<Library>)
    requires ShareLinkerName(host, candidates)
    requires exists c :: c in candidates && AreFullAbiCompatible(host, c)
    requires (forall c :: c in candidates ==> !Less(c.major, host.major)) || (forall c :: c in candidates ==> c.patch.None?)
    ensures AreFullAbiCompatible(host, Pick(host, candidates))
  {
    PickIsCompatibleIff(host, candidates);
    var i :| 0 <= i < |candidates| && AreFullAbiCompatible(host, candidates[i]);
    if forall c :: c in candidates ==> c.patch.None? {
      assert Unrivalled(FullyCompatible, host, candidates, i);
    } else {
      OldestBelow(host, candidates, candidates[i]);
      var o := OldestIndex(host, candidates);
      assert candidates[o] in candidates;
      OldestUnrivalled(FullyCompatible, host, candidates, o);
    }
  }

  /** A fully compatible library such that no fully compatible candidate has a newer minor number. */
  predicate Newest(host: Library, candidates: seq<Library>, pick: Library) {
    Compatible(host, pick) && forall c :: c in candidates && Compatible(host, c) ==> AtMost(c.minor, pick.minor)
  }

  predicate SomeSameMinor(host: Library, candidates: seq<Library>) {
    exists c :: c in candidates && SameMinor(host, c)
  }

  /**
  The pick is the newest fully compatible candidate exactly when a candidate has the host's real
  name, or none has the host's minor number, or one that has it is unrivalled.
   */
  lemma PickIsNewestIff(host: Library, candidates: seq<Library>)
    requires ShareLinkerName(host, candidates)
    requires exists c :: c in candidates && AreFullAbiCompatible(host, c)
    ensures Newest(host, candidates, Pick(host, candidates)) <==>
            SomeExact(host, candidates) || !SomeSameMinor(host, candidates) || SomeUnrivalled(HostsMinor, host, candidates)
  {
    if SomeSameMinor(host, candidates) {
      var same :| same in candidates && SameMinor(host, same);
      PickMeetsIff(HostsMinor, host, candidates, same);
    } else {
      var good :| good in candidates && AreFullAbiCompatible(host, good);
      NewestWithoutSameMinor(host, candidates, good);
    }
  }

  lemma NewestWithoutSameMinor(host: Library, candidates: seq<Library>, good: Library)
    requires ShareLinkerName(host, candidates) && good in candidates && Compatible(host, good) && !SomeSameMinor(host, candidates)
    ensures Newest(host, candidates, Pick(host, candidates))
  {
    if SomeExact(host, candidates) {
      ExactPick(host, candidates);
      PickIsCandidate(host, candidates);
      assert false;
    } else {
      PickIsSearch(host, candidates);
      SearchIsNewest(host, candidates, good);
    }
  }

  /** Nothing is held back when no candidate has the host's minor number. */
  lemma SearchIsNewest(host: Library, candidates: seq<Library>, good: Library)
    requires good in candidates && Compatible(host, good) && !SomeSameMinor(host, candidates)
    ensures Newest(host, candidates, BestOf(host, candidates[OldestIndex(host, candidates)], candidates))
  {
    var o := OldestIndex(host, candidates);
    var start := candidates[o];
    OldestBelow(host, candidates, good);
    assert start in candidates;
    BestMeetsIff(HostsMinor, host, start, candidates);
    var b := BestOf(host, start, candidates);
    BestIsCandidate(host, start, candidates);
    assert b in candidates;
    var r := BestMissingIs(HostsMinor, host, start, candidates);
    forall c | c in candidates && Compatible(host, c)
      ensures Compatible(host, b) && AtMost(c.minor, b.minor)
    {
      OldestBelow(host, candidates, c);
      var j :| 0 <= j < |candidates| && candidates[j] == c;
      assert Counts(HostsMinor, host, start, candidates[j]);
    }
  }

  // ---------------------------------------------------------------- where the pick goes wrong

  /** There is a library libmpi.so with the given major, minor and patch number. */
  lemma Numbered(major: nat, minor: nat, patch: nat) returns (l: Library)
    requires major < 10 && minor < 10 && patch < 10
    ensures Constructed(l) && l.linkerName == "libmpi.so"
    ensures l.major == Some(major) && l.minor == Some(minor) && l.patch == Some(patch)
  {
    var abi := Decimal.Texts([major, minor, patch]);
    LibraryOfNumbers(["lib"], "libmpi.so", [major, minor, patch]);
    l := MakeLibrary(["lib"], "libmpi.so", abi).value;
    assert FreeOf(abi, '.');
    assert ConstructedFrom(l, abi);
  }

  /** Candidates of which one is fully compatible, but not the one picked. */
  ghost predicate Misses(host: Library, candidates: seq<Library>) {
    && ShareLinkerName(host, candidates)
    && (exists c :: c in candidates && AreFullAbiCompatible(host, c))
    && !AreFullAbiCompatible(host, Pick(host, candidates))
  }

  /** The pick can miss a compatible candidate: host 5.3.0, with 4.0.9 and 5.3.1 to choose from. */
  lemma PickMissesCompatible() returns (host: Library, low: Library, good: Library)
    ensures host.major == Some(5) && host.minor == Some(3) && host.patch == Some(0)
    ensures low.major == Some(4) && low.minor == Some(0) && low.patch == Some(9)
    ensures good.major == Some(5) && good.minor == Some(3) && good.patch == Some(1)
    ensures Misses(host, [low, good])
  {
    host := Numbered(5, 3, 0);
    low := Numbered(4, 0, 9);
    good := Numbered(5, 3, 1);
    SearchStaysLow(host, low, good);
    LowIsPicked(host, low, good);
  }

  /** It can also pass over a newer compatible candidate: host 5.3.0, with 5.2.9 and 5.3.1 to choose from. */
  lemma PickMissesNewest() returns (host: Library, low: Library, good: Library)
    ensures host.major == Some(5) && host.minor == Some(3) && host.patch == Some(0)
    ensures low.major == Some(5) && low.minor == Some(2) && low.patch == Some(9)
    ensures good.major == Some(5) && good.minor == Some(3) && good.patch == Some(1)
    ensures ShareLinkerName(host, [low, good]) && Pick(host, [low, good]) == low && !Newest(host, [low, good], low)
  {
    host := Numbered(5, 3, 0);
    low := Numbered(5, 2, 9);
    good := Numbered(5, 3, 1);
    SearchStaysLow(host, low, good);
    LowIsPicked(host, low, good);
  }

  lemma LowIsPicked(host: Library, low: Library, good: Library)
    requires Constructed(host) && Constructed(low) && Constructed(good) && host.linkerName == low.linkerName == good.linkerName
    requires Compatible(host, good) && Pick(host, [low, good]) == low && Less(low.minor, good.minor)
    ensures ShareLinkerName(host, [low, good])
    ensures low.major != host.major ==> Misses(host, [low, good])
    ensures !Newest(host, [low, good], low)
  {
    var candidates := [low, good];
    assert good in candidates;
    TwoShareLinkerName(host, low, good);
  }

  lemma DifferentRealName(a: Library, b: Library)
    requires Constructed(a) && Constructed(b) && a.linkerName == b.linkerName && a.patch != b.patch
    ensures a.realName != b.realName
  {
    if a.realName == b.realName {
      SameRealName(a, b);
    }
  }

  lemma TwoShareLinkerName(host: Library, a: Library, b: Library)
    requires Constructed(host) && Constructed(a) && Constructed(b) && host.linkerName == a.linkerName == b.linkerName
    ensures ShareLinkerName(host, [a, b])
  {
    forall c | c in [a, b]
      ensures Constructed(c) && c.linkerName == host.linkerName
    {
      assert c == a || c == b;
    }
  }

  /** An older candidate with a high patch number keeps out a newer one with the host's minor number. */
  lemma SearchStaysLow(host: Library, low: Library, good: Library)
    requires Constructed(host) && Constructed(low) && Constructed(good) && host.linkerName == low.linkerName == good.linkerName
    requires host.patch != low.patch && host.patch != good.patch
    requires NotNewer(low, good) && !NotNewer(good, low) && Eligible(host, low) && !SameMinor(host, low) && Blocked(host, low, good)
    ensures Pick(host, [low, good]) == low
  {
    DifferentRealName(low, host);
    DifferentRealName(good, host);
    var candidates := [low, good];
    OldestIndexNext(host, candidates, 0);
    OldestIndexNext(host, candidates, 1);
    BestOfNext(host, low, candidates, 0);
    BestOfNext(host, low, candidates, 1);
    assert candidates[..2] == candidates;
    assert FirstExact(host, candidates) == 2;
  }
}
