/**
Names and ABI numbers of shared libraries: lib<name>.so.<major>.<minor>.<patch>, where the
numbers of a library are read from its file name and from the links that lead to it.
 */
module SharedLibs {
  import opened Wrappers
  import opened Text
  import opened Rootfs

  // ---------------------------------------------------------------- file names

  predicate SoAt(name: string, i: nat) {
    i + 3 <= |name| && name[i] == '.' && name[i + 1] == 's' && name[i + 2] == 'o'
  }

  /** The last ".so" of the first n characters and what follows, as std::find_end searches. */
  function LastSo(name: string, n: nat): (r: Option<nat>)
    requires n <= |name|
    ensures r.Some? ==> r.value < n && SoAt(name, r.value)
    ensures forall i :: (if r.Some? then r.value else -1) < i < n ==> !SoAt(name, i)
  {
    if n == 0 then None else if SoAt(name, n - 1) then Some(n - 1) else LastSo(name, n - 1)
  }

  predicate EndsWith(s: string, suffix: string) {
    |suffix| <= |s| && s[|s| - |suffix|..] == suffix
  }

  /** The part of isSharedLib that looks at the file name. */
  predicate IsSharedLibName(name: string) {
    var so := LastSo(name, |name|);
    && !EndsWith(name, ".conf") && !EndsWith(name, ".cache")
    && so.Some? && (so.value + 3 == |name| || name[so.value + 3] == '.')
  }

  datatype LibError = NotASharedLibrary | InvalidLibraryPath | BadVersionNumber

  function LinkerName(name: string): Result<string, LibError> {
    var so := LastSo(name, |name|);
    if so.None? || (so.value + 3 != |name| && name[so.value + 3] != '.') then Failure(InvalidLibraryPath)
    else Success(name[..so.value + 3])
  }

  /** The version numbers after ".so", of a name that is a shared library's. */
  function Abi(name: string): seq<string>
    requires IsSharedLibName(name)
  {
    var so := LastSo(name, |name|).value;
    if so + 3 == |name| then [] else Split(name[so + 4..], '.')
  }

  /** The real name that linker name and ABI make up. */
  function RealName(linkerName: string, abi: seq<string>): string {
    var version := Join(abi, '.');
    if version == "" then linkerName else linkerName + "." + version
  }

  /** Linker name and version numbers of a name make up the name again, except for a trailing dot. */
  lemma NameFromParts(name: string)
    requires IsSharedLibName(name)
    ensures LinkerName(name).Success?
    ensures RealName(LinkerName(name).value, Abi(name)) == if Abi(name) == [""] then name[..|name| - 1] else name
    ensures forall token :: token in Abi(name) ==> '.' !in token
  {
    var so := LastSo(name, |name|).value;
    if so + 3 < |name| {
      var version := name[so + 4..];
      JoinSplit(version, '.');
      assert name == name[..so + 3] + "." + version;
      if version == "" {
        assert Abi(name) == [""];
      }
    } else {
      assert name[..so + 3] == name;
    }
  }

  /** Libraries with the same linker name and real name have the same version numbers, if these are numbers at all. */
  lemma SameNameSameAbi(linkerName: string, abi: seq<string>, abi': seq<string>)
    requires RealName(linkerName, abi) == RealName(linkerName, abi')
    requires FreeOf(abi, '.') && FreeOf(abi', '.') && abi != [""] && abi' != [""]
    ensures abi == abi'
  {
    JoinNonempty(abi);
    JoinNonempty(abi');
    if abi != [] {
      assert RealName(linkerName, abi)[|linkerName|] == '.';
      assert RealName(linkerName, abi)[|linkerName| + 1..] == Join(abi, '.');
      assert RealName(linkerName, abi')[|linkerName| + 1..] == Join(abi', '.');
      SplitJoin(abi, '.');
      SplitJoin(abi', '.');
    }
  }

  lemma JoinNonempty(tokens: seq<string>)
    ensures Join(tokens, '.') == "" <==> tokens == [] || tokens == [""]
  {
    if |tokens| > 1 {
      assert |Join(tokens, '.')| >= 1;
    }
  }

  // ---------------------------------------------------------------- the ABI of a path with links

  function Filename(path: Path): string {
    if path == [] then "/" else path[|path| - 1]
  }

  /** isSharedLib, given which paths are directories. */
  predicate IsSharedLib(path: Path, isDirectory: Path -> bool) {
    !isDirectory(path) && IsSharedLibName(Filename(path))
  }

  /** The path takes part in resolving the ABI of a library with this linker name. */
  predicate Relevant(path: Path, linkerName: string, isDirectory: Path -> bool) {
    IsSharedLib(path, isDirectory) && LinkerName(Filename(path)) == Success(linkerName)
  }

  /** One turn of resolveAbi's loop. */
  function Consider(longest: seq<string>, path: Path, linkerName: string, isDirectory: Path -> bool): seq<string> {
    if !Relevant(path, linkerName, isDirectory) then longest
    else
      var abi := Abi(Filename(path));
      var shorter := if |abi| < |longest| then abi else longest;
      var longer := if |abi| > |longest| then abi else longest;
      if shorter <= longer then longer else longest
  }

  /** A path counts exactly if it is no directory and its name is that of a library with the linker name. */
  lemma ConsiderIgnores(longest: seq<string>, path: Path, linkerName: string, isDirectory: Path -> bool)
    requires isDirectory(path) || !IsSharedLibName(Filename(path)) || LinkerName(Filename(path)) != Success(linkerName)
    ensures Consider(longest, path, linkerName, isDirectory) == longest
  {
  }

  function ConsiderAll(longest: seq<string>, paths: seq<Path>, linkerName: string, isDirectory: Path -> bool): seq<string>
    decreases |paths|
  {
    if paths == [] then longest
    else ConsiderAll(Consider(longest, paths[0], linkerName, isDirectory), paths[1..], linkerName, isDirectory)
  }

  /** The components of a path below the root. */
  function Body(elements: seq<string>): Path {
    if IsAbsolute(elements) then elements[1..] else elements
  }

  datatype AbiOutcome = AbiOf(abi: seq<string>) | AbiError(error: LibError) | AbiTooDeep

  /** resolveAbi as the loop it is. */
  method ResolveAbi(lib: seq<string>, links: Links, isDirectory: Path -> bool, depth: nat) returns (outcome: AbiOutcome)
    ensures outcome == AbiError(NotASharedLibrary) <==> isDirectory(Body(lib)) || !IsSharedLibName(Filename(Body(lib)))
    ensures IsSharedLib(Body(lib), isDirectory) ==>
              (outcome.AbiTooDeep? <==> Append(links, [], lib, depth).TooDeep?)
    ensures IsSharedLib(Body(lib), isDirectory) && Append(links, [], lib, depth).Resolved? ==>
              outcome == AbiOf(ResolvedAbi(lib, links, isDirectory, depth))
  {
    if !IsSharedLib(Body(lib), isDirectory) {
      return AbiError(NotASharedLibrary);
    }
    NameFromParts(Filename(Body(lib)));
    var linkerName := LinkerName(Filename(Body(lib))).value;
    var resolved := AppendPathsWithinRootfs(links, [], lib, depth);
    if resolved.TooDeep? {
      return AbiTooDeep;
    }
    var paths := resolved.traversed + [resolved.path];
    var longest: seq<string> := [];
    assert paths[0..] == paths;
    for i := 0 to |paths|
      invariant ConsiderAll([], paths, linkerName, isDirectory) == ConsiderAll(longest, paths[i..], linkerName, isDirectory)
    {
      assert paths[i..][0] == paths[i] && paths[i..][1..] == paths[i + 1..];
      var path := paths[i];
      if !IsSharedLib(path, isDirectory) {
        continue;
      }
      if LinkerName(Filename(path)) != Success(linkerName) {
        continue;
      }
      var abi := Abi(Filename(path));
      var shorter := if |abi| < |longest| then abi else longest;
      var longer := if |abi| > |longest| then abi else longest;
      if !(shorter <= longer) {
        continue;
      }
      longest := longer;
    }
    return AbiOf(longest);
  }

  function ResolvedAbi(lib: seq<string>, links: Links, isDirectory: Path -> bool, depth: nat): seq<string>
    requires IsSharedLib(Body(lib), isDirectory) && Append(links, [], lib, depth).Resolved?
  {
    var resolved := Append(links, [], lib, depth);
    NameFromParts(Filename(Body(lib)));
    ConsiderAll([], resolved.traversed + [resolved.path], LinkerName(Filename(Body(lib))).value, isDirectory)
  }

  // ---------------------------------------------------------------- what the resolved ABI is

  /** The running ABI only grows by extension. */
  lemma {:induction false} AbiGrows(longest: seq<string>, paths: seq<Path>, linkerName: string, isDirectory: Path -> bool)
    ensures longest <= ConsiderAll(longest, paths, linkerName, isDirectory)
    decreases |paths|
  {
    if paths != [] {
      AbiGrows(Consider(longest, paths[0], linkerName, isDirectory), paths[1..], linkerName, isDirectory);
    }
  }

  /** The result is what the search started with or the ABI in the name of one of the paths. */
  lemma {:induction false} AbiComesFromPath(longest: seq<string>, paths: seq<Path>, linkerName: string, isDirectory: Path -> bool)
    ensures var abi := ConsiderAll(longest, paths, linkerName, isDirectory);
      abi == longest || exists path :: path in paths && Relevant(path, linkerName, isDirectory) && abi == Abi(Filename(path))
    decreases |paths|
  {
    if paths != [] {
      var next := Consider(longest, paths[0], linkerName, isDirectory);
      AbiComesFromPath(next, paths[1..], linkerName, isDirectory);
      var abi := ConsiderAll(longest, paths, linkerName, isDirectory);
      if abi == next && next != longest {
        assert paths[0] in paths && Relevant(paths[0], linkerName, isDirectory) && abi == Abi(Filename(paths[0]));
      } else if abi != next {
        var path :| path in paths[1..] && Relevant(path, linkerName, isDirectory) && abi == Abi(Filename(path));
        assert path in paths;
      }
    }
  }

  lemma {:induction false} ConsiderConcat(longest: seq<string>, p: seq<Path>, q: seq<Path>, linkerName: string, isDirectory: Path -> bool)
    ensures ConsiderAll(longest, p + q, linkerName, isDirectory) ==
            ConsiderAll(ConsiderAll(longest, p, linkerName, isDirectory), q, linkerName, isDirectory)
    decreases |p|
  {
    if p == [] {
      assert p + q == q;
    } else {
      assert (p + q)[1..] == p[1..] + q;
      ConsiderConcat(Consider(longest, p[0], linkerName, isDirectory), p[1..], q, linkerName, isDirectory);
    }
  }

  /** Among prefixes of a result, the ABI of one path is a prefix exactly if it is comparable with what came before. */
  lemma PrefixOfResult(before: seq<string>, path: Path, rest: seq<Path>, linkerName: string, isDirectory: Path -> bool)
    requires Relevant(path, linkerName, isDirectory)
    ensures var abi := Abi(Filename(path));
      abi <= ConsiderAll(before, [path] + rest, linkerName, isDirectory) <==> abi <= before || before <= abi
  {
    var abi := Abi(Filename(path));
    var after := Consider(before, path, linkerName, isDirectory);
    var result := ConsiderAll(before, [path] + rest, linkerName, isDirectory);
    assert ([path] + rest)[1..] == rest;
    AbiGrows(after, rest, linkerName, isDirectory);
    assert before <= after <= result;
  }

  lemma SharedLibIsOrdinary(name: string)
    requires IsSharedLibName(name)
    ensures Ordinary(name)
  {
    assert !SoAt(name, 0) || |name| >= 3;
  }

  /** The links traversed on the way to the directory of a library, and where that directory is. */
  function DirectoryOf(lib: seq<string>, links: Links, depth: nat): Outcome
    requires lib != []
  {
    Append(links, [], lib[..|lib| - 1], depth)
  }

  /** The ABI that the links on the way to the directory already suggest. */
  function AbiBefore(lib: seq<string>, links: Links, isDirectory: Path -> bool, depth: nat): seq<string>
    requires lib != [] && IsSharedLibName(lib[|lib| - 1]) && DirectoryOf(lib, links, depth).Resolved?
  {
    NameFromParts(lib[|lib| - 1]);
    ConsiderAll([], DirectoryOf(lib, links, depth).traversed, LinkerName(lib[|lib| - 1]).value, isDirectory)
  }

  /** The paths considered: those of the directory's links, then the library in its real directory. */
  lemma LibraryPathComesNext(lib: seq<string>, links: Links, depth: nat) returns (rest: seq<Path>)
    requires lib != [] && Ordinary(lib[|lib| - 1]) && Append(links, [], lib, depth).Resolved?
    ensures DirectoryOf(lib, links, depth).Resolved?
    ensures var resolved, dir := Append(links, [], lib, depth), DirectoryOf(lib, links, depth);
      resolved.traversed + [resolved.path] == dir.traversed + ([dir.path + [lib[|lib| - 1]]] + rest)
  {
    var dirs, file := lib[..|lib| - 1], lib[|lib| - 1];
    assert lib == dirs + [file];
    AppendConcat(links, [], dirs, [file], depth);
    var resolved, dir := Append(links, [], lib, depth), DirectoryOf(lib, links, depth);
    var path := dir.path + [file];
    assert [file][1..] == [];
    if path in links {
      var target := Append(links, StartOf(dir.path, links[path]), links[path], depth - 1);
      rest := target.traversed + [target.path];
      assert resolved.traversed == dir.traversed + ([path] + target.traversed);
    } else {
      rest := [];
      assert resolved.traversed == dir.traversed;
    }
  }

  /**
  The ABI in a library's own file name is a prefix of its resolved ABI exactly when it is
  comparable with the ABI that the links to its directory suggest; so always when none of
  those links carries the library's linker name.
   */
  lemma OwnAbiIsPrefix(lib: seq<string>, links: Links, isDirectory: Path -> bool, depth: nat)
    requires lib != [] && lib[|lib| - 1] != "/" && IsSharedLib(Body(lib), isDirectory) && Append(links, [], lib, depth).Resolved?
    requires DirectoryOf(lib, links, depth).Resolved? ==> !isDirectory(DirectoryOf(lib, links, depth).path + [lib[|lib| - 1]])
    ensures DirectoryOf(lib, links, depth).Resolved? && IsSharedLibName(lib[|lib| - 1])
    ensures var before, abi := AbiBefore(lib, links, isDirectory, depth), Abi(lib[|lib| - 1]);
      abi <= ResolvedAbi(lib, links, isDirectory, depth) <==> abi <= before || before <= abi
  {
    var file := lib[|lib| - 1];
    assert Filename(Body(lib)) == file;
    SharedLibIsOrdinary(file);
    NameFromParts(file);
    var linkerName := LinkerName(file).value;
    var rest := LibraryPathComesNext(lib, links, depth);
    var dir := DirectoryOf(lib, links, depth);
    var path := dir.path + [file];
    assert Filename(path) == file;
    ConsiderConcat([], dir.traversed, [path] + rest, linkerName, isDirectory);
    PrefixOfResult(ConsiderAll([], dir.traversed, linkerName, isDirectory), path, rest, linkerName, isDirectory);
  }

  /** The path has the linker name, and an ABI that extends the running one and the given one. */
  predicate Adopts(abi: seq<string>, running: seq<string>, path: Path, linkerName: string, isDirectory: Path -> bool) {
    Relevant(path, linkerName, isDirectory) && running <= Abi(Filename(path)) && abi <= Abi(Filename(path))
  }

  /** That is so of one of the paths, with the running ABI when it is its turn. */
  predicate SomeAdopted(abi: seq<string>, longest: seq<string>, paths: seq<Path>, linkerName: string, isDirectory: Path -> bool)
    decreases |paths|
  {
    paths != [] &&
    var n := |paths| - 1;
    || SomeAdopted(abi, longest, paths[..n], linkerName, isDirectory)
    || Adopts(abi, ConsiderAll(longest, paths[..n], linkerName, isDirectory), paths[n], linkerName, isDirectory)
  }

  lemma ConsiderNext(longest: seq<string>, paths: seq<Path>, linkerName: string, isDirectory: Path -> bool)
    requires paths != []
    ensures var n := |paths| - 1;
      ConsiderAll(longest, paths, linkerName, isDirectory) ==
      Consider(ConsiderAll(longest, paths[..n], linkerName, isDirectory), paths[n], linkerName, isDirectory)
  {
    var n := |paths| - 1;
    assert paths == paths[..n] + [paths[n]] && [paths[n]][1..] == [];
    ConsiderConcat(longest, paths[..n], [paths[n]], linkerName, isDirectory);
  }

  /** For any ABI: it is a prefix of the result exactly if it is one of the start or of a path that was adopted. */
  lemma {:induction false} PrefixIffAdopted(
      abi: seq<string>, longest: seq<string>, paths: seq<Path>, linkerName: string, isDirectory: Path -> bool)
    ensures abi <= ConsiderAll(longest, paths, linkerName, isDirectory) <==>
            abi <= longest || SomeAdopted(abi, longest, paths, linkerName, isDirectory)
    decreases |paths|
  {
    if paths != [] {
      var n := |paths| - 1;
      PrefixIffAdopted(abi, longest, paths[..n], linkerName, isDirectory);
      ConsiderNext(longest, paths, linkerName, isDirectory);
    }
  }

  /**
  So for every resolvable library, whatever the host has under its path: the ABI in its file name is
  a prefix of the resolved ABI exactly if a path that was adopted on the way extends it.
   */
  lemma OwnAbiIsPrefixIffAdopted(lib: seq<string>, links: Links, isDirectory: Path -> bool, depth: nat)
    requires IsSharedLib(Body(lib), isDirectory) && Append(links, [], lib, depth).Resolved?
    ensures LinkerName(Filename(Body(lib))).Success?
    ensures var resolved, abi := Append(links, [], lib, depth), Abi(Filename(Body(lib)));
      abi <= ResolvedAbi(lib, links, isDirectory, depth) <==>
      || abi == []
      || SomeAdopted(abi, [], resolved.traversed + [resolved.path], LinkerName(Filename(Body(lib))).value, isDirectory)
  {
    var resolved, name := Append(links, [], lib, depth), Filename(Body(lib));
    NameFromParts(name);
    PrefixIffAdopted(Abi(name), [], resolved.traversed + [resolved.path], LinkerName(name).value, isDirectory);
  }

  lemma {:induction false} NothingRelevant(paths: seq<Path>, linkerName: string, isDirectory: Path -> bool)
    requires forall path :: path in paths ==> !Relevant(path, linkerName, isDirectory)
    ensures ConsiderAll([], paths, linkerName, isDirectory) == []
  {
    if paths != [] {
      assert paths[0] in paths;
      NothingRelevant(paths[1..], linkerName, isDirectory);
    }
  }

  lemma OwnAbiIsPrefixWithoutNamesakes(lib: seq<string>, links: Links, isDirectory: Path -> bool, depth: nat)
    requires lib != [] && lib[|lib| - 1] != "/" && IsSharedLib(Body(lib), isDirectory) && Append(links, [], lib, depth).Resolved?
    requires DirectoryOf(lib, links, depth).Resolved? && !isDirectory(DirectoryOf(lib, links, depth).path + [lib[|lib| - 1]])
    requires forall link :: link in DirectoryOf(lib, links, depth).traversed && LinkerName(lib[|lib| - 1]).Success? ==>
               !Relevant(link, LinkerName(lib[|lib| - 1]).value, isDirectory)
    ensures IsSharedLibName(lib[|lib| - 1]) && Abi(lib[|lib| - 1]) <= ResolvedAbi(lib, links, isDirectory, depth)
  {
    OwnAbiIsPrefix(lib, links, isDirectory, depth);
    NameFromParts(lib[|lib| - 1]);
    NothingRelevant(DirectoryOf(lib, links, depth).traversed, LinkerName(lib[|lib| - 1]).value, isDirectory);
  }

  // ---------------------------------------------------------------- where the own ABI is lost

  /** A name that ends in ".so" is a library without version numbers. */
  lemma NameWithoutVersion(stem: string)
    ensures var name := stem + ".so"; IsSharedLibName(name) && LinkerName(name) == Success(name) && Abi(name) == []
  {
    var name := stem + ".so";
    assert SoAt(name, |stem|);
    assert name[|name| - 1] == 'o' && name[..|stem| + 3] == name;
  }

  /** The files of the dynamic linker are none, nor is a name where ".so" only begins a word. */
  lemma NotALibrary(stem: string, c: char)
    requires c != '.'
    ensures !IsSharedLibName(stem + ".conf") && !IsSharedLibName(stem + ".cache") && !IsSharedLibName(stem + ".so" + [c])
  {
    var conf, cache, word := stem + ".conf", stem + ".cache", stem + ".so" + [c];
    assert conf[|conf| - 5..] == ".conf" && cache[|cache| - 6..] == ".cache";
    assert SoAt(word, |stem|) && word[|stem| + 3] == c;
  }

  /** The parts of a file name with a one-digit version. */
  lemma OneDigitName(stem: string, digit: char)
    requires '0' <= digit <= '9'
    ensures var name := stem + ".so." + [digit];
      IsSharedLibName(name) && LinkerName(name) == Success(stem + ".so") && Abi(name) == [[digit]]
  {
    var name := stem + ".so." + [digit];
    assert SoAt(name, |stem|);
    var so := LastSo(name, |name|);
    assert so == Some(|stem|);
    assert name[|name| - 1] == digit;
    assert name[..|stem| + 3] == stem + ".so" && name[|stem| + 4..] == [digit];
    SplitFree([digit], '.');
  }

  /** The host has no directory under any of the paths of the root file system. */
  predicate NoDirectory(path: Path) { false }

  /** A link libm.so.1 to a directory d of the root file system, and in it the library libm.so.2: the resolved ABI is 1. */
  lemma OwnAbiCanBeLost(stem: string, a: char, b: char)
    requires '0' <= a <= '9' && '0' <= b <= '9' && a != b
    ensures var one, two := stem + ".so." + [a], stem + ".so." + [b];
      var lib, links := ["/", one, two], map[[one] := ["d"]];
      && IsSharedLib(Body(lib), NoDirectory) && Append(links, [], lib, 1).Resolved?
      && ResolvedAbi(lib, links, NoDirectory, 1) == [[a]] && IsSharedLibName(two) && Abi(two) == [[b]]
  {
    var one, two := stem + ".so." + [a], stem + ".so." + [b];
    var links: Links := map[[one] := ["d"]];
    OneDigitName(stem, a);
    OneDigitName(stem, b);
    SharedLibIsOrdinary(one);
    SharedLibIsOrdinary(two);
    assert |one| > 1 && |"d"| == 1;
    WalkThroughLink(one, two, links);
    var lib: seq<string> := ["/", one, two];
    assert Filename(Body(lib)) == two;
    FirstAbiStays(one, two, stem + ".so", [a], [b]);
    assert [[one]] + [["d", two]] == [[one], ["d", two]];
    assert IsSharedLib(Body(lib), NoDirectory);
    assert ResolvedAbi(lib, links, NoDirectory, 1) == ConsiderAll([], [[one], ["d", two]], stem + ".so", NoDirectory);
  }

  lemma FirstAbiStays(one: string, two: string, linkerName: string, a: string, b: string)
    requires IsSharedLibName(one) && LinkerName(one) == Success(linkerName) && Abi(one) == [a]
    requires IsSharedLibName(two) && LinkerName(two) == Success(linkerName) && Abi(two) == [b] && a != b
    ensures ConsiderAll([], [[one], ["d", two]], linkerName, NoDirectory) == [a]
  {
    var paths := [[one], ["d", two]];
    assert paths[1..] == [["d", two]] && paths[1..][1..] == [];
    assert Filename([one]) == one && Filename(["d", two]) == two;
    assert Consider([], [one], linkerName, NoDirectory) == [a];
    assert [a][0] == a && [b][0] == b;
    assert Consider([a], ["d", two], linkerName, NoDirectory) == [a];
    assert ConsiderAll([], paths, linkerName, NoDirectory) == ConsiderAll([a], paths[1..], linkerName, NoDirectory);
    assert ConsiderAll([a], paths[1..], linkerName, NoDirectory) == ConsiderAll([a], [], linkerName, NoDirectory);
  }

  lemma WalkThroughLink(one: string, two: string, links: Links)
    requires links == map[[one] := ["d"]] && Ordinary(one) && Ordinary(two) && one != "d"
    ensures Append(links, [], ["/", one, two], 1) == Resolved(["d", two], [[one]])
  {
    var lib := ["/", one, two];
    assert lib[1..] == [one, two] && [one, two][1..] == [two] && [two][1..] == [] && ["d"][1..] == [];
    assert [] + [one] == [one] && [] + ["d"] == ["d"] && ["d"] + [two] == ["d", two];
    assert ["d"][0] == "d" && [one][0] == one;
    assert |["d", two]| == 2;
    assert Append(links, [], ["d"], 0) == Resolved(["d"], []);
    assert Append(links, ["d"], [two], 1) == Resolved(["d", two], []);
    assert Append(links, [], [one, two], 1) == Resolved(["d", two], [[one]]);
  }
}
