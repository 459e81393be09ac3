/**
Resolving paths inside a root file system: symbolic links are followed within the root,
where "/" is the root itself.  A path is the sequence of its components; a link target and
a path to resolve start with the component "/" when they are absolute.
 */
module Rootfs {
  import opened Wrappers

  type Path = seq<string>

  /** The symbolic links of the root file system, each with the components of its target. */
  type Links = map<Path, seq<string>>

  predicate IsAbsolute(elements: seq<string>) {
    elements != [] && elements[0] == "/"
  }

  /** As boost::filesystem splits paths: "/" can only be the first component. */
  predicate WellFormed(elements: seq<string>) {
    forall i :: 0 < i < |elements| ==> elements[i] != "/"
  }

  ghost predicate WellFormedLinks(links: Links) {
    forall l :: l in links ==> WellFormed(links[l])
  }

  function Parent(path: Path): Path {
    if path == [] then [] else path[..|path| - 1]
  }

  /** Where the resolution of a link target starts. */
  function StartOf(current: Path, target: seq<string>): Path {
    if IsAbsolute(target) then [] else current
  }

  // ---------------------------------------------------------------- the resolver

  datatype Outcome = Resolved(path: Path, traversed: seq<Path>) | TooDeep

  function Then(traversed: seq<Path>, outcome: Outcome): Outcome {
    if outcome.Resolved? then Resolved(outcome.path, traversed + outcome.traversed) else TooDeep
  }

  /**
  appendPathsWithinRootfs, with at most `depth` nested calls: the resulting path, and the links
  in the order in which they were traversed.
   */
  function Append(links: Links, current: Path, elements: seq<string>, depth: nat): Outcome
    decreases depth, |elements|
  {
    if elements == [] then Resolved(current, [])
    else
      var e, rest := elements[0], elements[1..];
      if e == "/" || e == "." then Append(links, current, rest, depth)
      else if e == ".." then Append(links, Parent(current), rest, depth)
      else if current + [e] in links then
        if depth == 0 then TooDeep
        else
          var link := current + [e];
          var target := Append(links, StartOf(current, links[link]), links[link], depth - 1);
          if target.TooDeep? then TooDeep
          else Then([link] + target.traversed, Append(links, target.path, rest, depth))
      else Append(links, current + [e], rest, depth)
  }

  /** The resolver as the loop it is. */
  method AppendPathsWithinRootfs(links: Links, path0: Path, path1: seq<string>, depth: nat) returns (outcome: Outcome)
    ensures outcome == Append(links, path0, path1, depth)
    decreases depth
  {
    var current := path0;
    var traversed: seq<Path> := [];
    assert path1[0..] == path1;
    for i := 0 to |path1|
      invariant Append(links, path0, path1, depth) == Then(traversed, Append(links, current, path1[i..], depth))
    {
      var element := path1[i];
      assert path1[i..][0] == element && path1[i..][1..] == path1[i + 1..];
      if element == "/" || element == "." {
        continue;
      } else if element == ".." {
        current := Parent(current);
      } else if current + [element] in links {
        var link := current + [element];
        if depth == 0 {
          return TooDeep;
        }
        var target := AppendPathsWithinRootfs(links, StartOf(current, links[link]), links[link], depth - 1);
        if target.TooDeep? {
          return TooDeep;
        }
        traversed := traversed + ([link] + target.traversed);
        current := target.path;
      } else {
        current := current + [element];
      }
    }
    return Resolved(current, traversed);
  }

  datatype PathError = NotAbsolute

  /** realpathWithinRootfs. */
  function Realpath(links: Links, path: seq<string>, depth: nat): Result<Outcome, PathError> {
    if IsAbsolute(path) then Success(Append(links, [], path, depth)) else Failure(NotAbsolute)
  }

  // ---------------------------------------------------------------- depth does not matter once it suffices

  lemma {:induction false} DeeperIsSame(links: Links, current: Path, elements: seq<string>, d: nat, e: nat)
    requires d <= e && Append(links, current, elements, d).Resolved?
    ensures Append(links, current, elements, e) == Append(links, current, elements, d)
    decreases d, |elements|
  {
    if elements != [] {
      var x, rest := elements[0], elements[1..];
      if x == "/" || x == "." {
        DeeperIsSame(links, current, rest, d, e);
      } else if x == ".." {
        DeeperIsSame(links, Parent(current), rest, d, e);
      } else if current + [x] in links {
        var target := links[current + [x]];
        DeeperIsSame(links, StartOf(current, target), target, d - 1, e - 1);
        DeeperIsSame(links, Append(links, StartOf(current, target), target, d - 1).path, rest, d, e);
      } else {
        DeeperIsSame(links, current + [x], rest, d, e);
      }
    }
  }

  /** Appending a concatenation is appending its parts in turn. */
  lemma {:induction false} AppendConcat(links: Links, current: Path, p: seq<string>, q: seq<string>, depth: nat)
    ensures Append(links, current, p + q, depth) ==
            (var first := Append(links, current, p, depth);
             if first.TooDeep? then TooDeep else Then(first.traversed, Append(links, first.path, q, depth)))
    decreases |p|
  {
    if p == [] {
      assert p + q == q;
    } else {
      var x, rest := p[0], p[1..];
      assert (p + q)[1..] == rest + q;
      if x == "/" || x == "." {
        AppendConcat(links, current, rest, q, depth);
      } else if x == ".." {
        AppendConcat(links, Parent(current), rest, q, depth);
      } else if current + [x] in links {
        if depth > 0 {
          var link := current + [x];
          var target := Append(links, StartOf(current, links[link]), links[link], depth - 1);
          if target.Resolved? {
            AppendConcat(links, target.path, rest, q, depth);
          }
        }
      } else {
        AppendConcat(links, current + [x], rest, q, depth);
      }
    }
  }

  // ---------------------------------------------------------------- the worklist machine

  /** A resolver without recursion: components still to walk, "/" meaning the root. */
  datatype Config = Config(current: Path, work: seq<string>, traversed: seq<Path>)

  function Step(links: Links, c: Config): Config {
    if c.work == [] then c
    else
      var e, rest := c.work[0], c.work[1..];
      if e == "/" then Config([], rest, c.traversed)
      else if e == "." then Config(c.current, rest, c.traversed)
      else if e == ".." then Config(Parent(c.current), rest, c.traversed)
      else if c.current + [e] in links then
        Config(c.current, links[c.current + [e]] + rest, c.traversed + [c.current + [e]])
      else Config(c.current + [e], rest, c.traversed)
  }

  function Steps(links: Links, c: Config, n: nat): Config
    decreases n
  {
    if n == 0 then c else Steps(links, Step(links, c), n - 1)
  }

  lemma {:induction false} StepsAdd(links: Links, c: Config, m: nat, n: nat)
    ensures Steps(links, c, m + n) == Steps(links, Steps(links, c, m), n)
    decreases m
  {
    if m > 0 {
      StepsAdd(links, Step(links, c), m - 1, n);
    }
  }

  /** One machine step for a component that is not a link. */
  function Plain(current: Path, e: string): Path {
    if e == "/" then [] else if e == "." then current else if e == ".." then Parent(current) else current + [e]
  }

  predicate IsLink(links: Links, current: Path, e: string) {
    e != "/" && e != "." && e != ".." && current + [e] in links
  }

  lemma StepPlain(links: Links, current: Path, p: seq<string>, q: seq<string>, t: seq<Path>)
    requires p != [] && !IsLink(links, current, p[0])
    ensures Step(links, Config(current, p + q, t)) == Config(Plain(current, p[0]), p[1..] + q, t)
  {
    assert (p + q)[1..] == p[1..] + q;
  }

  lemma StepLink(links: Links, current: Path, p: seq<string>, q: seq<string>, t: seq<Path>)
    requires p != [] && IsLink(links, current, p[0])
    ensures var link := current + [p[0]];
            Step(links, Config(current, p + q, t)) == Config(current, links[link] + (p[1..] + q), t + [link])
  {
    assert (p + q)[1..] == p[1..] + q;
  }

  /** The resolver on one component, from where a relative or absolute path starts. */
  lemma AppendPlain(links: Links, current: Path, p: seq<string>, depth: nat)
    requires WellFormed(p) && p != [] && !IsLink(links, current, p[0])
    ensures Append(links, StartOf(current, p), p, depth) == Append(links, Plain(current, p[0]), p[1..], depth)
    ensures WellFormed(p[1..]) && StartOf(Plain(current, p[0]), p[1..]) == Plain(current, p[0])
  {
  }

  lemma AppendLink(links: Links, current: Path, p: seq<string>, depth: nat)
    requires WellFormed(p) && p != [] && IsLink(links, current, p[0]) && depth > 0
    ensures var link := current + [p[0]];
            var target := Append(links, StartOf(current, links[link]), links[link], depth - 1);
            Append(links, StartOf(current, p), p, depth) ==
            if target.TooDeep? then TooDeep else Then([link] + target.traversed, Append(links, target.path, p[1..], depth))
    ensures WellFormed(p[1..]) && forall c: Path :: StartOf(c, p[1..]) == c
  {
  }

  /** The machine's trace through a link: the link, its target's links, then those of the rest. */
  lemma TraceThroughLink(t: seq<Path>, link: Path, a: seq<Path>, b: seq<Path>)
    ensures t + [link] + a + b == t + ([link] + a + b)
  {
  }

  /** Whatever the resolver finds, the machine finds. */
  lemma {:induction false} MachineFollows(links: Links, current: Path, p: seq<string>, q: seq<string>, t: seq<Path>, depth: nat)
      returns (n: nat)
    requires WellFormedLinks(links) && WellFormed(p)
    requires Append(links, StartOf(current, p), p, depth).Resolved?
    ensures var r := Append(links, StartOf(current, p), p, depth);
            Steps(links, Config(current, p + q, t), n) == Config(r.path, q, t + r.traversed)
    decreases depth, |p|
  {
    if p == [] {
      n := 0;
      assert p + q == q && t + [] == t;
    } else if IsLink(links, current, p[0]) {
      var link, rest := current + [p[0]], p[1..];
      var target := Append(links, StartOf(current, links[link]), links[link], depth - 1);
      AppendLink(links, current, p, depth);
      StepLink(links, current, p, q, t);
      var a := MachineFollows(links, current, links[link], rest + q, t + [link], depth - 1);
      var b := MachineFollows(links, target.path, rest, q, t + [link] + target.traversed, depth);
      StepsAdd(links, Step(links, Config(current, p + q, t)), a, b);
      n := 1 + (a + b);
      TraceThroughLink(t, link, target.traversed, Append(links, target.path, rest, depth).traversed);
    } else {
      StepPlain(links, current, p, q, t);
      AppendPlain(links, current, p, depth);
      var b := MachineFollows(links, Plain(current, p[0]), p[1..], q, t, depth);
      n := 1 + b;
    }
  }

  /** A halting machine has walked p on the way, and the resolver finds the same. */
  lemma {:induction false} ResolverFollows(links: Links, current: Path, p: seq<string>, q: seq<string>, t: seq<Path>, n: nat)
      returns (depth: nat, m: nat)
    requires WellFormedLinks(links) && WellFormed(p)
    requires Steps(links, Config(current, p + q, t), n).work == []
    ensures m <= n && Append(links, StartOf(current, p), p, depth).Resolved?
    ensures var r := Append(links, StartOf(current, p), p, depth);
            Steps(links, Config(current, p + q, t), m) == Config(r.path, q, t + r.traversed)
    decreases n, |p|
  {
    if p == [] {
      depth, m := 0, 0;
      assert p + q == q && t + [] == t;
    } else if IsLink(links, current, p[0]) {
      var link, rest := current + [p[0]], p[1..];
      StepLink(links, current, p, q, t);
      var d1, m1 := ResolverFollows(links, current, links[link], rest + q, t + [link], n - 1);
      var target := Append(links, StartOf(current, links[link]), links[link], d1);
      var t1 := t + [link] + target.traversed;
      StepsAdd(links, Step(links, Config(current, p + q, t)), m1, n - 1 - m1);
      var d2, m2 := ResolverFollows(links, target.path, rest, q, t1, n - 1 - m1);
      assert StartOf(target.path, rest) == target.path;
      depth := if d1 + 1 > d2 then d1 + 1 else d2;
      DeeperIsSame(links, StartOf(current, links[link]), links[link], d1, depth - 1);
      DeeperIsSame(links, target.path, rest, d2, depth);
      AppendLink(links, current, p, depth);
      StepsAdd(links, Step(links, Config(current, p + q, t)), m1, m2);
      m := 1 + (m1 + m2);
      TraceThroughLink(t, link, target.traversed, Append(links, target.path, rest, depth).traversed);
    } else {
      StepPlain(links, current, p, q, t);
      var b;
      depth, b := ResolverFollows(links, Plain(current, p[0]), p[1..], q, t, n - 1);
      AppendPlain(links, current, p, depth);
      m := 1 + b;
    }
  }

  /** The resolver finds path r, through the links t, with enough nested calls. */
  ghost predicate ResolvesTo(links: Links, current: Path, p: seq<string>, r: Path, t: seq<Path>) {
    exists depth: nat :: Append(links, current, p, depth) == Resolved(r, t)
  }

  /** The machine, started on p, halts at r with trace t. */
  ghost predicate MachineEnds(links: Links, current: Path, p: seq<string>, r: Path, t: seq<Path>) {
    exists n: nat :: Steps(links, Config(current, p, []), n) == Config(r, [], t)
  }

  /**
  The resolver and the machine agree on every file system, cyclic links included: one ends
  exactly when the other does, with the same path and the same links in the same order.
   */
  lemma ResolverIsMachine(links: Links, current: Path, p: seq<string>, r: Path, t: seq<Path>)
    requires WellFormedLinks(links) && WellFormed(p) && (IsAbsolute(p) ==> current == [])
    ensures ResolvesTo(links, current, p, r, t) <==> MachineEnds(links, current, p, r, t)
  {
    assert p + [] == p;
    if depth: nat :| Append(links, current, p, depth) == Resolved(r, t) {
      var n := MachineFollows(links, current, p, [], [], depth);
      assert [] + t == t;
      assert Steps(links, Config(current, p, []), n) == Config(r, [], t);
    }
    if n: nat :| Steps(links, Config(current, p, []), n) == Config(r, [], t) {
      var depth, m := ResolverFollows(links, current, p, [], [], n);
      var found := Append(links, current, p, depth);
      assert [] + found.traversed == found.traversed;
      StepsAdd(links, Config(current, p, []), m, n - m);
      StepsHalted(links, Config(found.path, [], found.traversed), n - m);
      assert found == Resolved(r, t);
    }
  }

  lemma {:induction false} StepsHalted(links: Links, c: Config, n: nat)
    requires c.work == []
    ensures Steps(links, c, n) == c
  {
    if n > 0 {
      StepsHalted(links, c, n - 1);
    }
  }

  // ---------------------------------------------------------------- when resolution ends

  /** The links whose target resolves with fewer than d nested calls. */
  function Solved(links: Links, d: nat): set<Path> {
    if d == 0 then {}
    else set l | l in links && l != [] && Append(links, StartOf(Parent(l), links[l]), links[l], d - 1).Resolved?
  }

  /** Resolution at some depth only depends on the links that are solved there. */
  lemma {:induction false} SolvedSuffice(links: Links, current: Path, p: seq<string>, d: nat, e: nat)
    requires Solved(links, d) <= Solved(links, e) && Append(links, current, p, d).Resolved?
    ensures Append(links, current, p, e) == Append(links, current, p, d)
    decreases |p|
  {
    if p != [] {
      var x, rest := p[0], p[1..];
      if x == "/" || x == "." {
        SolvedSuffice(links, current, rest, d, e);
      } else if x == ".." {
        SolvedSuffice(links, Parent(current), rest, d, e);
      } else if current + [x] in links {
        var link := current + [x];
        assert Parent(link) == current;
        assert link in Solved(links, d);
        assert link in Solved(links, e);
        var start, target := StartOf(current, links[link]), links[link];
        if d <= e {
          DeeperIsSame(links, start, target, d - 1, e - 1);
        } else {
          DeeperIsSame(links, start, target, e - 1, d - 1);
        }
        SolvedSuffice(links, Append(links, start, target, d - 1).path, rest, d, e);
      } else {
        SolvedSuffice(links, current + [x], rest, d, e);
      }
    }
  }

  lemma SolvedGrows(links: Links, d: nat)
    ensures Solved(links, d) <= Solved(links, d + 1)
  {
    var d1 := d + 1;
    forall l | l in Solved(links, d)
      ensures l in Solved(links, d1)
    {
      DeeperIsSame(links, StartOf(Parent(l), links[l]), links[l], d - 1, d);
    }
  }

  /** Once no further link gets solved, none ever will. */
  lemma StaysSolved(links: Links, d: nat)
    requires Solved(links, d + 1) <= Solved(links, d)
    ensures Solved(links, d + 2) <= Solved(links, d + 1)
  {
    var d1, d2 := d + 1, d + 2;
    forall l | l in Solved(links, d2)
      ensures l in Solved(links, d1)
    {
      SolvedSuffice(links, StartOf(Parent(l), links[l]), links[l], d1, d);
    }
  }

  lemma {:induction false} AllSolvedAt(links: Links, d: nat, e: nat)
    requires d <= e && Solved(links, d + 1) <= Solved(links, d)
    ensures Solved(links, e) <= Solved(links, d) && Solved(links, e + 1) <= Solved(links, e)
    decreases e - d
  {
    if d < e {
      AllSolvedAt(links, d, e - 1);
      StaysSolved(links, e - 1);
    }
  }

  lemma {:induction false} SubsetSize(a: set<Path>, b: set<Path>)
    requires a <= b
    ensures |a| <= |b| && (|a| == |b| ==> a == b)
  {
    if a != {} {
      var x :| x in a;
      SubsetSize(a - {x}, b - {x});
    }
  }

  /** Until then every depth solves at least one more link. */
  lemma {:induction false} SolvedOrStable(links: Links, d: nat)
    ensures |Solved(links, d)| >= d || exists k :: 0 <= k < d && Solved(links, k + 1) <= Solved(links, k)
  {
    if d > 0 {
      SolvedOrStable(links, d - 1);
      SolvedGrows(links, d - 1);
      SubsetSize(Solved(links, d - 1), Solved(links, d));
    }
  }

  lemma StableAtSize(links: Links, e: nat)
    requires |links| <= e
    ensures Solved(links, e) <= Solved(links, |links|)
  {
    var n := |links|;
    SolvedOrStable(links, n);
    if k :| 0 <= k < n && Solved(links, k + 1) <= Solved(links, k) {
      AllSolvedAt(links, k, n);
      AllSolvedAt(links, n, e);
    } else {
      SubsetSize(Solved(links, n), links.Keys);
      assert Solved(links, e) <= links.Keys;
    }
  }

  /**
  Recursion deeper than the number of links never helps: a path that resolves at any depth
  resolves within that many nested calls, to the same result.  The code recurses for ever on
  exactly the paths that do not.
   */
  lemma LinkCountSuffices(links: Links, current: Path, p: seq<string>, depth: nat)
    requires Append(links, current, p, depth).Resolved?
    ensures Append(links, current, p, |links|) == Append(links, current, p, depth)
  {
    if depth <= |links| {
      DeeperIsSame(links, current, p, depth, |links|);
    } else {
      StableAtSize(links, depth);
      SolvedSuffice(links, current, p, depth, |links|);
    }
  }

  /** The target of a link, from the directory that holds the link. */
  function TargetOf(links: Links, l: Path, depth: nat): Outcome
    requires l in links
  {
    Append(links, StartOf(Parent(l), links[l]), links[l], depth)
  }

  /** If every link is solved, every path resolves. */
  lemma {:induction false} SolvedResolves(links: Links, current: Path, p: seq<string>, d: nat)
    requires forall l :: l in links && l != [] ==> l in Solved(links, d)
    ensures Append(links, current, p, d).Resolved?
    decreases |p|
  {
    if p != [] {
      var x, rest := p[0], p[1..];
      if x == "/" || x == "." {
        SolvedResolves(links, current, rest, d);
      } else if x == ".." {
        SolvedResolves(links, Parent(current), rest, d);
      } else if current + [x] in links {
        var link := current + [x];
        assert Parent(link) == current && link in Solved(links, d);
        SolvedResolves(links, TargetOf(links, link, d - 1).path, rest, d);
      } else {
        SolvedResolves(links, current + [x], rest, d);
      }
    }
  }

  ghost predicate EverythingResolves(links: Links) {
    forall current: Path, p: seq<string> :: Append(links, current, p, |links|).Resolved?
  }

  ghost predicate EveryTargetResolves(links: Links) {
    forall l :: l in links ==> TargetOf(links, l, |links|).Resolved?
  }

  /** Every path from every directory resolves exactly if every link's target does. */
  lemma EverythingResolvesIff(links: Links)
    ensures EverythingResolves(links) <==> EveryTargetResolves(links)
  {
    if EveryTargetResolves(links) {
      var n := |links|;
      StableAtSize(links, n + 1);
      forall l | l in links && l != []
        ensures l in Solved(links, n)
      {
        assert TargetOf(links, l, n).Resolved?;
        assert l in Solved(links, n + 1);
      }
      forall current: Path, p: seq<string>
        ensures Append(links, current, p, n).Resolved?
      {
        SolvedResolves(links, current, p, n);
      }
    }
  }

  /** Walking the target of link l comes, after its first i components, to link k. */
  ghost predicate UsesAt(links: Links, l: Path, k: Path, i: nat, depth: nat)
    requires l in links
  {
    && i < |links[l]|
    && var before := Append(links, StartOf(Parent(l), links[l]), links[l][..i], depth);
       before.Resolved? && IsLink(links, before.path, links[l][i]) && before.path + [links[l][i]] == k
  }

  ghost predicate Uses(links: Links, l: Path, k: Path)
    requires l in links
  {
    exists i: nat, depth: nat :: UsesAt(links, l, k, i, depth)
  }

  /** Every link that is met on the way through the target of another has a smaller rank: no cycle of links. */
  ghost predicate Ranked(links: Links, rank: map<Path, nat>) {
    && (forall l :: l in links ==> l in rank)
    && (forall l, k :: l in links && k in links && Uses(links, l, k) ==> rank[k] < rank[l])
  }

  /** A ranked link resolves within as many nested calls as its rank. */
  lemma {:induction false} RankedTarget(links: Links, rank: map<Path, nat>, l: Path, i: nat)
    requires Ranked(links, rank) && l in links && i <= |links[l]|
    ensures Append(links, StartOf(Parent(l), links[l]), links[l][..i], rank[l]).Resolved?
    decreases rank[l], i
  {
    if i > 0 {
      var target, start, e := links[l], StartOf(Parent(l), links[l]), links[l][i - 1];
      RankedTarget(links, rank, l, i - 1);
      var before := Append(links, start, target[..i - 1], rank[l]);
      assert target[..i] == target[..i - 1] + [e];
      AppendConcat(links, start, target[..i - 1], [e], rank[l]);
      if IsLink(links, before.path, e) {
        var k := before.path + [e];
        assert UsesAt(links, l, k, i - 1, rank[l]);
        assert Parent(k) == before.path && links[k][..|links[k]|] == links[k];
        RankedTarget(links, rank, k, |links[k]|);
        DeeperIsSame(links, StartOf(before.path, links[k]), links[k], rank[k], rank[l] - 1);
      }
    }
  }

  /** A link met on the way through a target is traversed there, together with all that its own target traverses. */
  lemma UsedTraceIsShorter(links: Links, l: Path, k: Path, i: nat, depth: nat)
    requires l in links && UsesAt(links, l, k, i, depth) && TargetOf(links, l, |links|).Resolved?
    ensures k in links && TargetOf(links, k, |links|).Resolved?
    ensures |TargetOf(links, k, |links|).traversed| < |TargetOf(links, l, |links|).traversed|
  {
    var n := |links|;
    var target, start := links[l], StartOf(Parent(l), links[l]);
    var first, rest := target[..i], target[i..];
    assert target == first + rest && rest[0] == target[i];
    var before := Append(links, start, first, depth);
    LinkCountSuffices(links, start, first, depth);
    AppendConcat(links, start, first, rest, n);
    assert Parent(k) == before.path;
    assert Append(links, before.path, rest, n).Resolved?;
    LinkCountSuffices(links, StartOf(before.path, links[k]), links[k], n - 1);
  }

  /** Every path from every directory resolves exactly if the links have no cycle. */
  lemma AcyclicIff(links: Links)
    ensures EverythingResolves(links) <==> exists rank: map<Path, nat> :: Ranked(links, rank)
  {
    EverythingResolvesIff(links);
    if rank: map<Path, nat> :| Ranked(links, rank) {
      forall l | l in links
        ensures TargetOf(links, l, |links|).Resolved?
      {
        RankedTarget(links, rank, l, |links[l]|);
        assert links[l][..|links[l]|] == links[l];
        LinkCountSuffices(links, StartOf(Parent(l), links[l]), links[l], rank[l]);
      }
    }
    if EveryTargetResolves(links) {
      var rank := map l | l in links :: |TargetOf(links, l, |links|).traversed|;
      forall l, k | l in links && k in links && Uses(links, l, k)
        ensures rank[k] < rank[l]
      {
        var i: nat, depth: nat :| UsesAt(links, l, k, i, depth);
        UsedTraceIsShorter(links, l, k, i, depth);
      }
      assert Ranked(links, rank);
    }
  }

  /** For instance a root file system whose /lib is a link to usr/lib. */
  lemma MergedUsrResolves()
    ensures EverythingResolves(map[["lib"] := ["usr", "lib"]])
  {
    var links: Links := map[["lib"] := ["usr", "lib"]];
    assert Parent(["lib"]) == [] && |links| == 1;
    MergedUsrTarget(links, 1);
    EverythingResolvesIff(links);
  }

  lemma MergedUsrTarget(links: Links, depth: nat)
    requires links == map[["lib"] := ["usr", "lib"]]
    ensures Append(links, [], ["usr", "lib"], depth) == Resolved(["usr", "lib"], [])
  {
    var target := ["usr", "lib"];
    assert target[1..] == ["lib"] && ["lib"][1..] == [];
    assert [] + ["usr"] == ["usr"] && ["usr"] + ["lib"] == target;
    assert ["usr"] != ["lib"] by {
      assert ["usr"][0] == "usr" && ["lib"][0] == "lib" && "usr"[0] == 'u' && "lib"[0] == 'l';
    }
    assert |target| == 2;
    assert Append(links, ["usr"], ["lib"], depth) == Resolved(target, []);
  }

  // ---------------------------------------------------------------- what a resolved path looks like

  predicate Ordinary(e: string) { e != "/" && e != "." && e != ".." }

  /** Ordinary components only, and no prefix is a link. */
  ghost predicate Clean(links: Links, path: Path) {
    && (forall i :: 0 <= i < |path| ==> Ordinary(path[i]))
    && (forall k :: 0 < k <= |path| ==> path[..k] !in links)
  }

  lemma CleanParent(links: Links, path: Path)
    requires Clean(links, path)
    ensures Clean(links, Parent(path))
  {
    forall k | 0 < k <= |Parent(path)|
      ensures Parent(path)[..k] !in links
    {
      assert Parent(path)[..k] == path[..k];
    }
  }

  lemma CleanExtend(links: Links, path: Path, e: string)
    requires Clean(links, path) && Ordinary(e) && path + [e] !in links
    ensures Clean(links, path + [e])
  {
    forall k | 0 < k <= |path| + 1
      ensures (path + [e])[..k] !in links
    {
      assert (path + [e])[..k] == if k <= |path| then path[..k] else path + [e];
    }
  }

  /** A resolved path is clean, and only links were traversed. */
  lemma {:induction false} ResolvedIsClean(links: Links, current: Path, p: seq<string>, depth: nat)
    requires Clean(links, current) && Append(links, current, p, depth).Resolved?
    ensures Clean(links, Append(links, current, p, depth).path)
    ensures forall l :: l in Append(links, current, p, depth).traversed ==> l in links
    decreases depth, |p|
  {
    if p != [] {
      var x, rest := p[0], p[1..];
      if x == "/" || x == "." {
        ResolvedIsClean(links, current, rest, depth);
      } else if x == ".." {
        CleanParent(links, current);
        ResolvedIsClean(links, Parent(current), rest, depth);
      } else if current + [x] in links {
        var target := links[current + [x]];
        ResolvedIsClean(links, StartOf(current, target), target, depth - 1);
        ResolvedIsClean(links, Append(links, StartOf(current, target), target, depth - 1).path, rest, depth);
      } else {
        CleanExtend(links, current, x);
        ResolvedIsClean(links, current + [x], rest, depth);
      }
    }
  }

  lemma {:induction false} CleanAppends(links: Links, path: Path, i: nat, depth: nat)
    requires Clean(links, path) && i <= |path|
    ensures Append(links, path[..i], path[i..], depth) == Resolved(path, [])
    decreases |path| - i
  {
    if i < |path| {
      assert path[i..][1..] == path[i + 1..];
      assert path[..i] + [path[i]] == path[..i + 1];
      CleanAppends(links, path, i + 1, depth);
    } else {
      assert path[..i] == path;
    }
  }

  /** realpathWithinRootfs refuses exactly the paths without a leading "/". */
  lemma RealpathRefusesRelative(links: Links, path: seq<string>, depth: nat)
    ensures Realpath(links, path, depth) == Failure(NotAbsolute) <==> path == [] || path[0] != "/"
  {
  }

  /** The real path of an absolute path is where the machine ends, when it is started on it at the root. */
  lemma RealpathIsMachine(links: Links, path: seq<string>, r: Path, t: seq<Path>)
    requires WellFormedLinks(links) && WellFormed(path) && path != [] && path[0] == "/"
    ensures (exists depth: nat :: Realpath(links, path, depth) == Success(Resolved(r, t))) <==> MachineEnds(links, [], path, r, t)
  {
    ResolverIsMachine(links, [], path, r, t);
    forall depth: nat
      ensures Realpath(links, path, depth) == Success(Append(links, [], path, depth))
    {
    }
    if depth: nat :| Realpath(links, path, depth) == Success(Resolved(r, t)) {
      assert Append(links, [], path, depth) == Resolved(r, t);
    }
    if ResolvesTo(links, [], path, r, t) {
      var depth: nat :| Append(links, [], path, depth) == Resolved(r, t);
      assert Realpath(links, path, depth) == Success(Resolved(r, t));
    }
  }

  /**
  The real path of an absolute path has ordinary components only, none of its prefixes is a link,
  and resolving it again returns it unchanged, at any depth and without traversing a link.
   */
  lemma RealpathIdempotent(links: Links, path: seq<string>, depth: nat, depth': nat)
    requires Realpath(links, path, depth).Success? && Realpath(links, path, depth).value.Resolved?
    ensures var resolved := Realpath(links, path, depth).value.path;
            Clean(links, resolved) && Realpath(links, ["/"] + resolved, depth') == Success(Resolved(resolved, []))
  {
    var resolved := Append(links, [], path, depth).path;
    ResolvedIsClean(links, [], path, depth);
    CleanAppends(links, resolved, 0, depth');
    assert resolved[..0] == [] && resolved[0..] == resolved;
    assert (["/"] + resolved)[1..] == resolved;
  }

  /** With a link from /lib to usr/lib, the real path of a file below /lib is below /usr/lib. */
  lemma RealpathThroughLink(file: string)
    requires Ordinary(file)
    ensures Realpath(map[["lib"] := ["usr", "lib"]], ["/", "lib", file], 1) == Success(Resolved(["usr", "lib", file], [["lib"]]))
  {
    var links: Links := map[["lib"] := ["usr", "lib"]];
    var path, target := ["/", "lib", file], ["usr", "lib"];
    MergedUsrTarget(links, 0);
    assert path[1..] == ["lib", file] && ["lib", file][1..] == [file] && [file][1..] == [];
    assert [] + ["lib"] == ["lib"] && target + [file] == ["usr", "lib", file];
    assert |target + [file]| == 3;
    assert Append(links, target, [file], 1) == Resolved(target + [file], []);
    assert Append(links, [], ["lib", file], 1) == Resolved(target + [file], [["lib"]]);
  }
}
