/**
Image references: the grammar accepted on the command line, the parser, the printer
and the key under which an image is stored.
 */
module ImageReference {
  import opened Wrappers
  import opened Text

  const DEFAULT_SERVER := "docker.io"
  const DEFAULT_REPOSITORY_NAMESPACE := "library"
  const DEFAULT_TAG := "latest"

  datatype Reference = Reference(server: string, repositoryNamespace: string, image: string, tag: string, digest: string)

  // ---------------------------------------------------------------- printing

  function FullName(r: Reference): string {
    r.server + "/" + r.repositoryNamespace + "/" + r.image
  }

  function Suffix(mark: char, text: string): string {
    if text == "" then "" else [mark] + text
  }

  function Print(r: Reference): string {
    FullName(r) + Suffix(':', r.tag) + Suffix('@', r.digest)
  }

  /** A reference with a digest ignores its tag. */
  function Normalize(r: Reference): (n: Reference)
    ensures r.tag != "" || r.digest != "" ==> (n.tag == "") != (n.digest == "")
    ensures n.(tag := r.tag) == r
  {
    if r.digest != "" && r.tag != "" then r.(tag := "") else r
  }

  function Dashed(s: string): (d: string)
    ensures |d| == |s|
    ensures forall i :: 0 <= i < |s| ==> d[i] == (if s[i] == ':' then '-' else s[i])
  {
    seq(|s|, i requires 0 <= i < |s| => if s[i] == ':' then '-' else s[i])
  }

  datatype KeyError = NeitherTagNorDigest

  function UniqueKey(r: Reference): Result<string, KeyError> {
    if r.tag != "" then Success(FullName(r) + "/" + r.tag)
    else if r.digest != "" then Success(FullName(r) + "/" + Dashed(r.digest))
    else Failure(NeitherTagNorDigest)
  }

  // ---------------------------------------------------------------- grammar

  predicate Lower(c: char) { 'a' <= c <= 'z' }
  predicate Upper(c: char) { 'A' <= c <= 'Z' }
  predicate Digit(c: char) { '0' <= c <= '9' }
  predicate Letter(c: char) { Lower(c) || Upper(c) }
  predicate LowerAlnum(c: char) { Lower(c) || Digit(c) }
  predicate Alnum(c: char) { Letter(c) || Digit(c) }
  predicate Hex(c: char) { Digit(c) || 'a' <= c <= 'f' || 'A' <= c <= 'F' }
  predicate Word(c: char) { Alnum(c) || c == '_' }

  /** Progress through a path component: alphanumeric runs separated by '.', '_', '__' or dashes. */
  datatype PathState = NeedAlnum | InAlnum | OneUnderscore | Dashes

  predicate PathFrom(s: string, st: PathState)
    decreases |s|
  {
    if s == "" then st.InAlnum?
    else if LowerAlnum(s[0]) then PathFrom(s[1..], InAlnum)
    else match st
      case NeedAlnum => false
      case InAlnum =>
        if s[0] == '.' then PathFrom(s[1..], NeedAlnum)
        else if s[0] == '_' then PathFrom(s[1..], OneUnderscore)
        else s[0] == '-' && PathFrom(s[1..], Dashes)
      case OneUnderscore => s[0] == '_' && PathFrom(s[1..], NeedAlnum)
      case Dashes => s[0] == '-' && PathFrom(s[1..], Dashes)
  }

  predicate IsPathComponent(s: string) { PathFrom(s, NeedAlnum) }

  predicate AllPathComponents(parts: seq<string>) {
    forall p :: p in parts ==> IsPathComponent(p)
  }

  predicate IsRemoteName(s: string) { AllPathComponents(Split(s, '/')) }

  /** Progress through a domain: a dotted host name or a bracketed IPv6 address, then an optional port. */
  datatype DomainState = HostStart | Host | HostDash | BracketOpen | Bracket | BracketClosed | PortStart | Port

  predicate DomainFrom(s: string, st: DomainState)
    decreases |s|
  {
    if s == "" then st.Host? || st.BracketClosed? || st.Port?
    else match st
      case HostStart => Alnum(s[0]) && DomainFrom(s[1..], Host)
      case Host =>
        if Alnum(s[0]) then DomainFrom(s[1..], Host)
        else if s[0] == '-' then DomainFrom(s[1..], HostDash)
        else if s[0] == '.' then DomainFrom(s[1..], HostStart)
        else s[0] == ':' && DomainFrom(s[1..], PortStart)
      case HostDash =>
        if s[0] == '-' then DomainFrom(s[1..], HostDash) else Alnum(s[0]) && DomainFrom(s[1..], Host)
      case BracketOpen => (Hex(s[0]) || s[0] == ':') && DomainFrom(s[1..], Bracket)
      case Bracket =>
        if s[0] == ']' then DomainFrom(s[1..], BracketClosed)
        else (Hex(s[0]) || s[0] == ':') && DomainFrom(s[1..], Bracket)
      case BracketClosed => s[0] == ':' && DomainFrom(s[1..], PortStart)
      case PortStart => Digit(s[0]) && DomainFrom(s[1..], Port)
      case Port => Digit(s[0]) && DomainFrom(s[1..], Port)
  }

  predicate IsDomain(s: string) {
    if s != "" && s[0] == '[' then DomainFrom(s[1..], BracketOpen) else DomainFrom(s, HostStart)
  }

  predicate IsName(s: string) {
    var i := IndexOf(s, '/');
    IsRemoteName(s) || (i < |s| && IsDomain(s[..i]) && IsRemoteName(s[i + 1..]))
  }

  predicate IsTag(s: string) {
    && 1 <= |s| <= 128
    && Word(s[0])
    && forall c :: c in s ==> Word(c) || c == '.' || c == '-'
  }

  /** The algorithm part of a digest: letter-led alphanumeric runs separated by '-', '_', '+' or '.'. */
  predicate IsAlgorithm(s: string)
    decreases |s|
  {
    s != "" && Letter(s[0]) && AlgorithmRest(s[1..])
  }

  predicate AlgorithmRest(s: string)
    decreases |s|
  {
    s == "" ||
    (if Alnum(s[0]) then AlgorithmRest(s[1..])
     else s[0] in {'-', '_', '+', '.'} && |s| > 1 && Letter(s[1]) && AlgorithmRest(s[2..]))
  }

  predicate IsDigest(s: string) {
    var i := IndexOf(s, ':');
    i < |s| && IsAlgorithm(s[..i]) && |s| - i - 1 >= 32 && forall c :: c in s[i + 1..] ==> Hex(c)
  }

  /** The regular expression for references: a name, an optional tag, an optional digest. */
  predicate Matches(input: string, name: string, tag: string, digest: string) {
    && input == name + Suffix(':', tag) + Suffix('@', digest)
    && IsName(name)
    && (tag == "" || IsTag(tag))
    && (digest == "" || IsDigest(digest))
  }

  // ---------------------------------------------------------------- parsing

  /** The only way to cut a reference: at the first '@', and at the last ':' that no '/' follows. */
  function CutDigest(s: string): (string, string) {
    var i := IndexOf(s, '@');
    if i == |s| then (s, "") else (s[..i], s[i + 1..])
  }

  function CutTag(s: string): (string, string) {
    var c := LastIndexOf(s, ':');
    if c.Some? && '/' !in s[c.value + 1..] then (s[..c.value], s[c.value + 1..]) else (s, "")
  }

  function Cut(input: string): (string, string, string) {
    var (head, digest) := CutDigest(input);
    var (name, tag) := CutTag(head);
    (name, tag, digest)
  }

  predicate IsDomainLike(s: string) {
    '.' in s || ':' in s || s == "localhost" || s == "load" || exists c :: c in s && Upper(c)
  }

  /** Namespace and image of what follows the server. */
  function SplitRemainder(remainder: string): (string, string) {
    var last := LastIndexOf(remainder, '/');
    if last.None? then ("", remainder) else (remainder[..last.value], remainder[last.value + 1..])
  }

  /** Server, namespace and image of a name. */
  function ParseName(name: string): (string, string, string) {
    var i := IndexOf(name, '/');
    if i == |name| then (DEFAULT_SERVER, DEFAULT_REPOSITORY_NAMESPACE, name)
    else
      var domainLike := IsDomainLike(name[..i]);
      var (ns, image) := SplitRemainder(if domainLike then name[i + 1..] else name);
      (if domainLike then name[..i] else DEFAULT_SERVER, ns, image)
  }

  predicate DotDotAt(s: string, i: nat)
    requires i + 1 < |s|
  {
    s[i] == '.' && s[i + 1] == '.'
  }

  predicate HasDotDot(s: string) {
    exists i: nat :: i + 1 < |s| && DotDotAt(s, i)
  }

  datatype ParseError = DotDot | NoMatch

  function Parse(input: string): Result<Reference, ParseError> {
    if HasDotDot(input) then Failure(DotDot)
    else
      var (name, tag, digest) := Cut(input);
      if Matches(input, name, tag, digest) then Success(FromMatch(name, tag, digest)) else Failure(NoMatch)
  }

  function FromMatch(name: string, tag: string, digest: string): Reference {
    var (server, ns, image) := ParseName(name);
    Reference(server, ns, image, if tag == "" && digest == "" then DEFAULT_TAG else tag, digest)
  }

  // ---------------------------------------------------------------- the grammar leaves one reading

  lemma {:induction false} PathChars(s: string, st: PathState)
    requires PathFrom(s, st)
    ensures forall c :: c in s ==> LowerAlnum(c) || c in {'.', '_', '-'}
    decreases |s|
  {
    if s != "" {
      var next :| PathFrom(s[1..], next);
      PathChars(s[1..], next);
      assert s == [s[0]] + s[1..];
    }
  }

  lemma {:induction false} DomainChars(s: string, st: DomainState)
    requires DomainFrom(s, st)
    ensures forall c :: c in s ==> Alnum(c) || c in {'.', '-', ':', ']'}
    decreases |s|
  {
    if s != "" {
      var next :| DomainFrom(s[1..], next);
      DomainChars(s[1..], next);
      assert s == [s[0]] + s[1..];
    }
  }

  /** Free of the marks that belong to tags, digests, ports and bracketed hosts. */
  predicate Unmarked(s: string) { ':' !in s && '@' !in s && '[' !in s }

  lemma UnmarkedParts(a: string, b: string)
    ensures Unmarked(a + "/" + b) <==> Unmarked(a) && Unmarked(b)
  {
    var s := a + "/" + b;
    assert forall c :: c in s <==> c in a || c == '/' || c in b;
  }

  lemma PathComponentUnmarked(s: string)
    requires IsPathComponent(s)
    ensures Unmarked(s)
  {
    PathChars(s, NeedAlnum);
  }

  lemma RemoteNameUnmarked(s: string)
    requires IsRemoteName(s)
    ensures Unmarked(s)
  {
    JoinSplit(s, '/');
    JoinUnmarked(Split(s, '/'));
  }

  lemma {:induction false} JoinUnmarked(parts: seq<string>)
    requires AllPathComponents(parts)
    ensures Unmarked(Join(parts, '/'))
  {
    if parts != [] {
      assert parts[0] in parts;
      PathComponentUnmarked(parts[0]);
      assert AllPathComponents(parts[1..]);
      JoinUnmarked(parts[1..]);
      UnmarkedParts(parts[0], Join(parts[1..], '/'));
    }
  }

  /** In a name '@' does not occur, and every ':' is followed by a '/'. */
  lemma NameShape(name: string)
    requires IsName(name)
    ensures '@' !in name
    ensures CutTag(name) == (name, "")
  {
    if IsRemoteName(name) {
      RemoteNameUnmarked(name);
    } else {
      var i := IndexOf(name, '/');
      var domain, rest := name[..i], name[i + 1..];
      assert name == domain + "/" + rest;
      FirstChars(domain);
      RemoteNameUnmarked(rest);
      SlashAfterColon(domain, rest);
    }
  }

  lemma {:induction false} SlashAfterColon(domain: string, rest: string)
    requires ':' !in rest
    ensures CutTag(domain + "/" + rest) == (domain + "/" + rest, "")
  {
    var s := domain + "/" + rest;
    var c := LastIndexOf(s, ':');
    if c.Some? {
      assert s[c.value] == ':' && forall k :: |domain| <= k < |s| ==> s[k] != ':';
      assert s[c.value + 1..][|domain| - c.value - 1] == '/';
    }
  }

  lemma TagShape(tag: string)
    requires IsTag(tag)
    ensures ':' !in tag && '/' !in tag && '@' !in tag
  {
    assert !(Word(':') || ':' == '.' || ':' == '-');
    assert !(Word('/') || '/' == '.' || '/' == '-');
    assert !(Word('@') || '@' == '.' || '@' == '-');
  }

  lemma CutDigestPrinted(head: string, digest: string)
    requires '@' !in head
    ensures CutDigest(head + Suffix('@', digest)) == (head, digest)
  {
    var input := head + Suffix('@', digest);
    if digest == "" {
      assert input == head;
    } else {
      FirstSeparator(head, digest, '@');
      assert input == head + ['@'] + digest;
      assert input[..|head|] == head && input[|head| + 1..] == digest;
    }
  }

  lemma CutTagPrinted(name: string, tag: string)
    requires CutTag(name) == (name, "")
    requires tag == "" || IsTag(tag)
    ensures CutTag(name + Suffix(':', tag)) == (name, tag)
  {
    var head := name + Suffix(':', tag);
    if tag == "" {
      assert head == name;
    } else {
      TagShape(tag);
      LastSeparator(name, tag, ':');
      assert head == name + [':'] + tag;
      assert head[..|name|] == name && head[|name| + 1..] == tag;
    }
  }

  /** Cutting the printed form of a well-shaped name, tag and digest gives them back. */
  lemma CutPrinted(name: string, tag: string, digest: string)
    requires '@' !in name && CutTag(name) == (name, "")
    requires tag == "" || IsTag(tag)
    ensures Cut(name + Suffix(':', tag) + Suffix('@', digest)) == (name, tag, digest)
  {
    if tag != "" {
      TagShape(tag);
    }
    CutDigestPrinted(name + Suffix(':', tag), digest);
    CutTagPrinted(name, tag);
  }

  /** The regular expression has one match at most, and the parser finds it. */
  lemma ParseFindsTheMatch(input: string, name: string, tag: string, digest: string)
    requires Matches(input, name, tag, digest)
    ensures Cut(input) == (name, tag, digest)
    ensures HasDotDot(input) || Parse(input).Success?
  {
    NameShape(name);
    CutPrinted(name, tag, digest);
  }

  // ---------------------------------------------------------------- round trip

  lemma JoinComponents(a: string, b: string)
    requires '/' !in a
    ensures IsRemoteName(a + "/" + b) <==> IsPathComponent(a) && IsRemoteName(b)
  {
    SplitCons(a, b, '/');
    var parts := Split(a + "/" + b, '/');
    assert parts == [a] + Split(b, '/');
    assert parts[0] == a && parts[1..] == Split(b, '/');
    assert forall p :: p in parts <==> p == a || p in Split(b, '/');
  }

  /** A lower-case host name without dots or port is also a path component. */
  lemma {:induction false} HostIsPathComponent(s: string, st: DomainState, pst: PathState)
    requires DomainFrom(s, st)
    requires (st.HostStart? && pst.NeedAlnum?) || (st.Host? && pst.InAlnum?) || (st.HostDash? && pst.Dashes?)
    requires '.' !in s && ':' !in s && forall c :: c in s ==> !Upper(c)
    ensures PathFrom(s, pst)
    decreases |s|
  {
    if s != "" {
      assert s[0] in s;
      assert forall c :: c in s[1..] ==> c in s;
      if s[0] == '-' {
        HostIsPathComponent(s[1..], HostDash, Dashes);
      } else {
        HostIsPathComponent(s[1..], Host, InAlnum);
      }
    }
  }

  lemma DefaultServerIsDomain()
    ensures IsDomain(DEFAULT_SERVER)
  {
    HostRun("o", "");
    assert "o" + "" == "o" == "io"[1..];
    assert DomainFrom("io", HostStart);
    assert ".io"[1..] == "io";
    HostRun("ocker", ".io");
    assert DEFAULT_SERVER[1..] == "ocker" + ".io";
  }

  lemma DefaultServerIsDomainLike()
    ensures IsDomainLike(DEFAULT_SERVER) && '/' !in DEFAULT_SERVER && '@' !in DEFAULT_SERVER
  {
    assert DEFAULT_SERVER[6] == '.';
  }

  lemma DefaultNamespaceIsPathComponent()
    ensures IsPathComponent(DEFAULT_REPOSITORY_NAMESPACE) && '/' !in DEFAULT_REPOSITORY_NAMESPACE
  {
    PathRun("ibrary");
    assert DEFAULT_REPOSITORY_NAMESPACE[1..] == "ibrary";
  }

  lemma DefaultTagIsTag()
    ensures IsTag(DEFAULT_TAG) && !HasDotDot(DEFAULT_TAG)
  {
    forall i: nat | i + 1 < |DEFAULT_TAG|
      ensures !DotDotAt(DEFAULT_TAG, i)
    {
      assert DEFAULT_TAG[i] in DEFAULT_TAG;
    }
  }

  lemma {:induction false} HostRun(a: string, rest: string)
    requires DomainFrom(rest, Host) && forall c :: c in a ==> Alnum(c)
    ensures DomainFrom(a + rest, Host)
  {
    if a == "" {
      assert a + rest == rest;
    } else {
      HostRun(a[1..], rest);
      assert (a + rest)[1..] == a[1..] + rest;
    }
  }

  lemma {:induction false} PathRun(a: string)
    requires forall c :: c in a ==> LowerAlnum(c)
    ensures PathFrom(a, InAlnum)
  {
    if a != "" {
      PathRun(a[1..]);
    }
  }

  /** A name that holds a separator is a server or first component, then a remote name. */
  lemma NameWithServer(server: string, rest: string)
    requires '/' !in server
    ensures IsName(server + "/" + rest) <==> IsRemoteName(rest) && (IsPathComponent(server) || IsDomain(server))
  {
    var full := server + "/" + rest;
    FirstSeparator(server, rest, '/');
    assert full[..|server|] == server && full[|server| + 1..] == rest;
    JoinComponents(server, rest);
  }

  lemma PrintedNameParses(server: string, ns: string, image: string)
    requires '/' !in server && IsDomainLike(server) && '/' !in image
    ensures ParseName(server + "/" + ns + "/" + image) == (server, ns, image)
  {
    var rest := ns + "/" + image;
    var full := server + "/" + ns + "/" + image;
    assert full == server + "/" + rest;
    FirstSeparator(server, rest, '/');
    assert full[..|server|] == server && full[|server| + 1..] == rest;
    PrintedRemainderSplits(ns, image);
  }

  lemma PrintedRemainderSplits(ns: string, image: string)
    requires '/' !in image
    ensures SplitRemainder(ns + "/" + image) == (ns, image)
  {
    var rest := ns + "/" + image;
    LastSeparator(ns, image, '/');
    assert rest[..|ns|] == ns && rest[|ns| + 1..] == image;
  }

  /** Namespace and image hold no separator that belongs to another part of a reference. */
  predicate PlainRemainder(ns: string, image: string) {
    '/' !in image && ':' !in ns && ':' !in image && '@' !in ns && '@' !in image
  }

  lemma ParsedRemainder(rest: string)
    requires IsRemoteName(rest)
    ensures var (ns, image) := SplitRemainder(rest);
      && PlainRemainder(ns, image)
      && (IsRemoteName(ns + "/" + image) <==> ns != "" && '[' !in ns)
  {
    var (ns, image) := SplitRemainder(rest);
    RemoteNameUnmarked(rest);
    if '/' in rest {
      assert rest == ns + "/" + image;
      UnmarkedParts(ns, image);
    }
    if ns == "" {
      JoinComponents(ns, image);
    }
  }

  lemma FirstIsPathComponent(first: string)
    requires IsPathComponent(first) || IsDomain(first)
    requires !IsDomainLike(first) && '[' !in first
    ensures IsPathComponent(first)
  {
    if IsDomain(first) {
      HostIsPathComponent(first, HostStart, NeedAlnum);
    }
  }

  lemma FirstChars(first: string)
    requires IsPathComponent(first) || IsDomain(first)
    ensures first != "" && '@' !in first
  {
    if IsPathComponent(first) {
      PathChars(first, NeedAlnum);
    } else if first[0] == '[' {
      DomainChars(first[1..], BracketOpen);
      assert first == ['['] + first[1..];
    } else {
      DomainChars(first, HostStart);
    }
  }

  /** The split at the last separator of a name that has one. */
  lemma SplitName(first: string, rest: string)
    requires '/' !in first
    ensures var (ns, image) := SplitRemainder(first + "/" + rest);
      && first + "/" + rest == ns + "/" + image
      && '/' !in image && first <= ns
  {
    var name := first + "/" + rest;
    assert name[|first|] == '/';
  }

  lemma MarksOfName(first: string, rest: string, ns: string, image: string)
    requires ':' !in first && '@' !in first && Unmarked(rest)
    requires first + "/" + rest == ns + "/" + image
    ensures ':' !in ns && '@' !in ns && ':' !in image && '@' !in image
  {
    var name := first + "/" + rest;
    assert forall c :: c in name <==> c in first || c == '/' || c in rest;
    assert forall c :: c in ns + "/" + image <==> c in ns || c == '/' || c in image;
  }

  lemma FirstComponentName(first: string, rest: string, ns: string, image: string)
    requires '/' !in first && IsRemoteName(rest) && (IsPathComponent(first) || IsDomain(first)) && !IsDomainLike(first)
    requires first + "/" + rest == ns + "/" + image && first <= ns
    ensures IsRemoteName(ns + "/" + image) <==> ns != "" && '[' !in ns
  {
    JoinComponents(first, rest);
    FirstChars(first);
    if '[' in ns {
      if IsRemoteName(ns + "/" + image) {
        RemoteNameUnmarked(ns + "/" + image);
        UnmarkedParts(ns, image);
      }
    } else {
      FirstIsPathComponent(first);
    }
  }

  lemma ParsedFirstComponent(first: string, rest: string)
    requires '/' !in first && IsRemoteName(rest) && (IsPathComponent(first) || IsDomain(first)) && !IsDomainLike(first)
    ensures var (ns, image) := SplitRemainder(first + "/" + rest);
      && PlainRemainder(ns, image)
      && (IsRemoteName(ns + "/" + image) <==> ns != "" && '[' !in ns)
  {
    var (ns, image) := SplitRemainder(first + "/" + rest);
    SplitName(first, rest);
    FirstChars(first);
    RemoteNameUnmarked(rest);
    MarksOfName(first, rest, ns, image);
    FirstComponentName(first, rest, ns, image);
  }

  /** What parsing a name establishes about its parts. */
  lemma ParsedName(name: string)
    requires IsName(name)
    ensures var (server, ns, image) := ParseName(name);
      && '/' !in server && '@' !in server && PlainRemainder(ns, image)
      && IsDomainLike(server) && (IsPathComponent(server) || IsDomain(server))
      && (IsRemoteName(ns + "/" + image) <==> ns != "" && '[' !in ns)
  {
    var i := IndexOf(name, '/');
    if i == |name| {
      DefaultServerIsDomain();
      DefaultServerIsDomainLike();
      ParsedShortName(name);
    } else {
      var first, rest := name[..i], name[i + 1..];
      assert name == first + "/" + rest;
      NameWithServer(first, rest);
      if IsDomainLike(first) {
        FirstChars(first);
        ParsedRemainder(rest);
      } else {
        DefaultServerIsDomain();
        DefaultServerIsDomainLike();
        ParsedFirstComponent(first, rest);
      }
    }
  }

  lemma ParsedShortName(name: string)
    requires IsRemoteName(name) && '/' !in name
    ensures PlainRemainder(DEFAULT_REPOSITORY_NAMESPACE, name)
    ensures IsRemoteName(DEFAULT_REPOSITORY_NAMESPACE + "/" + name) && '[' !in DEFAULT_REPOSITORY_NAMESPACE
  {
    DefaultNamespaceIsPathComponent();
    PathComponentUnmarked(DEFAULT_REPOSITORY_NAMESPACE);
    RemoteNameUnmarked(name);
    JoinComponents(DEFAULT_REPOSITORY_NAMESPACE, name);
  }

  lemma DotDotAcross(a: string, c: char, b: string)
    requires c != '.' && !HasDotDot(a) && !HasDotDot(b)
    ensures !HasDotDot(a + [c] + b)
  {
    var s := a + [c] + b;
    forall i: nat | i + 1 < |s|
      ensures !DotDotAt(s, i)
    {
      if i + 1 < |a| {
        assert !DotDotAt(a, i);
      } else if i > |a| {
        assert !DotDotAt(b, i - |a| - 1);
      }
    }
  }

  lemma DotDotAcrossSuffix(a: string, mark: char, b: string)
    requires mark != '.' && !HasDotDot(a) && !HasDotDot(b)
    ensures !HasDotDot(a + Suffix(mark, b))
  {
    if b == "" {
      assert a + Suffix(mark, b) == a;
    } else {
      DotDotAcross(a, mark, b);
      assert a + Suffix(mark, b) == a + [mark] + b;
    }
  }

  lemma DotDotInside(s: string, k: nat)
    requires k <= |s| && !HasDotDot(s)
    ensures !HasDotDot(s[..k]) && !HasDotDot(s[k..])
  {
    forall i: nat | i + 1 < k
      ensures !DotDotAt(s[..k], i)
    {
      assert !DotDotAt(s, i);
    }
    forall i: nat | k + i + 1 < |s|
      ensures !DotDotAt(s[k..], i)
    {
      assert !DotDotAt(s, k + i);
    }
  }

  lemma RemainderHasNoDotDot(remainder: string)
    requires !HasDotDot(remainder)
    ensures var (ns, image) := SplitRemainder(remainder); !HasDotDot(ns) && !HasDotDot(image)
  {
    var last := LastIndexOf(remainder, '/');
    if last.Some? {
      DotDotInside(remainder, last.value);
      DotDotInside(remainder, last.value + 1);
    }
  }

  lemma NamePartsHaveNoDotDot(name: string)
    requires !HasDotDot(name)
    ensures var (server, ns, image) := ParseName(name); !HasDotDot(server) && !HasDotDot(ns) && !HasDotDot(image)
  {
    var i := IndexOf(name, '/');
    if i < |name| {
      DotDotInside(name, i);
      DotDotInside(name, i + 1);
      RemainderHasNoDotDot(if IsDomainLike(name[..i]) then name[i + 1..] else name);
    }
  }

  lemma SuffixHasNoDotDot(a: string, mark: char, b: string)
    requires !HasDotDot(a + Suffix(mark, b))
    ensures !HasDotDot(a) && !HasDotDot(b)
  {
    var s := a + Suffix(mark, b);
    DotDotInside(s, |a|);
    assert s[..|a|] == a;
    DotDotInside(s, |s| - |b|);
    assert s[|s| - |b|..] == b;
  }

  lemma MatchPartsHaveNoDotDot(name: string, tag: string, digest: string)
    requires !HasDotDot(name + Suffix(':', tag) + Suffix('@', digest))
    ensures !HasDotDot(name) && !HasDotDot(tag) && !HasDotDot(digest)
  {
    SuffixHasNoDotDot(name + Suffix(':', tag), '@', digest);
    SuffixHasNoDotDot(name, ':', tag);
  }

  /** Printing a parsed reference introduces no "..". */
  lemma PrintedHasNoDotDot(name: string, tag: string, digest: string)
    requires !HasDotDot(name + Suffix(':', tag) + Suffix('@', digest))
    ensures !HasDotDot(Print(FromMatch(name, tag, digest)))
  {
    var r := FromMatch(name, tag, digest);
    DefaultTagIsTag();
    MatchPartsHaveNoDotDot(name, tag, digest);
    NamePartsHaveNoDotDot(name);
    DotDotAcross(r.server, '/', r.repositoryNamespace);
    DotDotAcross(r.server + "/" + r.repositoryNamespace, '/', r.image);
    DotDotAcrossSuffix(FullName(r), ':', r.tag);
    DotDotAcrossSuffix(FullName(r) + Suffix(':', r.tag), '@', r.digest);
  }

  lemma PrintedFullName(r: Reference)
    requires '/' !in r.server && '@' !in r.server && PlainRemainder(r.repositoryNamespace, r.image)
    requires IsPathComponent(r.server) || IsDomain(r.server)
    ensures '@' !in FullName(r) && CutTag(FullName(r)) == (FullName(r), "")
    ensures IsName(FullName(r)) <==> IsRemoteName(r.repositoryNamespace + "/" + r.image)
  {
    var rest := r.repositoryNamespace + "/" + r.image;
    assert FullName(r) == r.server + "/" + rest;
    SlashAfterColon(r.server, rest);
    NameWithServer(r.server, rest);
  }

  /** A printed reference reads back as itself as soon as namespace and image fit the grammar. */
  lemma PrintedParses(r: Reference)
    requires '/' !in r.server && '@' !in r.server && IsDomainLike(r.server) && PlainRemainder(r.repositoryNamespace, r.image)
    requires IsPathComponent(r.server) || IsDomain(r.server)
    requires (r.tag == "" || IsTag(r.tag)) && (r.digest == "" || IsDigest(r.digest)) && (r.tag != "" || r.digest != "")
    requires !HasDotDot(Print(r))
    ensures Parse(Print(r)) == Success(r) <==> IsRemoteName(r.repositoryNamespace + "/" + r.image)
  {
    PrintedFullName(r);
    CutPrinted(FullName(r), r.tag, r.digest);
    PrintedNameParses(r.server, r.repositoryNamespace, r.image);
    assert FromMatch(FullName(r), r.tag, r.digest) == r;
  }

  /**
  Reading a printed reference gives it back exactly when its namespace is not empty and
  is not a bracketed host that was taken for a namespace.
   */
  lemma RoundTrip(input: string)
    requires Parse(input).Success?
    ensures var r := Parse(input).value;
      Parse(Print(r)) == Success(r) <==> r.repositoryNamespace != "" && '[' !in r.repositoryNamespace
  {
    var (name, tag, digest) := Cut(input);
    PrintedHasNoDotDot(name, tag, digest);
    RoundTripOfMatch(name, tag, digest);
  }

  lemma RoundTripOfMatch(name: string, tag: string, digest: string)
    requires IsName(name) && (tag == "" || IsTag(tag)) && (digest == "" || IsDigest(digest))
    requires !HasDotDot(Print(FromMatch(name, tag, digest)))
    ensures var r := FromMatch(name, tag, digest);
      Parse(Print(r)) == Success(r) <==> r.repositoryNamespace != "" && '[' !in r.repositoryNamespace
  {
    ParsedName(name);
    DefaultTagIsTag();
    PrintedParses(FromMatch(name, tag, digest));
  }

  // ---------------------------------------------------------------- the parts come from the input

  /**
  How a name spells a server, a namespace and an image: the image alone; a namespace and an image, if what
  comes before the first '/' cannot be a server; or the server, the namespace if there is one, and the image.
   */
  predicate Spells(name: string, server: string, ns: string, image: string) {
    && '/' !in image
    && (if '/' !in name then server == "docker.io" && ns == "library" && image == name
        else if !IsDomainLike(name[..IndexOf(name, '/')]) then server == "docker.io" && name == ns + "/" + image
        else server == name[..IndexOf(name, '/')] && name == server + "/" + (if ns == "" then "" else ns + "/") + image)
  }

  /** Parsing a name neither adds nor loses text, except for the defaults. */
  lemma NameIsSpelled(name: string)
    requires IsName(name)
    ensures var (server, ns, image) := ParseName(name); Spells(name, server, ns, image)
  {
    var i := IndexOf(name, '/');
    if i < |name| {
      var first, rest := name[..i], name[i + 1..];
      assert '/' in name && name == first + "/" + rest;
      NameWithServer(first, rest);
      if IsDomainLike(first) {
        ServerIsSpelled(first, rest);
      } else {
        SplitName(first, rest);
      }
    } else {
      assert '/' !in name;
    }
  }

  lemma ServerIsSpelled(server: string, rest: string)
    requires IsRemoteName(rest)
    ensures var (ns, image) := SplitRemainder(rest);
      '/' !in image && server + "/" + rest == server + "/" + (if ns == "" then "" else ns + "/") + image
  {
    var (ns, image) := SplitRemainder(rest);
    ParsedRemainder(rest);
    if LastIndexOf(rest, '/').Some? {
      assert rest == ns + "/" + image;
    } else {
      assert ns == "" && image == rest;
    }
  }

  /** What comes before the first '/' is a server exactly if it has a dot, a colon or a capital letter, or is one of two words. */
  lemma ServerIsRecognised(first: string, rest: string)
    requires '/' !in first
    ensures ParseName(first + "/" + rest).0 ==
      if '.' in first || ':' in first || first == "localhost" || first == "load" || (exists c :: c in first && 'A' <= c <= 'Z')
      then first else "docker.io"
  {
    var name := first + "/" + rest;
    FirstSeparator(first, rest, '/');
    assert name[..|first|] == first;
    assert IsDomainLike(first) <==>
      '.' in first || ':' in first || first == "localhost" || first == "load" || exists c :: c in first && 'A' <= c <= 'Z' by {
      assert forall c :: Upper(c) <==> 'A' <= c <= 'Z';
    }
  }

  /** The input is a name that spells the parts, a tag, which is "latest" if neither tag nor digest is given, and the digest. */
  ghost predicate ReadsAs(input: string, r: Reference, name: string, tag: string) {
    && Spells(name, r.server, r.repositoryNamespace, r.image)
    && input == name + Suffix(':', tag) + Suffix('@', r.digest)
    && r.tag == if tag == "" && r.digest == "" then "latest" else tag
  }

  lemma ParseKeepsTheText(input: string) returns (name: string, tag: string)
    requires Parse(input).Success?
    ensures ReadsAs(input, Parse(input).value, name, tag)
  {
    var (n, t, d) := Cut(input);
    name, tag := n, t;
    NameIsSpelled(name);
  }

  /** Two dots in a row are refused anywhere. */
  lemma DotDotIsRefused(a: string, b: string)
    ensures Parse(a + ".." + b) == Failure(DotDot)
  {
    var input := a + ".." + b;
    assert DotDotAt(input, |a|);
  }

  // ---------------------------------------------------------------- references that do not read back

  /** A word of lower-case letters and digits, as most image names are. */
  predicate IsWord(s: string) { s != "" && forall c :: c in s ==> LowerAlnum(c) }

  lemma WordIsName(s: string)
    requires IsWord(s)
    ensures IsPathComponent(s) && IsRemoteName(s) && '/' !in s && ':' !in s && '@' !in s && '.' !in s
  {
    assert s[0] in s;
    PathRun(s[1..]);
    PathChars(s, NeedAlnum);
    SplitFree(s, '/');
  }

  /** An input without ".", ":" and "@" is cut into itself, without tag and digest. */
  lemma PlainInput(input: string)
    requires '.' !in input && ':' !in input && '@' !in input && IsName(input)
    ensures Parse(input) == Success(FromMatch(input, "", ""))
  {
    assert CutDigest(input) == (input, "") && CutTag(input) == (input, "");
    assert input + Suffix(':', "") + Suffix('@', "") == input;
  }

  /** "ubuntu" is docker.io/library/ubuntu:latest, and so for every word. */
  lemma WordParses(name: string)
    requires IsWord(name)
    ensures Parse(name) == Success(Reference("docker.io", "library", name, "latest", ""))
  {
    WordIsName(name);
    PlainInput(name);
    assert IndexOf(name, '/') == |name|;
  }

  /** "user/img" is docker.io/user/img:latest, unless the user could be a server. */
  lemma UserAndImage(user: string, image: string)
    requires IsWord(user) && IsWord(image) && user != "localhost" && user != "load"
    ensures Parse(user + "/" + image) == Success(Reference("docker.io", user, image, "latest", ""))
  {
    var input := user + "/" + image;
    WordIsName(user);
    WordIsName(image);
    NameWithServer(user, image);
    WordIsNoServer(user);
    PlainInput(input);
    UserNameParts(user, image);
  }

  lemma WordIsNoServer(s: string)
    requires IsWord(s) && s != "localhost" && s != "load"
    ensures !IsDomainLike(s)
  {
    WordIsName(s);
  }

  lemma UserNameParts(user: string, image: string)
    requires '/' !in user && '/' !in image && !IsDomainLike(user)
    ensures ParseName(user + "/" + image) == ("docker.io", user, image)
  {
    var name := user + "/" + image;
    FirstSeparator(user, image, '/');
    LastSeparator(user, image, '/');
    assert name[..|user|] == user && name[|user| + 1..] == image;
  }

  lemma ServerAndImage(server: string, image: string)
    requires IsWord(server) && IsDomainLike(server) && IsWord(image)
    ensures Parse(server + "/" + image) == Success(Reference(server, "", image, DEFAULT_TAG, ""))
  {
    var input := server + "/" + image;
    WordIsName(server);
    WordIsName(image);
    NameWithServer(server, image);
    FirstSeparator(server, image, '/');
    assert input[..|server|] == server && input[|server| + 1..] == image;
    PlainInput(input);
    assert LastIndexOf(image, '/') == None;
  }

  /** An image right below a server has no namespace, so "localhost/img" does not read back. */
  lemma NoNamespaceDoesNotReadBack(image: string)
    requires IsWord(image)
    ensures var input, r := "localhost/" + image, Reference("localhost", "", image, DEFAULT_TAG, "");
      Parse(input) == Success(r) && Parse(Print(r)) != Success(r)
  {
    var server := "localhost";
    var input := server + "/" + image;
    assert input == "localhost/" + image;
    ServerAndImage(server, image);
    RoundTrip(input);
  }

  /** A bracketed host without port is taken for a namespace, so "[ab]/img" does not read back. */
  lemma BracketDoesNotReadBack(image: string)
    requires IsWord(image)
    ensures var input, r := "[ab]/" + image, Reference(DEFAULT_SERVER, "[ab]", image, DEFAULT_TAG, "");
      Parse(input) == Success(r) && Parse(Print(r)) != Success(r)
  {
    var input := "[ab]/" + image;
    var host := "[ab]";
    WordIsName(image);
    assert input == host + "/" + image;
    FirstSeparator(host, image, '/');
    LastSeparator(host, image, '/');
    assert input[..|host|] == host && input[|host| + 1..] == image;
    BracketIsDomain();
    PlainInput(input);
    RoundTrip(input);
  }

  lemma BracketIsDomain()
    ensures IsDomain("[ab]") && !IsDomainLike("[ab]")
  {
    var s := "[ab]";
    assert s[1..] == "ab]" && "ab]"[1..] == "b]" && "b]"[1..] == "]" && "]"[1..] == "";
    assert DomainFrom("", BracketClosed);
    assert DomainFrom("]", Bracket);
    assert DomainFrom("b]", Bracket);
    assert DomainFrom("ab]", BracketOpen);
    assert |s| != |"localhost"| && s[0] != "load"[0];
    assert forall c :: c in s ==> c == '[' || c == 'a' || c == 'b' || c == ']';
  }

  // ---------------------------------------------------------------- the storage key

  /** What the grammar guarantees about the parts that make up a key. */
  predicate WellFormed(r: Reference) {
    && '/' !in r.server && '/' !in r.image && '/' !in r.tag
    && (r.digest == "" || IsDigest(r.digest))
  }

  lemma ParsedIsWellFormed(input: string)
    requires Parse(input).Success?
    ensures WellFormed(Parse(input).value) && UniqueKey(Parse(input).value).Success?
  {
    var (name, tag, digest) := Cut(input);
    ParsedName(name);
    if tag != "" {
      TagShape(tag);
    }
    DefaultTagIsTag();
    TagShape(DEFAULT_TAG);
  }

  /** The last part of a key: the tag, or else the digest with its colon replaced. */
  function Label(r: Reference): string {
    if r.tag != "" then r.tag else Dashed(r.digest)
  }

  lemma {:induction false} AlgorithmChars(s: string)
    requires AlgorithmRest(s)
    ensures '/' !in s
    decreases |s|
  {
    if s != "" {
      if Alnum(s[0]) {
        AlgorithmChars(s[1..]);
        assert s == [s[0]] + s[1..];
      } else {
        AlgorithmChars(s[2..]);
        assert s == [s[0], s[1]] + s[2..];
      }
    }
  }

  lemma DashedHex(s: string)
    requires forall c :: c in s ==> Hex(c)
    ensures Dashed(s) == s && '-' !in s && '/' !in s
  {
    forall k | 0 <= k < |s|
      ensures Dashed(s)[k] == s[k]
    {
      assert s[k] in s;
    }
  }

  lemma DashedConcat(a: string, b: string)
    requires ':' !in a
    ensures Dashed(a + ":" + b) == a + "-" + Dashed(b)
  {
    forall k | 0 <= k < |a|
      ensures Dashed(a)[k] == a[k]
    {
      assert a[k] in a;
    }
    assert Dashed(a) == a;
    assert Dashed(a + ":" + b) == Dashed(a) + "-" + Dashed(b);
  }

  /** A dashed digest still shows where its colon was: at the last dash. */
  lemma DashedDigest(d: string) returns (algorithm: string, hex: string)
    requires IsDigest(d)
    ensures d == algorithm + ":" + hex && Dashed(d) == algorithm + "-" + hex
    ensures '-' !in hex && '/' !in hex && '/' !in algorithm
  {
    var i := IndexOf(d, ':');
    algorithm, hex := d[..i], d[i + 1..];
    assert d == algorithm + ":" + hex;
    DashedHex(hex);
    DashedConcat(algorithm, hex);
    AlgorithmChars(algorithm[1..]);
    assert algorithm == [algorithm[0]] + algorithm[1..];
  }

  lemma DashedInjective(d: string, e: string)
    requires IsDigest(d) && IsDigest(e) && Dashed(d) == Dashed(e)
    ensures d == e
  {
    var a, h := DashedDigest(d);
    var b, k := DashedDigest(e);
    LastSeparatorUnique(a, h, b, k, '-');
  }

  lemma LabelHasNoSlash(r: Reference)
    requires WellFormed(r) && (r.tag != "" || r.digest != "")
    ensures '/' !in Label(r)
  {
    if r.tag == "" {
      var algorithm, hex := DashedDigest(r.digest);
    }
  }

  lemma KeyPartsUnique(a: Reference, b: Reference)
    requires '/' !in a.server && '/' !in a.image && '/' !in Label(a)
    requires '/' !in b.server && '/' !in b.image && '/' !in Label(b)
    requires FullName(a) + "/" + Label(a) == FullName(b) + "/" + Label(b)
    ensures a.server == b.server && a.repositoryNamespace == b.repositoryNamespace && a.image == b.image && Label(a) == Label(b)
  {
    LastSeparatorUnique(FullName(a), Label(a), FullName(b), Label(b), '/');
    LastSeparatorUnique(a.server + "/" + a.repositoryNamespace, a.image, b.server + "/" + b.repositoryNamespace, b.image, '/');
    FirstSeparatorUnique(a.server, a.repositoryNamespace, b.server, b.repositoryNamespace, '/');
  }

  /**
  Two well-formed references share a key exactly when they name the same image under the same
  label.  Two tagged references then have the same tag, and two digest-only references are equal;
  a tagged one shares the key of a digest-only one just when the tag spells the dashed digest.
   */
  lemma KeysEqualIff(a: Reference, b: Reference)
    requires WellFormed(a) && WellFormed(b)
    requires (a.tag != "" || a.digest != "") && (b.tag != "" || b.digest != "")
    ensures UniqueKey(a) == UniqueKey(b) <==>
            && a.server == b.server && a.repositoryNamespace == b.repositoryNamespace && a.image == b.image
            && (if a.tag != "" && b.tag != "" then a.tag == b.tag
                else if a.tag == "" && b.tag == "" then a.digest == b.digest
                else if a.tag != "" then a.tag == Dashed(b.digest)
                else b.tag == Dashed(a.digest))
  {
    LabelHasNoSlash(a);
    LabelHasNoSlash(b);
    if UniqueKey(a) == UniqueKey(b) {
      KeyPartsUnique(a, b);
      if a.tag == "" && b.tag == "" {
        DashedInjective(a.digest, b.digest);
      }
    }
  }
}
