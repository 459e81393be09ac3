/**
The grammar of image references in the words of its regular expressions, against the machines that
module ImageReference recognises it with.
 */
module ReferenceGrammar {
  import opened Text
  import opened ImageReference

  // ---------------------------------------------------------------- path components

  predicate AllLowerAlnum(s: string) { forall c :: c in s ==> 'a' <= c <= 'z' || '0' <= c <= '9' }

  predicate AllDashes(s: string) { forall c :: c in s ==> c == '-' }

  /** One dot, one or two underscores, or any number of dashes. */
  predicate IsSeparator(s: string) { s == "." || s == "_" || s == "__" || (s != "" && AllDashes(s)) }

  /** A separator and another word at the beginning. */
  ghost predicate WordsFollow(s: string)
    decreases |s|, 0
  {
    exists m: nat :: 0 < m < |s| && IsSeparator(s[..m]) && IsSeparatedWords(s[m..])
  }

  /** The first k characters are lower-case letters and digits, and nothing or a separator and another such word follows. */
  ghost predicate WordEndsAt(s: string, k: nat)
    decreases |s|, 1
  {
    k <= |s| && AllLowerAlnum(s[..k]) && (k == |s| || WordsFollow(s[k..]))
  }

  /** Words of lower-case letters and digits with separators between them. */
  ghost predicate IsSeparatedWords(s: string)
    decreases |s|, 2
  {
    exists k: nat :: 0 < k && WordEndsAt(s, k)
  }

  /** The characters of a text are its first one and those of the rest. */
  lemma FirstAndRest(s: string)
    requires s != ""
    ensures s[0] in s && forall c :: c in s <==> c == s[0] || c in s[1..]
  {
    assert s == [s[0]] + s[1..];
  }

  lemma ShiftWord(s: string, k: nat)
    requires s != ""
    ensures LowerAlnum(s[0]) && WordEndsAt(s[1..], k) <==> WordEndsAt(s, k + 1)
  {
    if k + 1 <= |s| {
      var run := s[..k + 1];
      assert run[0] == s[0] && run[1..] == s[1..][..k];
      FirstAndRest(run);
      assert s[k + 1..] == s[1..][k..];
    }
  }

  lemma {:induction false} DashRun(s: string) returns (m: nat)
    requires PathFrom(s, Dashes)
    ensures m < |s| && AllDashes(s[..m]) && PathFrom(s[m..], NeedAlnum)
  {
    if LowerAlnum(s[0]) {
      m := 0;
      assert s[0..] == s;
    } else {
      var n := DashRun(s[1..]);
      m := n + 1;
      var run := s[..m];
      assert run[0] == s[0] && run[1..] == s[1..][..n] && s[m..] == s[1..][n..];
      FirstAndRest(run);
    }
  }

  lemma SeparatorEnds(s: string) returns (m: nat)
    requires s != "" && !LowerAlnum(s[0]) && PathFrom(s, InAlnum)
    ensures 0 < m < |s| && IsSeparator(s[..m]) && PathFrom(s[m..], NeedAlnum)
  {
    if s[0] == '.' {
      m := 1;
      assert s[..1] == ".";
      FirstIsAlnum(s[1..]);
    } else if s[0] == '_' {
      OneUnderscoreThen(s[1..]);
      if LowerAlnum(s[1]) {
        m := 1;
        assert s[..1] == "_";
      } else {
        m := 2;
        assert s[..2] == "__" && s[1..][1..] == s[2..];
        FirstIsAlnum(s[2..]);
      }
    } else {
      var n := DashRun(s[1..]);
      m := n + 1;
      var run := s[..m];
      assert run[0] == s[0] && run[1..] == s[1..][..n] && s[m..] == s[1..][n..];
      FirstAndRest(run);
    }
  }

  lemma {:induction false} FromInAlnum(s: string) returns (k: nat)
    requires PathFrom(s, InAlnum)
    ensures WordEndsAt(s, k)
    decreases |s|
  {
    k := 0;
    if s != "" {
      if LowerAlnum(s[0]) {
        var j := FromInAlnum(s[1..]);
        ShiftWord(s, j);
        k := j + 1;
      } else {
        var m := SeparatorEnds(s);
        FromNeedAlnum(s[m..]);
        assert s[0..] == s && WordsFollow(s);
      }
    }
  }

  lemma {:induction false} FromNeedAlnum(s: string)
    requires PathFrom(s, NeedAlnum)
    ensures IsSeparatedWords(s)
    decreases |s|
  {
    var j := FromInAlnum(s[1..]);
    ShiftWord(s, j);
    var k := j + 1;
    assert WordEndsAt(s, k);
  }

  lemma {:induction false} ThroughDashes(s: string, m: nat)
    requires m < |s| && AllDashes(s[..m]) && PathFrom(s[m..], NeedAlnum)
    ensures PathFrom(s, Dashes)
    decreases m
  {
    if m == 0 {
      assert s[0..] == s;
    } else {
      var run := s[..m];
      assert run[0] == s[0] && run[1..] == s[1..][..m - 1] && s[m..] == s[1..][m - 1..];
      FirstAndRest(run);
      ThroughDashes(s[1..], m - 1);
    }
  }

  lemma ThroughSeparator(s: string, m: nat)
    requires 0 < m < |s| && IsSeparator(s[..m]) && PathFrom(s[m..], NeedAlnum)
    ensures PathFrom(s, InAlnum)
  {
    var sep := s[..m];
    var rest := s[m..];
    FirstIsAlnum(rest);
    if sep == "." {
      assert m == 1 && s[0] == sep[0] == '.';
    } else if sep == "_" {
      assert m == 1 && s[0] == sep[0] == '_' && s[1..] == rest;
      OneUnderscoreThen(rest);
    } else if sep == "__" {
      assert m == 2 && s[0] == sep[0] == '_' && s[1..][0] == s[1] == sep[1] == '_' && s[1..][1..] == rest;
      OneUnderscoreThen(s[1..]);
    } else {
      FirstAndRest(sep);
      assert s[0] == sep[0] == '-';
      assert sep[1..] == s[1..][..m - 1] && rest == s[1..][m - 1..];
      ThroughDashes(s[1..], m - 1);
    }
  }

  lemma FirstIsAlnum(s: string)
    requires PathFrom(s, NeedAlnum)
    ensures s != "" && LowerAlnum(s[0])
  {
  }

  /** After one underscore comes another one or the next word. */
  lemma OneUnderscoreThen(s: string)
    ensures PathFrom(s, OneUnderscore) <==>
      s != "" && (if LowerAlnum(s[0]) then PathFrom(s, NeedAlnum) else s[0] == '_' && PathFrom(s[1..], NeedAlnum))
  {
  }

  lemma {:induction false} ToInAlnum(s: string, k: nat)
    requires WordEndsAt(s, k)
    ensures PathFrom(s, InAlnum)
    decreases |s|, k
  {
    if k > 0 {
      assert s[..k][0] == s[0];
      ShiftWord(s, k - 1);
      ToInAlnum(s[1..], k - 1);
    } else if s != "" {
      assert s[0..] == s;
      var m: nat :| 0 < m < |s| && IsSeparator(s[..m]) && IsSeparatedWords(s[m..]);
      ToNeedAlnum(s[m..]);
      ThroughSeparator(s, m);
    }
  }

  lemma {:induction false} ToNeedAlnum(s: string)
    requires IsSeparatedWords(s)
    ensures PathFrom(s, NeedAlnum)
    decreases |s|
  {
    var k: nat :| 0 < k && WordEndsAt(s, k);
    assert s[..k][0] == s[0];
    ShiftWord(s, k - 1);
    ToInAlnum(s[1..], k - 1);
  }

  /** The machine for path components accepts exactly separated words. */
  lemma PathComponentIff(s: string)
    ensures IsPathComponent(s) <==> IsSeparatedWords(s)
  {
    if IsPathComponent(s) {
      FromNeedAlnum(s);
    }
    if IsSeparatedWords(s) {
      ToNeedAlnum(s);
    }
  }

  // ---------------------------------------------------------------- domains

  predicate IsAlnum(c: char) { 'a' <= c <= 'z' || 'A' <= c <= 'Z' || '0' <= c <= '9' }

  predicate AllHostChars(s: string) { forall c :: c in s ==> IsAlnum(c) || c == '-' }

  predicate AllDigits(s: string) { forall c :: c in s ==> '0' <= c <= '9' }

  /** Letters, digits and dashes that neither start nor end with a dash. */
  predicate IsHostPart(s: string) { s != "" && AllHostChars(s) && s[0] != '-' && s[|s| - 1] != '-' }

  /** Nothing, or a colon and digits. */
  predicate IsPort(s: string) { s == "" || (s[0] == ':' && |s| > 1 && AllDigits(s[1..])) }

  predicate AllHostParts(parts: seq<string>) { forall p :: p in parts ==> IsHostPart(p) }

  predicate AllHexOrColon(s: string) {
    forall c :: c in s ==> '0' <= c <= '9' || 'a' <= c <= 'f' || 'A' <= c <= 'F' || c == ':'
  }

  /** Host parts with dots between them and perhaps a port, or an address in brackets and perhaps a port. */
  predicate IsHostAndPort(s: string) {
    if s != "" && s[0] == '[' then
      var j := IndexOf(s, ']');
      2 <= j < |s| && AllHexOrColon(s[1..j]) && IsPort(s[j + 1..])
    else
      var i := IndexOf(s, ':');
      AllHostParts(Split(s[..i], '.')) && IsPort(s[i..])
  }

  lemma {:induction false} PortStates(s: string)
    ensures DomainFrom(s, Port) <==> AllDigits(s)
    ensures DomainFrom(s, PortStart) <==> s != "" && AllDigits(s)
    ensures DomainFrom(s, BracketClosed) <==> IsPort(s)
    decreases |s|
  {
    if s != "" {
      PortStates(s[1..]);
      FirstAndRest(s);
    }
  }

  lemma {:induction false} BracketStates(s: string)
    ensures var j := IndexOf(s, ']'); DomainFrom(s, Bracket) <==> j < |s| && AllHexOrColon(s[..j]) && IsPort(s[j + 1..])
    decreases |s|
  {
    if s != "" {
      BracketStates(s[1..]);
      PortStates(s[1..]);
      var j := IndexOf(s, ']');
      if s[0] != ']' {
        var inner := s[..j];
        assert inner[0] == s[0] && inner[1..] == s[1..][..j - 1];
        FirstAndRest(inner);
        assert j < |s| ==> s[j + 1..] == s[1..][j..];
      } else {
        assert j == 0 && s[..0] == "";
      }
    }
  }

  /** What may follow the first letter or digit of a host part. */
  predicate IsHostTail(s: string) { AllHostChars(s) && (s == "" || s[|s| - 1] != '-') }

  /** The parts of a host name and the port in a text. */
  function Parts(s: string): (parts: seq<string>)
    ensures parts != []
  {
    Split(s[..IndexOf(s, ':')], '.')
  }

  predicate RestFits(s: string) { AllHostParts(Parts(s)[1..]) && IsPort(s[IndexOf(s, ':')..]) }

  /** One character of a host part in front. */
  lemma PartsGrow(s: string)
    requires s != "" && s[0] != '.' && s[0] != ':'
    ensures Parts(s) == [[s[0]] + Parts(s[1..])[0]] + Parts(s[1..])[1..]
    ensures RestFits(s) <==> RestFits(s[1..])
  {
    var i := IndexOf(s, ':');
    var host, rest := s[..i], s[1..][..i - 1];
    assert IndexOf(s[1..], ':') == i - 1 && s[i..] == s[1..][i - 1..];
    assert host == [s[0]] + rest;
    var j := IndexOf(rest, '.');
    assert IndexOf(host, '.') == j + 1 by {
      assert host[1..] == rest;
    }
    if j < |rest| {
      assert host[..j + 1] == [s[0]] + rest[..j] && host[j + 2..] == rest[j + 1..];
    }
  }

  /** A dot in front. */
  lemma PartsAfterDot(s: string)
    requires s != "" && s[0] == '.'
    ensures Parts(s) == [""] + Parts(s[1..])
    ensures RestFits(s) <==> IsHostPart(Parts(s[1..])[0]) && RestFits(s[1..])
  {
    var i := IndexOf(s, ':');
    var host := s[..i];
    assert IndexOf(s[1..], ':') == i - 1 && s[i..] == s[1..][i - 1..];
    assert host[0] == '.' && host[..0] == "" && host[1..] == s[1..][..i - 1];
    var parts := Parts(s[1..]);
    assert parts == [parts[0]] + parts[1..];
  }

  lemma {:induction false} HostStates(s: string)
    ensures DomainFrom(s, Host) <==> IsHostTail(Parts(s)[0]) && RestFits(s)
    ensures DomainFrom(s, HostDash) <==> Parts(s)[0] != "" && IsHostTail(Parts(s)[0]) && RestFits(s)
    ensures DomainFrom(s, HostStart) <==> IsHostPart(Parts(s)[0]) && RestFits(s)
    decreases |s|
  {
    if s == "" {
      assert Parts(s) == [""];
    } else if s[0] == ':' {
      PortStates(s[1..]);
      assert s[..0] == "" && Parts(s) == [""];
    } else if s[0] == '.' {
      HostStates(s[1..]);
      PartsAfterDot(s);
    } else {
      HostStates(s[1..]);
      PartsGrow(s);
      HostPartGrows(s[0], Parts(s[1..])[0]);
    }
  }

  lemma HostPartGrows(c: char, tail: string)
    ensures var part := [c] + tail;
      && (IsHostTail(part) <==> if c == '-' then tail != "" && IsHostTail(tail) else IsAlnum(c) && IsHostTail(tail))
      && (IsHostPart(part) <==> IsAlnum(c) && IsHostTail(tail))
  {
    var part := [c] + tail;
    assert part[0] == c && forall d :: d in part <==> d == c || d in tail;
    assert tail != "" ==> part[|part| - 1] == tail[|tail| - 1];
  }

  /** The machine for domains accepts exactly hosts with an optional port. */
  lemma DomainIff(s: string)
    ensures IsDomain(s) <==> IsHostAndPort(s)
  {
    if s != "" && s[0] == '[' {
      var j := IndexOf(s, ']');
      BracketStates(s[1..]);
      assert IndexOf(s[1..], ']') == j - 1;
      assert j < |s| ==> s[1..][..j - 1] == s[1..j] && s[1..][j..] == s[j + 1..];
      FirstInBrackets(s[1..]);
    } else {
      HostStates(s);
      var parts := Parts(s);
      assert parts == [parts[0]] + parts[1..];
    }
  }

  lemma FirstInBrackets(t: string)
    ensures DomainFrom(t, BracketOpen) <==> t != "" && t[0] != ']' && DomainFrom(t, Bracket)
  {
  }

  // ---------------------------------------------------------------- tags and digests

  /** A letter, digit or underscore, and up to 127 of these, dots and dashes. */
  lemma TagIff(first: char, rest: string)
    ensures IsTag([first] + rest) <==>
      && (IsAlnum(first) || first == '_') && |rest| <= 127
      && forall c :: c in rest ==> IsAlnum(c) || c == '_' || c == '.' || c == '-'
  {
    var tag := [first] + rest;
    assert tag[0] == first && forall c :: c in tag <==> c == first || c in rest;
  }

  /** An algorithm, a colon and at least 32 hexadecimal digits. */
  lemma DigestIff(algorithm: string, hex: string)
    requires ':' !in algorithm
    ensures IsDigest(algorithm + ":" + hex) <==>
      IsAlgorithm(algorithm) && |hex| >= 32 && AllHexDigits(hex)
  {
    var s := algorithm + ":" + hex;
    FirstSeparator(algorithm, hex, ':');
    var i := IndexOf(s, ':');
    assert s[..i] == algorithm && s[i + 1..] == hex;
    if AllHexDigits(hex) {
      assert forall c :: c in hex ==> Hex(c);
    } else {
      var c :| c in hex && !('0' <= c <= '9' || 'a' <= c <= 'f' || 'A' <= c <= 'F');
      assert c in s[i + 1..] && !Hex(c);
    }
  }

  predicate AllHexDigits(s: string) { forall c :: c in s ==> '0' <= c <= '9' || 'a' <= c <= 'f' || 'A' <= c <= 'F' }

  /** One of the marks in an algorithm. */
  predicate IsMark(c: char) { c == '-' || c == '_' || c == '+' || c == '.' }

  /** Letters and digits led by a letter, and nothing or a mark and another such word. */
  ghost predicate NameEndsAt(s: string, k: nat)
    decreases |s|, 0
  {
    && k <= |s| && (forall c :: c in s[..k] ==> IsAlnum(c))
    && (k == |s| || (IsMark(s[k]) && IsMarkedNames(s[k + 1..])))
  }

  ghost predicate IsMarkedNames(s: string)
    decreases |s|, 1
  {
    s != "" && ('a' <= s[0] <= 'z' || 'A' <= s[0] <= 'Z') && exists k: nat :: 0 < k && NameEndsAt(s, k)
  }

  lemma ShiftName(s: string, k: nat)
    requires s != ""
    ensures IsAlnum(s[0]) && NameEndsAt(s[1..], k) <==> NameEndsAt(s, k + 1)
  {
    if k + 1 <= |s| {
      var run := s[..k + 1];
      assert run[0] == s[0] && run[1..] == s[1..][..k];
      FirstAndRest(run);
      assert k + 1 < |s| ==> s[k + 2..] == s[1..][k + 1..];
    }
  }

  /** The recogniser for algorithms accepts exactly marked names. */
  lemma {:induction false} AlgorithmIff(s: string)
    ensures IsAlgorithm(s) <==> IsMarkedNames(s)
    decreases |s|, 1
  {
    if s != "" && Letter(s[0]) {
      AlgorithmRestIff(s[1..]);
      if k: nat :| NameEndsAt(s[1..], k) {
        ShiftName(s, k);
        var n := k + 1;
        assert NameEndsAt(s, n);
      }
      if n: nat :| 0 < n && NameEndsAt(s, n) {
        ShiftName(s, n - 1);
      }
    }
  }

  lemma {:induction false} AlgorithmRestIff(s: string)
    ensures AlgorithmRest(s) <==> exists k: nat :: NameEndsAt(s, k)
    decreases |s|, 1
  {
    if s == "" {
      assert NameEndsAt(s, 0);
    } else if Alnum(s[0]) {
      AlgorithmRestIff(s[1..]);
      if k: nat :| NameEndsAt(s[1..], k) {
        ShiftName(s, k);
        var n := k + 1;
        assert NameEndsAt(s, n);
      }
      if n: nat :| NameEndsAt(s, n) {
        if n > 0 {
          ShiftName(s, n - 1);
        }
      }
    } else {
      MarkIff(s);
    }
  }

  lemma {:induction false} MarkIff(s: string)
    requires s != "" && !Alnum(s[0])
    ensures AlgorithmRest(s) <==> exists k: nat :: NameEndsAt(s, k)
    decreases |s|, 0
  {
    AlgorithmIff(s[1..]);
    assert |s| > 1 ==> s[1..][0] == s[1] && s[1..][1..] == s[2..];
    assert s[..0] == "" && (NameEndsAt(s, 0) <==> IsMark(s[0]) && IsMarkedNames(s[1..]));
    assert AlgorithmRest(s) <==> IsMark(s[0]) && IsAlgorithm(s[1..]);
    if n: nat :| NameEndsAt(s, n) {
      if n > 0 {
        FirstAndRest(s[..n]);
      }
    }
  }
}
