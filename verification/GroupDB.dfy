/** The group database of the group file: reading, writing, and when reading gives back what was written. */
module GroupDB {
  import opened Wrappers
  import opened Text
  import opened Lines
  import Decimal

  datatype Entry = Entry(groupName: string, encryptedPassword: string, gid: Decimal.Id, users: seq<string>)

  datatype DbError = BadNumberOfTokens | BadNumber(number: Decimal.NumberError)

  function Tokens(e: Entry): seq<string> {
    [e.groupName, e.encryptedPassword, Decimal.ToString(e.gid as nat), Join(e.users, ',')]
  }

  function Line(e: Entry): string { Join(Tokens(e), ':') }

  function FromTokens(tokens: seq<string>): Result<Entry, DbError> {
    if |tokens| < 3 || |tokens| > 4 then Failure(BadNumberOfTokens)
    else
      var gid := Decimal.StoulToId(tokens[2]);
      if gid.Failure? then Failure(BadNumber(gid.error))
      else
        var users := if |tokens| > 3 && tokens[3] != "" then Split(tokens[3], ',') else [];
        Success(Entry(tokens[0], tokens[1], gid.value, users))
  }

  function ParseLine(line: string): Result<Entry, DbError> { FromTokens(Split(line, ':')) }

  class Database {
    var entries: seq<Entry>

    constructor ()
      ensures entries == []
    {
      entries := [];
    }

    /** Adds the entries of a file; after an error those of the lines before stay. */
    method Read(text: string) returns (error: Option<DbError>)
      modifies this
      ensures error.None? ==> ParseAll(ParseLine, GetLines(text)).Success? &&
                              entries == old(entries) + ParseAll(ParseLine, GetLines(text)).value
      ensures error.Some? ==>
                && ParseAll(ParseLine, GetLines(text)) == Failure(error.value)
                && old(entries) <= entries
                && exists k: nat :: FailsAt(ParseLine, GetLines(text), k, entries[|old(entries)|..], error.value)
    {
      var lines := GetLines(text);
      for i := 0 to |lines|
        invariant ParseAll(ParseLine, lines[..i]).Success? && entries == old(entries) + ParseAll(ParseLine, lines[..i]).value
      {
        ParseAllNext(ParseLine, lines, i);
        var entry := ParseLine(lines[i]);
        if entry.Failure? {
          assert FailsAt(ParseLine, lines, i, entries[|old(entries)|..], entry.error);
          FailedAt(ParseLine, lines, i, entries[|old(entries)|..], entry.error);
          return Some(entry.error);
        }
        entries := entries + [entry.value];
      }
      assert lines[..|lines|] == lines;
      return None;
    }

    method Write() returns (text: string)
      ensures text == Unlines(LinesOf(Line, entries))
    {
      text := "";
      for i := 0 to |entries|
        invariant text == Unlines(LinesOf(Line, entries[..i]))
      {
        var line := WriteEntry(entries[i]);
        text := text + line + "\n";
        LinesOfNext(Line, entries, i);
      }
      assert entries[..|entries|] == entries;
    }
  }

  method WriteEntry(e: Entry) returns (line: string)
    ensures line == Line(e)
  {
    ghost var t := Tokens(e);
    forall i | 0 < i < |t| ensures Join(t[..i + 1], ':') == Join(t[..i], ':') + ":" + t[i] { JoinNext(t, ':', i); }
    line := e.groupName + ":" + e.encryptedPassword;
    assert line == Join(t[..2], ':');
    line := line + ":" + Decimal.ToString(e.gid as nat);
    assert line == Join(t[..3], ':');
    line := line + ":" + Join(e.users, ',');
    assert line == Join(t[..4], ':') && t[..4] == t;
  }

  // ---------------------------------------------------------------- reading what was written

  /** The texts that a caller chooses. */
  function Texts(e: Entry): seq<string> { [e.groupName, e.encryptedPassword] + e.users }

  /** Neither name nor password nor any user name holds a separator, and the user list is not a single empty name. */
  predicate Plain(e: Entry) {
    FreeOf(Texts(e), ':') && FreeOf(Texts(e), '\n') && FreeOf(e.users, ',') && e.users != [""]
  }

  /** The tokens of a line are free of a separator exactly if the texts are. */
  lemma TokensFreeIff(e: Entry, d: char)
    requires d != ',' && !Decimal.IsDigit(d)
    ensures FreeOf(Tokens(e), d) <==> FreeOf(Texts(e), d)
  {
    JoinFreeIff(e.users, ',', d);
    var t, texts := Tokens(e), Texts(e);
    assert t[0] in t && t[1] in t && t[3] in t && texts[0] in texts && texts[1] in texts;
    assert forall u :: u in e.users ==> u in texts;
    assert forall u :: u in texts ==> u == texts[0] || u == texts[1] || u in e.users;
  }

  /** A separator in a user name is one in the joined list. */
  lemma {:induction false} JoinFreeIff(users: seq<string>, c: char, d: char)
    requires c != d
    ensures d !in Join(users, c) <==> FreeOf(users, d)
  {
    if FreeOf(users, d) {
      JoinFree(users, c, d);
    } else if |users| > 1 {
      JoinFreeIff(users[1..], c, d);
      assert users == [users[0]] + users[1..];
    } else {
      assert users == [users[0]];
    }
  }

  lemma UsersBack(users: seq<string>)
    requires FreeOf(users, ',') && users != [""]
    ensures (if Join(users, ',') != "" then Split(Join(users, ','), ',') else []) == users
  {
    if users != [] {
      SplitJoin(users, ',');
      if |users| == 1 {
        assert users == [users[0]];
      } else {
        assert |Join(users, ',')| >= 1;
      }
    }
  }

  lemma ParsePlain(e: Entry)
    requires Plain(e)
    ensures ParseLine(Line(e)) == Success(e)
  {
    TokensFreeIff(e, ':');
    SplitJoin(Tokens(e), ':');
    UsersBack(e.users);
    Decimal.StoulToIdOfToString(e.gid);
  }

  lemma ParsedUsers(token: string)
    requires ':' !in token && '\n' !in token && token != ""
    ensures var users := Split(token, ',');
      FreeOf(users, ',') && users != [""] && Join(users, ',') == token
  {
    JoinSplit(token, ',');
  }

  lemma ShortTokensBack(e: Entry)
    requires e.users == []
    ensures FromTokens(Tokens(e)[..3]) == Success(e)
  {
    Decimal.StoulToIdOfToString(e.gid);
  }

  /** A line may lack the field of the users. */
  lemma LastFieldIsOptional(e: Entry)
    requires Plain(e) && e.users == []
    ensures ParseLine(Join(Tokens(e)[..3], ':')) == Success(e)
  {
    var tokens := Tokens(e)[..3];
    TokensFreeIff(e, ':');
    assert FreeOf(tokens, ':');
    SplitJoin(tokens, ':');
    ShortTokensBack(e);
  }

  /** With fewer or more fields it is refused. */
  lemma FieldCountMatters(tokens: seq<string>)
    requires tokens != [] && FreeOf(tokens, ':')
    ensures ParseLine(Join(tokens, ':')) == Failure(BadNumberOfTokens) <==> |tokens| < 3 || |tokens| > 4
  {
    SplitJoin(tokens, ':');
    assert ParseLine(Join(tokens, ':')) == FromTokens(tokens);
    CountDecides(tokens);
  }

  lemma CountDecides(tokens: seq<string>)
    ensures FromTokens(tokens) == Failure(BadNumberOfTokens) <==> |tokens| < 3 || |tokens| > 4
  {
  }

  /** What comes out of a line is plain. */
  lemma ParsedIsPlain(line: string)
    requires '\n' !in line && ParseLine(line).Success?
    ensures Plain(ParseLine(line).value)
  {
    var e := ParseLine(line).value;
    var tokens := Split(line, ':');
    JoinSplit(line, ':');
    SplitFreeOf(line, ':', '\n');
    assert forall i :: 0 <= i < |tokens| ==> tokens[i] in tokens;
    if |tokens| > 3 && tokens[3] != "" {
      ParsedUsers(tokens[3]);
    }
    TokensFreeIff(e, ':');
    TokensFreeIff(e, '\n');
  }

  /** Reading back what was written gives the same entries exactly if all of them are plain. */
  lemma RoundTripIff(entries: seq<Entry>)
    ensures ParseAll(ParseLine, GetLines(Unlines(LinesOf(Line, entries)))) == Success(entries) <==> forall e :: e in entries ==> Plain(e)
  {
    forall e | Plain(e)
      ensures '\n' !in Line(e) && ParseLine(Line(e)) == Success(e)
    {
      TokensFreeIff(e, '\n');
      JoinFree(Tokens(e), ':', '\n');
      ParsePlain(e);
    }
    forall line | '\n' !in line && ParseLine(line).Success?
      ensures Plain(ParseLine(line).value)
    {
      ParsedIsPlain(line);
    }
    FileRoundTripIff(ParseLine, Line, Plain, entries);
  }
}
