/** The user database of the passwd file: reading, writing, and when reading gives back what was written. */
module PasswdDB {
  import opened Wrappers
  import opened Text
  import opened Lines
  import Decimal

  datatype Entry = Entry(
    loginName: string, encryptedPassword: string, uid: Decimal.Id, gid: Decimal.Id,
    comment: string, homeDirectory: string, interpreter: Option<string>)

  datatype DbError = BadNumberOfTokens | BadNumber(number: Decimal.NumberError)

  function Tokens(e: Entry): seq<string> {
    [e.loginName, e.encryptedPassword, Decimal.ToString(e.uid as nat), Decimal.ToString(e.gid as nat),
     e.comment, e.homeDirectory, if e.interpreter.Some? then e.interpreter.value else ""]
  }

  function Line(e: Entry): string { Join(Tokens(e), ':') }

  function FromTokens(tokens: seq<string>): Result<Entry, DbError> {
    if |tokens| < 6 || |tokens| > 7 then Failure(BadNumberOfTokens)
    else
      var uid, gid := Decimal.StoulToId(tokens[2]), Decimal.StoulToId(tokens[3]);
      if uid.Failure? then Failure(BadNumber(uid.error))
      else if gid.Failure? then Failure(BadNumber(gid.error))
      else
        var interpreter := if |tokens| > 6 && tokens[6] != "" then Some(tokens[6]) else None;
        Success(Entry(tokens[0], tokens[1], uid.value, gid.value, tokens[4], tokens[5], interpreter))
  }

  function ParseLine(line: string): Result<Entry, DbError> { FromTokens(Split(line, ':')) }

  class Database {
    var entries: seq<Entry>

    constructor ()
      ensures entries == []
    {
      entries := [];
    }

    /** Adds the entries of a file; after an error those of the lines before stay. */
    method Read(text: string) returns (error: Option<DbError>)
      modifies this
      ensures error.None? ==> ParseAll(ParseLine, GetLines(text)).Success? &&
                              entries == old(entries) + ParseAll(ParseLine, GetLines(text)).value
      ensures error.Some? ==>
                && ParseAll(ParseLine, GetLines(text)) == Failure(error.value)
                && old(entries) <= entries
                && exists k: nat :: FailsAt(ParseLine, GetLines(text), k, entries[|old(entries)|..], error.value)
    {
      var lines := GetLines(text);
      for i := 0 to |lines|
        invariant ParseAll(ParseLine, lines[..i]).Success? && entries == old(entries) + ParseAll(ParseLine, lines[..i]).value
      {
        ParseAllNext(ParseLine, lines, i);
        var entry := ParseLine(lines[i]);
        if entry.Failure? {
          assert FailsAt(ParseLine, lines, i, entries[|old(entries)|..], entry.error);
          FailedAt(ParseLine, lines, i, entries[|old(entries)|..], entry.error);
          return Some(entry.error);
        }
        entries := entries + [entry.value];
      }
      assert lines[..|lines|] == lines;
      return None;
    }

    method Write() returns (text: string)
      ensures text == Unlines(LinesOf(Line, entries))
    {
      text := "";
      for i := 0 to |entries|
        invariant text == Unlines(LinesOf(Line, entries[..i]))
      {
        var line := WriteEntry(entries[i]);
        text := text + line + "\n";
        LinesOfNext(Line, entries, i);
      }
      assert entries[..|entries|] == entries;
    }
  }

  method WriteEntry(e: Entry) returns (line: string)
    ensures line == Line(e)
  {
    ghost var t := Tokens(e);
    forall i | 0 < i < |t| ensures Join(t[..i + 1], ':') == Join(t[..i], ':') + ":" + t[i] { JoinNext(t, ':', i); }
    line := e.loginName;
    line := line + ":" + e.encryptedPassword;
    assert line == Join(t[..2], ':');
    line := line + ":" + Decimal.ToString(e.uid as nat);
    assert line == Join(t[..3], ':');
    line := line + ":" + Decimal.ToString(e.gid as nat);
    assert line == Join(t[..4], ':');
    line := line + ":" + e.comment;
    assert line == Join(t[..5], ':');
    line := line + ":" + e.homeDirectory;
    assert line == Join(t[..6], ':');
    line := line + ":";
    if e.interpreter.Some? {
      line := line + e.interpreter.value;
    }
    assert line == Join(t[..7], ':') && t[..7] == t;
  }

  // ---------------------------------------------------------------- reading what was written

  /** The texts that a caller chooses. */
  function Texts(e: Entry): seq<string> {
    [e.loginName, e.encryptedPassword, e.comment, e.homeDirectory, if e.interpreter.Some? then e.interpreter.value else ""]
  }

  /** No text holds a separator, and an interpreter is not empty. */
  predicate Plain(e: Entry) {
    FreeOf(Texts(e), ':') && FreeOf(Texts(e), '\n') && e.interpreter != Some("")
  }

  /** The tokens of a line are free of a separator exactly if the texts are. */
  lemma TokensFreeIff(e: Entry, d: char)
    requires !Decimal.IsDigit(d)
    ensures FreeOf(Tokens(e), d) <==> FreeOf(Texts(e), d)
  {
    var t, texts := Tokens(e), Texts(e);
    assert texts[0] in texts && texts[1] in texts && texts[2] in texts && texts[3] in texts && texts[4] in texts;
    assert t[0] in t && t[1] in t && t[4] in t && t[5] in t && t[6] in t;
  }

  lemma ParsePlain(e: Entry)
    requires Plain(e)
    ensures ParseLine(Line(e)) == Success(e)
  {
    TokensFreeIff(e, ':');
    SplitJoin(Tokens(e), ':');
    TokensBack(e);
  }

  lemma TokensBack(e: Entry)
    requires e.interpreter != Some("")
    ensures FromTokens(Tokens(e)) == Success(e)
  {
    Decimal.StoulToIdOfToString(e.uid);
    Decimal.StoulToIdOfToString(e.gid);
  }

  lemma ShortTokensBack(e: Entry)
    requires e.interpreter.None?
    ensures FromTokens(Tokens(e)[..6]) == Success(e)
  {
    Decimal.StoulToIdOfToString(e.uid);
    Decimal.StoulToIdOfToString(e.gid);
  }

  /** A line may lack the field of the interpreter. */
  lemma LastFieldIsOptional(e: Entry)
    requires Plain(e) && e.interpreter.None?
    ensures ParseLine(Join(Tokens(e)[..6], ':')) == Success(e)
  {
    var tokens := Tokens(e)[..6];
    TokensFreeIff(e, ':');
    assert FreeOf(tokens, ':');
    SplitJoin(tokens, ':');
    ShortTokensBack(e);
  }

  /** With fewer or more fields it is refused. */
  lemma FieldCountMatters(tokens: seq<string>)
    requires tokens != [] && FreeOf(tokens, ':')
    ensures ParseLine(Join(tokens, ':')) == Failure(BadNumberOfTokens) <==> |tokens| < 6 || |tokens| > 7
  {
    SplitJoin(tokens, ':');
    assert ParseLine(Join(tokens, ':')) == FromTokens(tokens);
    CountDecides(tokens);
  }

  lemma CountDecides(tokens: seq<string>)
    ensures FromTokens(tokens) == Failure(BadNumberOfTokens) <==> |tokens| < 6 || |tokens| > 7
  {
  }

  /** What comes out of a line is plain. */
  lemma ParsedIsPlain(line: string)
    requires '\n' !in line && ParseLine(line).Success?
    ensures Plain(ParseLine(line).value)
  {
    var e := ParseLine(line).value;
    var tokens := Split(line, ':');
    JoinSplit(line, ':');
    SplitFreeOf(line, ':', '\n');
    assert forall i :: 0 <= i < |tokens| ==> tokens[i] in tokens;
    TokensFreeIff(e, ':');
    TokensFreeIff(e, '\n');
  }

  /** Reading back what was written gives the same entries exactly if all of them are plain. */
  lemma RoundTripIff(entries: seq<Entry>)
    ensures ParseAll(ParseLine, GetLines(Unlines(LinesOf(Line, entries)))) == Success(entries) <==> forall e :: e in entries ==> Plain(e)
  {
    forall e | Plain(e)
      ensures '\n' !in Line(e) && ParseLine(Line(e)) == Success(e)
    {
      TokensFreeIff(e, '\n');
      JoinFree(Tokens(e), ':', '\n');
      ParsePlain(e);
    }
    forall line | '\n' !in line && ParseLine(line).Success?
      ensures Plain(ParseLine(line).value)
    {
      ParsedIsPlain(line);
    }
    FileRoundTripIff(ParseLine, Line, Plain, entries);
  }
}
