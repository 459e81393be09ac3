/** Text files read line by line and written with a newline after every line. */
module Lines {
  import opened Wrappers
  import opened Text

  /** What std::getline delivers: a final newline does not start another line. */
  function GetLines(s: string): (lines: seq<string>)
    ensures FreeOf(lines, '\n')
    decreases |s|
  {
    var i := IndexOf(s, '\n');
    if s == "" then [] else if i == |s| then [s] else [s[..i]] + GetLines(s[i + 1..])
  }

  function Unlines(lines: seq<string>): string {
    if lines == [] then "" else Unlines(lines[..|lines| - 1]) + lines[|lines| - 1] + "\n"
  }

  lemma {:induction false} UnlinesCons(line: string, lines: seq<string>)
    ensures Unlines([line] + lines) == line + "\n" + Unlines(lines)
  {
    var all := [line] + lines;
    if lines == [] {
      assert all[..0] == [];
    } else {
      var init, last := lines[..|lines| - 1], lines[|lines| - 1];
      UnlinesCons(line, init);
      assert all[..|all| - 1] == [line] + init;
      assert line + "\n" + Unlines(init) + last + "\n" == line + "\n" + (Unlines(init) + last + "\n");
    }
  }

  lemma GetLinesCons(line: string, tail: string)
    requires '\n' !in line
    ensures GetLines(line + "\n" + tail) == [line] + GetLines(tail)
  {
    var s := line + "\n" + tail;
    FirstSeparator(line, tail, '\n');
    assert s[..|line|] == line && s[|line| + 1..] == tail;
  }

  lemma {:induction false} GetLinesUnlines(lines: seq<string>)
    requires FreeOf(lines, '\n')
    ensures GetLines(Unlines(lines)) == lines
  {
    if lines != [] {
      var line, rest := lines[0], lines[1..];
      GetLinesUnlines(rest);
      UnlinesCons(line, rest);
      assert lines == [line] + rest && line in lines;
      GetLinesCons(line, Unlines(rest));
    }
  }

  lemma TailGoesOn(line: string, tail: string, last: string)
    ensures line + "\n" + tail + last == line + "\n" + (tail + last)
  {
  }

  /** A last line without newline is a line, too. */
  lemma {:induction false} GetLinesUnterminated(lines: seq<string>, last: string)
    requires FreeOf(lines, '\n') && last != "" && '\n' !in last
    ensures GetLines(Unlines(lines) + last) == lines + [last]
  {
    if lines == [] {
      assert Unlines(lines) + last == last;
      assert IndexOf(last, '\n') == |last|;
      assert lines + [last] == [last];
    } else {
      var line, rest := lines[0], lines[1..];
      GetLinesUnterminated(rest, last);
      UnlinesCons(line, rest);
      assert lines == [line] + rest && line in lines;
      TailGoesOn(line, Unlines(rest), last);
      GetLinesCons(line, Unlines(rest) + last);
      assert [line] + (rest + [last]) == lines + [last];
    }
  }

  /** The lines parsed one by one, up to the first that cannot be. */
  function ParseAll<T, E>(parse: string -> Result<T, E>, lines: seq<string>): Result<seq<T>, E> {
    if lines == [] then Success([])
    else
      var before := ParseAll(parse, lines[..|lines| - 1]);
      if before.Failure? then before
      else
        var last := parse(lines[|lines| - 1]);
        if last.Failure? then Failure(last.error) else Success(before.value + [last.value])
  }

  lemma ParseAllNext<T, E>(parse: string -> Result<T, E>, lines: seq<string>, i: nat)
    requires i < |lines| && ParseAll(parse, lines[..i]).Success?
    ensures parse(lines[i]).Success? ==>
              ParseAll(parse, lines[..i + 1]) == Success(ParseAll(parse, lines[..i]).value + [parse(lines[i]).value])
    ensures parse(lines[i]).Failure? ==> ParseAll(parse, lines[..i + 1]) == Failure(parse(lines[i]).error)
  {
    assert lines[..i + 1][..i] == lines[..i];
  }

  lemma {:induction false} ParseAllPrefix<T, E>(parse: string -> Result<T, E>, lines: seq<string>, k: nat)
    requires k <= |lines| && ParseAll(parse, lines[..k]).Failure?
    ensures ParseAll(parse, lines) == ParseAll(parse, lines[..k])
  {
    if k == |lines| {
      assert lines[..k] == lines;
    } else {
      assert lines[..|lines| - 1][..k] == lines[..k];
      ParseAllPrefix(parse, lines[..|lines| - 1], k);
    }
  }

  lemma {:induction false} ParseAllElements<T, E>(parse: string -> Result<T, E>, lines: seq<string>)
    requires ParseAll(parse, lines).Success?
    ensures |ParseAll(parse, lines).value| == |lines|
    ensures forall i :: 0 <= i < |lines| ==> parse(lines[i]) == Success(ParseAll(parse, lines).value[i])
  {
    if lines != [] {
      ParseAllElements(parse, lines[..|lines| - 1]);
    }
  }

  lemma {:induction false} ParseAllWritten<T, E>(parse: string -> Result<T, E>, lines: seq<string>, values: seq<T>)
    requires |lines| == |values| && forall i :: 0 <= i < |lines| ==> parse(lines[i]) == Success(values[i])
    ensures ParseAll(parse, lines) == Success(values)
  {
    if lines != [] {
      ParseAllWritten(parse, lines[..|lines| - 1], values[..|lines| - 1]);
      assert values == values[..|lines| - 1] + [values[|lines| - 1]];
    }
  }

  /** Parsing fails at the k-th line, after the values of the lines before it. */
  ghost predicate FailsAt<T, E>(parse: string -> Result<T, E>, lines: seq<string>, k: nat, values: seq<T>, error: E) {
    k < |lines| && ParseAll(parse, lines[..k]) == Success(values) && parse(lines[k]) == Failure(error)
  }

  lemma FailedAt<T, E>(parse: string -> Result<T, E>, lines: seq<string>, k: nat, values: seq<T>, error: E)
    requires FailsAt(parse, lines, k, values, error)
    ensures ParseAll(parse, lines) == Failure(error)
  {
    ParseAllNext(parse, lines, k);
    ParseAllPrefix(parse, lines, k + 1);
  }

  // ---------------------------------------------------------------- records, one per line

  function LinesOf<T>(line: T -> string, values: seq<T>): seq<string> {
    seq(|values|, i requires 0 <= i < |values| => line(values[i]))
  }

  lemma LinesOfNext<T>(line: T -> string, values: seq<T>, i: nat)
    requires i < |values|
    ensures Unlines(LinesOf(line, values[..i + 1])) == Unlines(LinesOf(line, values[..i])) + line(values[i]) + "\n"
  {
    assert LinesOf(line, values[..i + 1])[..i] == LinesOf(line, values[..i]);
  }

  /** A plain value is read back from its line, which is a single one. */
  ghost predicate ReadsBack<T(!new), E(!new)>(parse: string -> Result<T, E>, line: T -> string, plain: T -> bool) {
    forall v :: plain(v) ==> '\n' !in line(v) && parse(line(v)) == Success(v)
  }

  /** Only plain values come out of a line. */
  ghost predicate YieldsPlain<T, E>(parse: string -> Result<T, E>, plain: T -> bool) {
    forall s :: '\n' !in s && parse(s).Success? ==> plain(parse(s).value)
  }

  /** Then reading what was written gives the same values exactly if all of them are plain. */
  lemma FileRoundTripIff<T(!new), E(!new)>(parse: string -> Result<T, E>, line: T -> string, plain: T -> bool, values: seq<T>)
    requires ReadsBack(parse, line, plain) && YieldsPlain(parse, plain)
    ensures ParseAll(parse, GetLines(Unlines(LinesOf(line, values)))) == Success(values) <==> forall v :: v in values ==> plain(v)
  {
    var lines := LinesOf(line, values);
    var text := Unlines(lines);
    if forall v :: v in values ==> plain(v) {
      forall i | 0 <= i < |values|
        ensures '\n' !in lines[i] && parse(lines[i]) == Success(values[i])
      {
        assert values[i] in values;
      }
      GetLinesUnlines(lines);
      ParseAllWritten(parse, lines, values);
    } else if ParseAll(parse, GetLines(text)) == Success(values) {
      ParseAllElements(parse, GetLines(text));
      forall i | 0 <= i < |values|
        ensures plain(values[i])
      {
        assert GetLines(text)[i] in GetLines(text);
      }
    }
  }
}
