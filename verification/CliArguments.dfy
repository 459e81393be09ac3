/**
Splitting a command line into the program's own options, with their values, and the positional
arguments, which may hold options of a subcommand or of the container application.
 */
module CliArguments {

  /** The options of a command, long and short, and whether they take a value. */
  datatype Table = Table(long: map<string, bool>, short: map<char, bool>)

  predicate HasDashPrefix(s: string) { |s| > 1 && s[0] == '-' && s[1] != '-' }

  predicate HasDashDashPrefix(s: string) { |s| > 2 && s[0] == '-' && s[1] == '-' && s[2] != '-' }

  predicate IsOption(s: string) { HasDashPrefix(s) || HasDashDashPrefix(s) }

  // ---------------------------------------------------------------- what a split has to be

  /** Every letter is a known short option, and just the last of them takes a value. */
  predicate ShortTakesValue(table: Table, letters: string) {
    && letters != ""
    && (forall i :: 0 <= i < |letters| ==> letters[i] in table.short)
    && (forall i :: 0 <= i < |letters| ==> (table.short[letters[i]] <==> i == |letters| - 1))
  }

  /** The option leaves its value to the next token. */
  predicate TakesNext(table: Table, token: string)
    requires IsOption(token)
  {
    if HasDashDashPrefix(token) then '=' !in token && token[2..] in table.long && table.long[token[2..]]
    else ShortTakesValue(table, token[1..])
  }

  /** The tokens that the option at i takes up, itself included. */
  function Width(table: Table, args: seq<string>, i: nat): (w: nat)
    requires i < |args| && IsOption(args[i])
    ensures 1 <= w <= 2 && i + w <= |args|
  {
    if TakesNext(table, args[i]) && i + 1 < |args| && !HasDashPrefix(args[i + 1]) then 2 else 1
  }

  /** Where the positional arguments start, when the options before i have been dealt with. */
  function SplitAt(table: Table, args: seq<string>, i: nat): (k: nat)
    requires i <= |args|
    ensures i <= k <= |args|
    ensures k < |args| ==> !IsOption(args[k])
    decreases |args| - i
  {
    if i == |args| || !IsOption(args[i]) then i else SplitAt(table, args, i + Width(table, args, i))
  }

  // ---------------------------------------------------------------- the splitting

  /** Adds an option and, if there is one, its value; returns the last token used. */
  method ProcessPossibleValueInNextToken(args: seq<string>, arg: nat, group: seq<string>) returns (last: nat, group': seq<string>)
    requires arg < |args|
    ensures last == if arg + 1 < |args| && !HasDashPrefix(args[arg + 1]) then arg + 1 else arg
    ensures group' == group + args[arg..last + 1]
  {
    last, group' := arg, group + [args[arg]];
    if arg + 1 != |args| {
      if !HasDashPrefix(args[arg + 1]) {
        group' := group' + [args[arg + 1]];
        last := arg + 1;
      }
    }
  }

  method ProcessDashDashOption(table: Table, args: seq<string>, arg: nat, group: seq<string>) returns (last: nat, group': seq<string>)
    requires arg < |args| && HasDashDashPrefix(args[arg])
    ensures last + 1 == arg + Width(table, args, arg)
    ensures group' == group + args[arg..last + 1]
  {
    var token := args[arg];
    last, group' := arg, group;
    if '=' in token {
      group' := group + [token];
    } else if token[2..] !in table.long {
      group' := group + [token];
    } else if table.long[token[2..]] {
      last, group' := ProcessPossibleValueInNextToken(args, arg, group);
    } else {
      group' := group + [token];
    }
  }

  method ProcessDashOption(table: Table, args: seq<string>, arg: nat, group: seq<string>) returns (last: nat, group': seq<string>)
    requires arg < |args| && HasDashPrefix(args[arg])
    ensures last + 1 == arg + Width(table, args, arg)
    ensures group' == group + args[arg..last + 1]
  {
    var letters := args[arg][1..];
    last, group' := arg, group;
    for i := 0 to |letters|
      invariant i < |letters| ==> last == arg && group' == group
      invariant i < |letters| ==> forall j :: 0 <= j < i ==> letters[j] in table.short && !table.short[letters[j]]
      invariant i == |letters| ==> last + 1 == arg + Width(table, args, arg) && group' == group + args[arg..last + 1]
    {
      if letters[i] !in table.short {
        group' := group' + [args[arg]];
        assert !ShortTakesValue(table, letters);
        break;
      }
      if table.short[letters[i]] {
        if i + 1 == |letters| {
          assert ShortTakesValue(table, letters);
          last, group' := ProcessPossibleValueInNextToken(args, arg, group');
        } else {
          group' := group' + [args[arg]];
          assert !ShortTakesValue(table, letters);
          break;
        }
      } else if i + 1 == |letters| {
        group' := group' + [args[arg]];
        assert !ShortTakesValue(table, letters);
      }
    }
  }

  /** The name and the options with their values come first, then everything from the first positional argument on. */
  method GroupOptionsAndPositionalArguments(table: Table, args: seq<string>) returns (options: seq<string>, positionals: seq<string>)
    requires args != [] ==> !IsOption(args[0])
    ensures options + positionals == args
    ensures positionals != [] ==> !IsOption(positionals[0])
    ensures args != [] ==> |options| == SplitAt(table, args, 1)
  {
    options, positionals := [], [];
    if |args| == 0 {
      return;
    }
    options := options + [args[0]];
    var arg := 1;
    while arg != |args|
      invariant 1 <= arg <= |args|
      invariant options == args[..arg] && positionals == []
      invariant SplitAt(table, args, arg) == SplitAt(table, args, 1)
      decreases |args| - arg
    {
      if !IsOption(args[arg]) {
        positionals := args[arg..];
        break;
      }
      var before, last := arg, arg;
      if HasDashDashPrefix(args[arg]) {
        last, options := ProcessDashDashOption(table, args, arg, options);
      } else {
        last, options := ProcessDashOption(table, args, arg, options);
      }
      arg := last + 1;
      SlicesJoin(args, before, arg);
    }
  }

  lemma SlicesJoin(args: seq<string>, i: nat, j: nat)
    requires i <= j <= |args|
    ensures args[..i] + args[i..j] == args[..j]
  {
  }

  // ---------------------------------------------------------------- what the split guarantees

  /** Splitting depends on the tokens up to the first positional argument only. */
  lemma {:induction false} SplitDependsOnPrefix(table: Table, args: seq<string>, args': seq<string>, i: nat)
    requires i <= |args|
    requires var k := SplitAt(table, args, i); k < |args| && k < |args'| && args[..k + 1] == args'[..k + 1]
    ensures i <= |args'| && SplitAt(table, args', i) == SplitAt(table, args, i)
    decreases |args| - i
  {
    var k := SplitAt(table, args, i);
    assert forall j :: 0 <= j <= k ==> args[j] == args[..k + 1][j] == args'[..k + 1][j] == args'[j];
    if IsOption(args[i]) {
      SplitDependsOnPrefix(table, args, args', i + Width(table, args, i));
    }
  }

  /** Splitting the option part again leaves it whole. */
  lemma {:induction false} SplitAgain(table: Table, args: seq<string>, i: nat)
    requires i <= |args|
    ensures var k := SplitAt(table, args, i); SplitAt(table, args[..k], i) == k
    decreases |args| - i
  {
    var k := SplitAt(table, args, i);
    if i < |args| && IsOption(args[i]) {
      var w := Width(table, args, i);
      SplitAgain(table, args, i + w);
      WidthWithin(table, args, i, k);
    }
  }

  lemma WidthWithin(table: Table, args: seq<string>, i: nat, k: nat)
    requires i < |args| && IsOption(args[i]) && k == SplitAt(table, args, i)
    ensures i < k && Width(table, args[..k], i) == Width(table, args, i)
  {
    var w := Width(table, args, i);
    assert k == SplitAt(table, args, i + w);
    assert args[..k][i] == args[i];
    if i + 1 < k {
      assert args[..k][i + 1] == args[i + 1];
    }
  }

  /** The tokens that stand as options before the positional arguments. */
  ghost function Options(table: Table, args: seq<string>, i: nat): (options: set<nat>)
    requires i <= |args|
    ensures forall j :: j in options ==> i <= j
    decreases |args| - i
  {
    if i == |args| || !IsOption(args[i]) then {} else {i} + Options(table, args, i + Width(table, args, i))
  }

  /** The role of a token in the option part: an option, or the value of the option before it. */
  ghost predicate RoleAt(table: Table, args: seq<string>, options: set<nat>, j: nat)
    requires j < |args|
  {
    if j in options then IsOption(args[j])
    else 0 < j && (j - 1) in options && IsOption(args[j - 1]) && TakesNext(table, args[j - 1]) && !HasDashPrefix(args[j])
  }

  /** The option at j, if it takes the next token for its value, has it where there is one fit to be a value. */
  ghost predicate ServedAt(table: Table, args: seq<string>, options: set<nat>, k: nat, j: nat)
    requires j < |args|
  {
    IsOption(args[j]) && TakesNext(table, args[j]) && j + 1 < |args| && !HasDashPrefix(args[j + 1]) ==> j + 1 < k && j + 1 !in options
  }

  ghost predicate AllRoles(table: Table, args: seq<string>, options: set<nat>, i: nat, k: nat)
    requires k <= |args|
  {
    && (forall j :: j in options ==> i <= j < k)
    && (forall j: nat :: i <= j < k ==> RoleAt(table, args, options, j))
    && (forall j :: j in options && j < |args| ==> ServedAt(table, args, options, k, j))
  }

  /**
  Every token of the option part is an option or the value of one, and no option goes without a
  value that follows it.
   */
  lemma {:induction false} Roles(table: Table, args: seq<string>, i: nat)
    requires i <= |args|
    ensures AllRoles(table, args, Options(table, args, i), i, SplitAt(table, args, i))
    decreases |args| - i
  {
    if i < |args| && IsOption(args[i]) {
      var w := Width(table, args, i);
      var k, options, rest := SplitAt(table, args, i), Options(table, args, i), Options(table, args, i + w);
      Roles(table, args, i + w);
      assert AllRoles(table, args, rest, i + w, k);
      forall j: nat | i <= j < k
        ensures RoleAt(table, args, options, j)
      {
        if j >= i + w {
          assert RoleAt(table, args, rest, j);
        }
      }
      forall j | j in options && j < |args|
        ensures ServedAt(table, args, options, k, j)
      {
        if j != i {
          assert ServedAt(table, args, rest, k, j);
        }
      }
    }
  }

  // ---------------------------------------------------------------- which options take the next token

  /** "prog --name v image": v belongs to the option exactly if the table has the option with a value. */
  lemma LongOptionSplit(table: Table, prog: string, name: string, v: string, image: string)
    requires name != "" && name[0] != '-' && '=' !in name && !IsOption(v) && !IsOption(image)
    ensures SplitAt(table, [prog, "--" + name, v, image], 1) == if name in table.long && table.long[name] then 3 else 2
  {
    var args := [prog, "--" + name, v, image];
    assert args[1][2..] == name && HasDashDashPrefix(args[1]);
    assert SplitAt(table, args, 1) == SplitAt(table, args, 1 + Width(table, args, 1));
  }

  /** "prog --name=v image": the option never takes another token. */
  lemma AdjacentOptionSplit(table: Table, prog: string, name: string, v: string, image: string)
    requires name != "" && name[0] != '-' && !IsOption(image)
    ensures SplitAt(table, [prog, "--" + name + "=" + v, image], 1) == 2
  {
    var args := [prog, "--" + name + "=" + v, image];
    assert args[1][2 + |name|] == '=' && HasDashDashPrefix(args[1]);
    assert SplitAt(table, args, 1) == SplitAt(table, args, 1 + Width(table, args, 1));
  }

  /** "prog -x v image": likewise for a short option. */
  lemma ShortOptionSplit(table: Table, prog: string, x: char, v: string, image: string)
    requires x != '-' && !IsOption(v) && !IsOption(image)
    ensures SplitAt(table, [prog, ['-', x], v, image], 1) == if x in table.short && table.short[x] then 3 else 2
  {
    var args := [prog, ['-', x], v, image];
    assert args[1][1..] == [x] && [x][0] == x;
    assert ShortTakesValue(table, [x]) ==> x in table.short && table.short[x];
    assert HasDashPrefix(args[1]) && args[2] == v && args[3] == image;
    assert SplitAt(table, args, 1) == SplitAt(table, args, 1 + Width(table, args, 1));
  }

  /** "prog -xy v image": v belongs to y if y takes a value and x, which is known, takes none; else y is text for x, or unknown. */
  lemma StickyOptionsSplit(table: Table, prog: string, x: char, y: char, v: string, image: string)
    requires x != '-' && !IsOption(v) && !IsOption(image)
    ensures SplitAt(table, [prog, ['-', x, y], v, image], 1) ==
      if x in table.short && !table.short[x] && y in table.short && table.short[y] then 3 else 2
  {
    var args := [prog, ['-', x, y], v, image];
    assert args[1][1..] == [x, y];
    assert [x, y][0] == x && [x, y][1] == y;
    assert SplitAt(table, args, 1) == SplitAt(table, args, 1 + Width(table, args, 1));
  }

  /** A lone dash, two dashes, and three or more with anything after them are positional arguments. */
  lemma DashesArePositional(table: Table, prog: string, rest: string)
    ensures SplitAt(table, [prog, "-"], 1) == 1
    ensures SplitAt(table, [prog, "--"], 1) == 1
    ensures SplitAt(table, [prog, "---" + rest], 1) == 1
  {
    assert ("---" + rest)[1] == '-' && ("---" + rest)[2] == '-';
  }

  // ---------------------------------------------------------------- values as the comment has them

  predicate StartsWithDash(s: string) { s != "" && s[0] == '-' }

  /** The tokens an option would take up if a value were any token that does not start with a dash. */
  function CommentedWidth(table: Table, args: seq<string>, i: nat): (w: nat)
    requires i < |args| && IsOption(args[i])
    ensures 1 <= w <= 2 && i + w <= |args|
  {
    if TakesNext(table, args[i]) && i + 1 < |args| && !StartsWithDash(args[i + 1]) then 2 else 1
  }

  function CommentedSplitAt(table: Table, args: seq<string>, i: nat): (k: nat)
    requires i <= |args|
    ensures i <= k <= |args|
    decreases |args| - i
  {
    if i == |args| || !IsOption(args[i]) then i else CommentedSplitAt(table, args, i + CommentedWidth(table, args, i))
  }

  ghost function CommentedOptions(table: Table, args: seq<string>, i: nat): (options: set<nat>)
    requires i <= |args|
    ensures forall j :: j in options ==> i <= j
    decreases |args| - i
  {
    if i == |args| || !IsOption(args[i]) then {} else {i} + CommentedOptions(table, args, i + CommentedWidth(table, args, i))
  }

  /** The option at j takes a value, and the next token starts with a dash without being a short option: "-", "--", "--x", "---x". */
  predicate DashedValueAt(table: Table, args: seq<string>, j: nat) {
    && j + 1 < |args| && IsOption(args[j]) && TakesNext(table, args[j])
    && StartsWithDash(args[j + 1]) && !HasDashPrefix(args[j + 1])
  }

  /** Code and comment agree about one option exactly if its next token is none of those. */
  lemma WidthAsCommentedIff(table: Table, args: seq<string>, i: nat)
    requires i < |args| && IsOption(args[i])
    ensures Width(table, args, i) == CommentedWidth(table, args, i) <==> !DashedValueAt(table, args, i)
  {
  }

  ghost predicate AsCommented(table: Table, args: seq<string>, i: nat)
    requires i <= |args|
  {
    SplitAt(table, args, i) == CommentedSplitAt(table, args, i) && Options(table, args, i) == CommentedOptions(table, args, i)
  }

  lemma NotAsCommented(table: Table, args: seq<string>, i: nat)
    requires DashedValueAt(table, args, i)
    ensures !AsCommented(table, args, i)
  {
    assert i + 1 !in Options(table, args, i) && SplitAt(table, args, i) >= i + 2;
    assert i + 1 in CommentedOptions(table, args, i) || CommentedSplitAt(table, args, i) == i + 1;
  }

  lemma AsCommentedNext(table: Table, args: seq<string>, i: nat)
    requires i < |args| && IsOption(args[i]) && !DashedValueAt(table, args, i)
    ensures AsCommented(table, args, i) <==> AsCommented(table, args, i + Width(table, args, i))
  {
    WidthAsCommentedIff(table, args, i);
    var w := Width(table, args, i);
    var rest, rest' := Options(table, args, i + w), CommentedOptions(table, args, i + w);
    assert ({i} + rest) - {i} == rest && ({i} + rest') - {i} == rest';
  }

  /** For every command line: code and comment agree on the split and on every token's role exactly if no option takes such a value. */
  lemma {:induction false} SplitAsCommentedIff(table: Table, args: seq<string>, i: nat)
    requires i <= |args|
    ensures AsCommented(table, args, i) <==> forall j :: j in Options(table, args, i) ==> !DashedValueAt(table, args, j)
    decreases |args| - i
  {
    if i < |args| && IsOption(args[i]) {
      assert i in Options(table, args, i);
      if DashedValueAt(table, args, i) {
        NotAsCommented(table, args, i);
      } else {
        AsCommentedNext(table, args, i);
        SplitAsCommentedIff(table, args, i + Width(table, args, i));
      }
    }
  }

  /** Such as "--", which is taken as the value of an option before it. */
  lemma DashDashIsTakenAsValue(table: Table, name: string, option: string)
    requires IsOption(option) && TakesNext(table, option)
    ensures var args := [name, option, "--"];
      SplitAt(table, args, 1) == 3 && CommentedSplitAt(table, args, 1) == 2
  {
    var args := [name, option, "--"];
    assert Width(table, args, 1) == 2 && CommentedWidth(table, args, 1) == 1;
    assert SplitAt(table, args, 3) == 3 && CommentedSplitAt(table, args, 2) == 2;
  }
}
