/** The console program's input handling: stripping quotes from a typed or
    pasted path, and reading the command-line options. */
module ConsoleArgs {
  import opened Text
  import opened JsonModel

  // ---------------------------------------------------------------------------
  // CleanFilePath

  /** The outcome of `CleanFilePath`: the cleaned path, or the
      `ArgumentOutOfRangeException` that `Substring(1, -1)` raises. */
  datatype CleanOutcome = Cleaned(path: string) | SubstringOutOfRange

  /** Remove one enclosing pair of `q` from `s`. */
  function StripPair(s: string, q: char): (r: CleanOutcome)
    ensures !(StartsWith(s, [q]) && EndsWith(s, [q])) ==> r == Cleaned(s)
    ensures StartsWith(s, [q]) && EndsWith(s, [q]) && |s| >= 2 ==> r == Cleaned(s[1..|s| - 1])
    ensures r.SubstringOutOfRange? <==> s == [q]
  {
    if StartsWith(s, [q]) && EndsWith(s, [q]) then
      if |s| < 2 then SubstringOutOfRange else Cleaned(s[1..|s| - 1])
    else Cleaned(s)
  }

  /** Specification of `CleanFilePath`: trim, strip one pair of double quotes,
      then one pair of single quotes, trim again. */
  function CleanPath(filePath: string): CleanOutcome
  {
    if filePath == [] then Cleaned(filePath)
    else
      match StripPair(Trim(filePath), '"')
      case SubstringOutOfRange => SubstringOutOfRange
      case Cleaned(unquoted) =>
        match StripPair(unquoted, '\'')
        case SubstringOutOfRange => SubstringOutOfRange
        case Cleaned(stripped) => Cleaned(Trim(stripped))
  }

  /** `CleanFilePath(filePath)`, reassigning the path stage by stage. */
  method CleanFilePath(filePath: string) returns (outcome: CleanOutcome)
    ensures outcome == CleanPath(filePath)
  {
    if filePath == [] {
      return Cleaned(filePath);
    }
    var path := Trim(filePath);
    var stage := StripQuotes(path, '"');
    if stage.SubstringOutOfRange? {
      return SubstringOutOfRange;
    }
    path := stage.path;
    stage := StripQuotes(path, '\'');
    if stage.SubstringOutOfRange? {
      return SubstringOutOfRange;
    }
    path := stage.path;
    outcome := Cleaned(Trim(path));
  }

  /** One quote block of `CleanFilePath`: when the path starts and ends with
      `q`, keep what lies between (`Substring(1, Length - 2)`). */
  method StripQuotes(path: string, q: char) returns (outcome: CleanOutcome)
    ensures outcome == StripPair(path, q)
  {
    if StartsWith(path, [q]) && EndsWith(path, [q]) {
      if |path| < 2 {
        return SubstringOutOfRange;
      }
      return Cleaned(path[1..|path| - 1]);
    }
    return Cleaned(path);
  }

  /** The call throws exactly when the trimmed text is a lone `"`, a lone `'`,
      or `"'"`: the one-character text between the quote tests and `Substring`. */
  lemma CleanPathThrows(filePath: string)
    ensures CleanPath(filePath).SubstringOutOfRange?
        <==> Trim(filePath) == "\"" || Trim(filePath) == "'" || Trim(filePath) == "\"'\""
  {
    var t := Trim(filePath);
    if filePath == [] {
      assert t == [];
    } else {
      StagesThrow(t);
    }
  }

  /** The two quote stages throw, on an already trimmed text `t`, exactly for
      the three texts above. */
  lemma StagesThrow(t: string)
    ensures (|| StripPair(t, '"').SubstringOutOfRange?
             || (StripPair(t, '"').Cleaned? && StripPair(StripPair(t, '"').path, '\'').SubstringOutOfRange?))
        <==> t == "\"" || t == "'" || t == "\"'\""
  {
    if StripPair(t, '"').Cleaned? {
      var u := StripPair(t, '"').path;
      if u == "'" && u != t {
        assert |t| == 3 && t[0] == '"' && t[2] == '"' && t[1] == '\'';
        assert t == "\"'\"";
      }
    }
    if t == "\"'\"" {
      assert StripPair(t, '"') == Cleaned("'");
    }
  }

  /** Trimming text that is already trimmed changes nothing. */
  lemma TrimTrimmed(p: string)
    requires Trimmed(p)
    ensures Trim(p) == p
  {
    TrimPadded([], p, []);
    assert [] + p + [] == p;
  }

  /** The stages of `CleanPath` one at a time. */
  lemma CleanPathStages(s: string, u: string, v: string)
    requires s != []
    requires StripPair(Trim(s), '"') == Cleaned(u)
    requires StripPair(u, '\'') == Cleaned(v)
    ensures CleanPath(s) == Cleaned(Trim(v))
  {
  }

  lemma TrimQuoted(w1: string, q: char, p: string, w2: string)
    requires !IsWhiteSpace(q)
    requires AllWhiteSpace(w1) && AllWhiteSpace(w2)
    ensures Trim(w1 + [q] + p + [q] + w2) == [q] + p + [q]
  {
    var t := [q] + p + [q];
    assert w1 + [q] + p + [q] + w2 == w1 + t + w2;
    assert t[0] == q && t[|t| - 1] == q;
    TrimPadded(w1, t, w2);
  }

  lemma StripQuoted(q: char, p: string)
    ensures StripPair([q] + p + [q], q) == Cleaned(p)
  {
    var t := [q] + p + [q];
    assert t[..1] == [q] && t[|t| - 1..] == [q];
    assert t[1..|t| - 1] == p;
  }

  /** What is inside one pair of quotes, once trimmed, comes back. */
  lemma CleanPathOfQuoted(s: string, q: char, p: string)
    requires q == '"' || q == '\''
    requires Trim(s) == [q] + p + [q] && Trimmed(p)
    requires q == '"' ==> !(StartsWith(p, "'") && EndsWith(p, "'"))
    ensures CleanPath(s) == Cleaned(p)
  {
    var t := [q] + p + [q];
    assert s != [];
    StripQuoted(q, p);
    TrimTrimmed(p);
    if q == '"' {
      assert StripPair(p, '\'') == Cleaned(p);
      CleanPathStages(s, p, p);
    } else {
      assert t[0] != '"';
      assert StripPair(t, '"') == Cleaned(t);
      CleanPathStages(s, t, p);
    }
  }

  /** A path in double or single quotes, with whitespace around it, comes
      back as the bare path. */
  lemma CleanPathQuoted(w1: string, q: char, p: string, w2: string)
    requires q == '"' || q == '\''
    requires AllWhiteSpace(w1) && AllWhiteSpace(w2) && Trimmed(p)
    requires q == '"' ==> !(StartsWith(p, "'") && EndsWith(p, "'"))
    ensures CleanPath(w1 + [q] + p + [q] + w2) == Cleaned(p)
  {
    TrimQuoted(w1, q, p, w2);
    CleanPathOfQuoted(w1 + [q] + p + [q] + w2, q, p);
  }

  /** A path that is already bare passes through unchanged. */
  lemma CleanPathBare(p: string)
    requires p != [] && Trimmed(p)
    requires !(StartsWith(p, "\"") && EndsWith(p, "\""))
    requires !(StartsWith(p, "'") && EndsWith(p, "'"))
    ensures CleanPath(p) == Cleaned(p)
  {
    TrimTrimmed(p);
    assert StripPair(p, '"') == Cleaned(p);
    assert StripPair(p, '\'') == Cleaned(p);
  }

  // ---------------------------------------------------------------------------
  // ParseCommandLineArgs

  datatype CommandLine = CommandLine(originFile: Option<string>, fromFile: Option<string>, showHelp: bool)

  /** The options read, or `Environment.Exit(code)`. */
  datatype ArgsOutcome = Arguments(line: CommandLine) | Exit(code: int)

  const NoOptions: CommandLine := CommandLine(None, None, false)

  predicate IsHelp(a: string) { Lower(a) == "-h" || Lower(a) == "--help" }
  predicate IsOrigin(a: string) { Lower(a) == "-o" || Lower(a) == "--origin" }
  predicate IsFrom(a: string) { Lower(a) == "-f" || Lower(a) == "--from" }

  /** Specification of `ParseCommandLineArgs`: the arguments from the front,
      with the options read so far in `acc`. */
  function ParseArgs(args: seq<string>, acc: CommandLine): ArgsOutcome
    decreases |args|
  {
    if args == [] then Arguments(acc)
    else if IsHelp(args[0]) then ParseArgs(args[1..], acc.(showHelp := true))
    else if IsOrigin(args[0]) then
      if |args| >= 2 then ParseArgs(args[2..], acc.(originFile := Some(args[1]))) else Exit(1)
    else if IsFrom(args[0]) then
      if |args| >= 2 then ParseArgs(args[2..], acc.(fromFile := Some(args[1]))) else Exit(1)
    else if StartsWith(args[0], "-") then Exit(1)
    else ParseArgs(args[1..], acc)
  }

  /** `ParseCommandLineArgs(args)`: an index loop that skips the value after
      `-o` and `-f`. */
  method ParseCommandLineArgs(args: seq<string>) returns (outcome: ArgsOutcome)
    ensures outcome == ParseArgs(args, NoOptions)
  {
    var originFile: Option<string> := None;
    var fromFile: Option<string> := None;
    var showHelp := false;
    var i := 0;
    while i < |args|
      invariant 0 <= i <= |args|
      invariant ParseArgs(args[i..], CommandLine(originFile, fromFile, showHelp)) == ParseArgs(args, NoOptions)
    {
      var arg := args[i];
      assert args[i..][1..] == args[i + 1..];
      if IsHelp(arg) {
        showHelp := true;
      } else if IsOrigin(arg) {
        if i + 1 < |args| {
          assert args[i..][2..] == args[i + 2..];
          originFile := Some(args[i + 1]);
          i := i + 1;
        } else {
          return Exit(1);
        }
      } else if IsFrom(arg) {
        if i + 1 < |args| {
          assert args[i..][2..] == args[i + 2..];
          fromFile := Some(args[i + 1]);
          i := i + 1;
        } else {
          return Exit(1);
        }
      } else if StartsWith(arg, "-") {
        return Exit(1);
      }
      i := i + 1;
    }
    outcome := Arguments(CommandLine(originFile, fromFile, showHelp));
  }

  /** Arguments are read left to right: a prefix that parses completely leaves
      the rest to be read from the options it produced. */
  lemma {:induction false} ParseArgsAppend(a: seq<string>, b: seq<string>, acc: CommandLine)
    requires ParseArgs(a, acc).Arguments?
    ensures ParseArgs(a + b, acc) == ParseArgs(b, ParseArgs(a, acc).line)
    decreases |a|
  {
    if a == [] {
      assert a + b == b;
    } else {
      assert (a + b)[0] == a[0];
      assert (a + b)[1..] == a[1..] + b;
      if IsHelp(a[0]) {
        ParseArgsAppend(a[1..], b, acc.(showHelp := true));
      } else if IsOrigin(a[0]) {
        assert (a + b)[1] == a[1];
        assert (a + b)[2..] == a[2..] + b;
        ParseArgsAppend(a[2..], b, acc.(originFile := Some(a[1])));
      } else if IsFrom(a[0]) {
        assert (a + b)[1] == a[1];
        assert (a + b)[2..] == a[2..] + b;
        ParseArgsAppend(a[2..], b, acc.(fromFile := Some(a[1])));
      } else {
        ParseArgsAppend(a[1..], b, acc);
      }
    }
  }

  /** A later `-o` overrides an earlier one (and likewise `-f`): whatever the
      arguments before it set, an option pair at the end decides the value. */
  lemma LaterOptionWins(a: seq<string>, flag: string, v: string, acc: CommandLine)
    requires ParseArgs(a, acc).Arguments?
    requires IsOrigin(flag) || IsFrom(flag)
    ensures var r := ParseArgs(a + [flag, v], acc);
            r.Arguments?
            && (IsOrigin(flag) ==> r.line.originFile == Some(v) && r.line.fromFile == ParseArgs(a, acc).line.fromFile)
            && (IsFrom(flag) ==> r.line.fromFile == Some(v) && r.line.originFile == ParseArgs(a, acc).line.originFile)
            && r.line.showHelp == ParseArgs(a, acc).line.showHelp
  {
    ParseArgsAppend(a, [flag, v], acc);
    assert [flag, v][2..] == [];
    assert "-o" != "-f" && "-o" != "--from" && "--origin" != "-f" && "--origin" != "--from";
  }

  /** The option names are case-insensitive: two spellings that lower-case
      alike are read alike. */
  lemma OptionCaseInsensitive(x: string, y: string, rest: seq<string>, acc: CommandLine)
    requires Lower(x) == Lower(y)
    requires IsHelp(x) || IsOrigin(x) || IsFrom(x)
    ensures ParseArgs([x] + rest, acc) == ParseArgs([y] + rest, acc)
  {
    var a, b := [x] + rest, [y] + rest;
    assert a[0] == x && b[0] == y;
    assert a[1..] == rest == b[1..];
    if rest != [] {
      assert a[1] == rest[0] == b[1];
      assert a[2..] == rest[1..] == b[2..];
    }
  }

  /** An argument that does not start with a dash is ignored. */
  lemma PlainArgumentIgnored(x: string, rest: seq<string>, acc: CommandLine)
    requires !StartsWith(x, "-")
    ensures ParseArgs([x] + rest, acc) == ParseArgs(rest, acc)
  {
    assert x == [] || x[0] != '-';
    assert Lower(x) == [] || Lower(x)[0] != '-';
    assert ([x] + rest)[1..] == rest;
  }

  /** An unknown argument starting with a dash exits with code 1. */
  lemma UnknownOptionExits(x: string, rest: seq<string>, acc: CommandLine)
    requires StartsWith(x, "-") && !IsHelp(x) && !IsOrigin(x) && !IsFrom(x)
    ensures ParseArgs([x] + rest, acc) == Exit(1)
  {
  }

  /** `-o` or `-f` as the last argument exits with code 1. */
  lemma DanglingOptionExits(a: seq<string>, flag: string, acc: CommandLine)
    requires ParseArgs(a, acc).Arguments?
    requires IsOrigin(flag) || IsFrom(flag)
    ensures ParseArgs(a + [flag], acc) == Exit(1)
  {
    ParseArgsAppend(a, [flag], acc);
  }

  /** The value after an option is taken as it is, even when it looks like an option. */
  lemma OptionValueVerbatim(flag: string, v: string, rest: seq<string>, acc: CommandLine)
    ensures IsOrigin(flag) ==> ParseArgs([flag, v] + rest, acc) == ParseArgs(rest, acc.(originFile := Some(v)))
    ensures IsFrom(flag) ==> ParseArgs([flag, v] + rest, acc) == ParseArgs(rest, acc.(fromFile := Some(v)))
  {
    var args := [flag, v] + rest;
    assert args[0] == flag && args[1] == v && args[2..] == rest;
  }

  /** `-h` or `--help`, in any letter case, sets the help flag and parsing goes on. */
  lemma HelpOption(x: string, rest: seq<string>, acc: CommandLine)
    ensures IsHelp(x) ==> ParseArgs([x] + rest, acc) == ParseArgs(rest, acc.(showHelp := true))
  {
    var args := [x] + rest;
    assert args[0] == x && args[1..] == rest;
  }

  /** Parsing never invents a path: a value it returns is one of the arguments. */
  lemma {:induction false} ParsedValuesFromArgs(args: seq<string>, acc: CommandLine)
    requires ParseArgs(args, acc).Arguments?
    ensures var cl := ParseArgs(args, acc).line;
            (cl.originFile.Some? ==> cl.originFile == acc.originFile || cl.originFile.value in args)
            && (cl.fromFile.Some? ==> cl.fromFile == acc.fromFile || cl.fromFile.value in args)
    decreases |args|
  {
    if args != [] {
      if IsHelp(args[0]) {
        ParsedValuesFromArgs(args[1..], acc.(showHelp := true));
      } else if IsOrigin(args[0]) {
        ParsedValuesFromArgs(args[2..], acc.(originFile := Some(args[1])));
      } else if IsFrom(args[0]) {
        ParsedValuesFromArgs(args[2..], acc.(fromFile := Some(args[1])));
      } else {
        ParsedValuesFromArgs(args[1..], acc);
      }
    }
  }
}
