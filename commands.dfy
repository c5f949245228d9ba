/** The command language of the shell: tokenising a line, the table of
    operations with their argument counts, the `os` flags, and the `.exit`
    check the line handler does before dispatch (src/index.js:136-241). */
module Commands {
  import opened Options
  import opened Strings

  datatype OsFlag = Eol | Cpus | HomeDir | UserName | Architecture

  datatype Command =
    | Up
    | Cd(path: string)
    | Ls
    | Cat(path: string)
    | Add(fileName: string)
    | Rn(path: string, newFileName: string)
    | Cp(source: string, destination: string)
    | Mv(source: string, destination: string)
    | Rm(path: string)
    | Os(flag: OsFlag)

  /** What processCommand makes of a line: a command to run, or the
      "Invalid input" case. */
  datatype Parsed = Parsed(command: Command) | Invalid

  /** `const [operation, ...args] = command.trim().split(' ')` */
  function Tokenise(line: string): (string, seq<string>) {
    var parts := Split(Trim(line), ' ');
    (parts[0], parts[1..])
  }

  function FlagName(f: OsFlag): string {
    match f
    case Eol => "--EOL"
    case Cpus => "--cpus"
    case HomeDir => "--homedir"
    case UserName => "--username"
    case Architecture => "--architecture"
  }

  /** The inner switch of the `os` case. */
  function ParseFlag(arg: string): Option<OsFlag> {
    if arg == "--EOL" then Some(Eol)
    else if arg == "--cpus" then Some(Cpus)
    else if arg == "--homedir" then Some(HomeDir)
    else if arg == "--username" then Some(UserName)
    else if arg == "--architecture" then Some(Architecture)
    else None
  }

  /** The switch of processCommand on the operation and its arguments. */
  function Dispatch(op: string, args: seq<string>): Parsed {
    if op == "up" then Parsed(Up)
    else if op == "cd" then (if |args| == 1 then Parsed(Cd(args[0])) else Invalid)
    else if op == "ls" then Parsed(Ls)
    else if op == "cat" then (if |args| == 1 then Parsed(Cat(args[0])) else Invalid)
    else if op == "add" then (if |args| == 1 then Parsed(Add(args[0])) else Invalid)
    else if op == "rn" then (if |args| == 2 then Parsed(Rn(args[0], args[1])) else Invalid)
    else if op == "cp" then (if |args| == 2 then Parsed(Cp(args[0], args[1])) else Invalid)
    else if op == "mv" then (if |args| == 2 then Parsed(Mv(args[0], args[1])) else Invalid)
    else if op == "rm" then (if |args| == 1 then Parsed(Rm(args[0])) else Invalid)
    else if op == "os" then
      (if |args| == 1 then
         match ParseFlag(args[0]) case Some(f) => Parsed(Os(f)) case None => Invalid
       else Invalid)
    else Invalid
  }

  /** processCommand's decision for one line. */
  function Parse(line: string): Parsed {
    var (op, args) := Tokenise(line);
    Dispatch(op, args)
  }

  // ---------------------------------------------------------------------
  // The table the switch implements, stated independently

  /** How many arguments an operation takes: up and ls never look at theirs. */
  datatype Arity = Unchecked | Exactly(n: nat) | Unknown

  function ArityOf(op: string): Arity {
    if op in {"up", "ls"} then Unchecked
    else if op in {"cd", "cat", "add", "rm", "os"} then Exactly(1)
    else if op in {"rn", "cp", "mv"} then Exactly(2)
    else Unknown
  }

  /** The operation word of a command. */
  function Name(c: Command): string {
    match c
    case Up => "up"
    case Cd(_) => "cd"
    case Ls => "ls"
    case Cat(_) => "cat"
    case Add(_) => "add"
    case Rn(_, _) => "rn"
    case Cp(_, _) => "cp"
    case Mv(_, _) => "mv"
    case Rm(_) => "rm"
    case Os(_) => "os"
  }

  /** The arguments a command carries, flag included. */
  function Operands(c: Command): seq<string> {
    match c
    case Up => []
    case Ls => []
    case Cd(p) => [p]
    case Cat(p) => [p]
    case Add(n) => [n]
    case Rn(p, n) => [p, n]
    case Cp(s, d) => [s, d]
    case Mv(s, d) => [s, d]
    case Rm(p) => [p]
    case Os(f) => [FlagName(f)]
  }

  /** The line that asks for a command: its words separated by one space. */
  function Unparse(c: Command): string {
    JoinWith([Name(c)] + Operands(c), ' ')
  }

  /** Arguments that survive tokenising unchanged: no space inside, and the
      last one non-empty and not ending in whitespace (trim would eat it). */
  predicate WellFormedOperands(args: seq<string>) {
    && (forall i :: 0 <= i < |args| ==> ' ' !in args[i])
    && (args != [] ==> args[|args| - 1] != [] && !IsWhitespace(args[|args| - 1][|args[|args| - 1]| - 1]))
  }

  // ---------------------------------------------------------------------
  // Properties

  /** The flag switch accepts exactly the five flag names. */
  lemma ParseFlagExact(arg: string, f: OsFlag)
    ensures ParseFlag(arg) == Some(f) <==> arg == FlagName(f)
  {
  }

  /** A line is accepted exactly when its operation is up or ls (whatever
      follows), or is in the table with exactly the right number of
      arguments and, for os, a known flag. */
  lemma DispatchAcceptsExactly(op: string, args: seq<string>)
    ensures Dispatch(op, args).Parsed? <==>
      match ArityOf(op)
      case Unchecked => true
      case Exactly(n) => |args| == n && (op == "os" ==> ParseFlag(args[0]).Some?)
      case Unknown => false
  {
  }

  /** An accepted command carries the operation it was asked for and, for a
      checked operation, exactly the arguments given. */
  lemma DispatchFaithful(op: string, args: seq<string>)
    requires Dispatch(op, args).Parsed?
    ensures Name(Dispatch(op, args).command) == op
    ensures ArityOf(op).Exactly? ==> Operands(Dispatch(op, args).command) == args
  {
    if op == "os" {
      var f := ParseFlag(args[0]).value;
      ParseFlagExact(args[0], f);
    }
  }

  /** A line built from space-free words, which trim leaves alone, splits
      back into those words. */
  lemma TokeniseWords(words: seq<string>)
    requires |words| >= 1 && forall i :: 0 <= i < |words| ==> ' ' !in words[i]
    requires IsTrimmed(JoinWith(words, ' '))
    ensures Tokenise(JoinWith(words, ' ')) == (words[0], words[1..])
  {
    TrimKeepsTrimmed(JoinWith(words, ' '));
    SplitJoin(words, ' ');
  }

  /** The first character of a join comes from the first piece. */
  lemma JoinFirst(words: seq<string>, sep: char)
    requires |words| >= 1 && words[0] != []
    ensures JoinWith(words, sep) != [] && JoinWith(words, sep)[0] == words[0][0]
  {
  }

  /** The last character of a join comes from the last piece. */
  lemma {:induction false} JoinLast(words: seq<string>, sep: char)
    requires |words| >= 1 && words[|words| - 1] != []
    ensures var j := JoinWith(words, sep);
      j != [] && j[|j| - 1] == words[|words| - 1][|words[|words| - 1]| - 1]
    decreases |words|
  {
    if |words| > 1 {
      JoinLast(words[1..], sep);
    }
  }

  /** Each command is what the switch makes of its own word and operands. */
  lemma DispatchOwnWords(c: Command)
    ensures Dispatch(Name(c), Operands(c)) == Parsed(c)
  {
    match c
    case Os(f) => ParseFlagExact(FlagName(f), f);
    case _ =>
  }

  /** Writing a command out and reading it back gives the command. */
  lemma ParseUnparse(c: Command)
    requires WellFormedOperands(Operands(c))
    ensures Parse(Unparse(c)) == Parsed(c)
  {
    var words := [Name(c)] + Operands(c);
    assert forall i :: 0 <= i < |words| ==> ' ' !in words[i] by {
      forall i | 0 <= i < |words| ensures ' ' !in words[i] {
        if i > 0 { assert words[i] == Operands(c)[i - 1]; }
      }
    }
    JoinFirst(words, ' ');
    JoinLast(words, ' ');
    TokeniseWords(words);
    assert words[1..] == Operands(c);
    DispatchOwnWords(c);
  }

  /** A blank line has the empty operation and is invalid input. */
  lemma BlankLineInvalid(line: string)
    requires Trim(line) == ""
    ensures Tokenise(line) == ("", [])
    ensures Parse(line) == Invalid
  {
    var parts := Split(Trim(line), ' ');
    assert parts == [[]];
    assert parts[0] == [] && parts[1..] == [];
    EmptyWordInvalid(parts[0], parts[1..]);
  }

  /** The switch rejects the empty operation word. */
  lemma EmptyWordInvalid(op: string, args: seq<string>)
    requires op == []
    ensures Dispatch(op, args) == Invalid
  {
    assert op != "up" && op != "cd" && op != "ls" && op != "cat" && op != "add";
    assert op != "rn" && op != "cp" && op != "mv" && op != "rm" && op != "os";
  }

  /** Two spaces after cd leave an empty argument in front of the path, so
      `cd  x` has two arguments and is invalid input. */
  lemma DoubleSpaceMakesEmptyArgument(x: string)
    requires x != [] && ' ' !in x && IsTrimmed(x)
    ensures Tokenise("cd  " + x) == ("cd", ["", x])
    ensures Parse("cd  " + x) == Invalid
  {
    var words := ["cd", "", x];
    assert JoinWith(words, ' ') == "cd  " + x by {
      assert words[1..] == ["", x] && words[2..] == [x];
      assert JoinWith(words[1..], ' ') == " " + x;
    }
    JoinLast(words, ' ');
    TokeniseWords(words);
    assert words[1..] == ["", x];
  }

  /** No operation of the table starts with a dot, so a line whose
      operation does is invalid input. */
  lemma DotOperationInvalid(line: string)
    requires Trim(line) != [] && Trim(line)[0] == '.'
    ensures Tokenise(line).0 != [] && Tokenise(line).0[0] == '.'
    ensures Parse(line) == Invalid
  {
    var t := Trim(line);
    assert t == [t[0]] + t[1..];
    SplitCons(t[0], t[1..], ' ');
    var (op, args) := Tokenise(line);
    DotWordInvalid(op, args);
  }

  /** The switch rejects any operation word starting with a dot. */
  lemma DotWordInvalid(op: string, args: seq<string>)
    requires op != [] && op[0] == '.'
    ensures Dispatch(op, args) == Invalid
  {
    assert op != "up" && op != "cd" && op != "ls" && op != "cat" && op != "add";
    assert op != "rn" && op != "cp" && op != "mv" && op != "rm" && op != "os";
  }

  /** processCommand has no `.exit` case: given that line on its own, it
      reports invalid input. */
  lemma ExitIsNotACommand(line: string)
    requires Trim(line) == ".exit"
    ensures Parse(line) == Invalid
  {
    DotOperationInvalid(line);
  }

  // ---------------------------------------------------------------------
  // The line handler

  /** What the `data` handler of startFileManager does with one input. */
  datatype LineAction = Exit | Process(command: string)

  function Classify(data: string): LineAction {
    var command := Trim(data);
    if command == ".exit" then Exit else Process(command)
  }

  /** The handler stops exactly on `.exit` with any surrounding whitespace,
      and otherwise processCommand sees the same command as the raw input
      would give it: trimming a second time changes nothing. */
  lemma ClassifyExact(data: string)
    ensures Classify(data) == Exit <==> Trim(data) == ".exit"
    ensures Classify(data).Process? ==> Parse(Classify(data).command) == Parse(data)
  {
    ParseTrimmed(data);
  }

  /** Trimming a line first leaves its parse as it was. */
  lemma ParseTrimmed(line: string)
    ensures Parse(Trim(line)) == Parse(line)
  {
    TrimIdempotent(line);
    assert Tokenise(Trim(line)) == Tokenise(line);
  }

  /** `process.argv[2].slice(11)`: what follows the eleven characters of
      `--username=`. */
  function Username(arg: string): string {
    if |arg| <= 11 then "" else arg[11..]
  }

  /** The user name given as `--username=<name>` is recovered exactly. */
  lemma UsernameOfFlag(name: string)
    ensures Username("--username=" + name) == name
  {
  }
}
