/** What one session of the file manager (src/index.js) does, as functions
    over its state: the current directory string and the filesystem. Each
    operation yields the state after it and the lines it prints. The class
    Shell.Session is proved to follow these functions. */
module Semantics {
  import opened Options
  import opened Strings
  import opened Paths
  import opened Order
  import FileSystem
  import Commands

  /** The label ls prints after a name. */
  datatype Label = Folder | File

  /** One console.log of the session, or the bytes cat streams out. */
  datatype Message =
    | Welcome(username: string)
    | YouAreIn(directory: string)
    | OperationFailed
    | InvalidInput
    | Entry(name: string, kind: Label)
    | FileData(bytes: seq<FileSystem.byte>)
    | OsReport(flag: Commands.OsFlag)
    | SomethingWentWrong
    | Goodbye(username: string)

  datatype State = State(cwd: string, fs: FileSystem.Fs)

  /** The state after an operation and what it printed. */
  datatype Step = Step(next: State, out: seq<Message>)

  /** What the data handler does with one chunk of input: go on, or print
      the farewell and end the process. */
  datatype Reply = Continue(step: Step) | Stop(out: seq<Message>)

  /** The session's invariant: the current directory is an absolute path
      string that names a directory of a well-formed filesystem. */
  predicate Valid(st: State) {
    && IsAbsolute(st.cwd)
    && FileSystem.Valid(st.fs)
    && FileSystem.IsDirAt(st.fs, st.cwd)
  }

  /** The location of the current directory. */
  function Location(st: State): Path
    requires Valid(st)
  {
    FileSystem.Lookup(st.fs, st.cwd).value
  }

  // ---------------------------------------------------------------------
  // The operations

  /** navigateUp (src/index.js:30-36). */
  function NavigateUp(st: State): Step
    requires Valid(st)
  {
    var parentDirectory := Dirname(st.cwd);
    var cwd := if parentDirectory != st.cwd then parentDirectory else st.cwd;
    Step(State(cwd, st.fs), [YouAreIn(cwd)])
  }

  /** changeDirectory (src/index.js:38-46). */
  function ChangeDirectory(st: State, directoryPath: string): Step
    requires Valid(st)
  {
    var absolutePath := GetAbsolutePath(st.cwd, directoryPath);
    if FileSystem.IsDirAt(st.fs, absolutePath) then
      Step(State(absolutePath, st.fs), [YouAreIn(absolutePath)])
    else
      Step(st, [OperationFailed, YouAreIn(st.cwd)])
  }

  function LabelOf(fs: FileSystem.Fs, p: Path): Label {
    if FileSystem.IsDir(fs, p) then Folder else File
  }

  /** The lines ls prints for the given names of entries of directory k. */
  function Entries(fs: FileSystem.Fs, k: Path, names: seq<string>): seq<Message> {
    seq(|names|, i requires 0 <= i < |names| => Entry(names[i], LabelOf(fs, k + [names[i]])))
  }

  /** The names in a listing, in order. */
  function Names(out: seq<Message>): seq<string> {
    seq(|out|, i requires 0 <= i < |out| => if out[i].Entry? then out[i].name else "")
  }

  /** listDirectoryContents (src/index.js:48-55): the entries of the current
      directory in sorted order, each with its label. fault stands for
      readdirSync failing. */
  ghost function ListDirectoryContents(st: State, fault: bool): Step
    requires Valid(st)
  {
    if fault then Step(st, [SomethingWentWrong])
    else
      var k := Location(st);
      Step(st, Entries(st.fs, k, SortedElements(FileSystem.Children(st.fs, k))))
  }

  /** readFile (src/index.js:57-65): the guard, and the bytes the stream
      delivers. */
  function ReadFile(st: State, filePath: string): Step
    requires Valid(st)
  {
    var absolutePath := GetAbsolutePath(st.cwd, filePath);
    if FileSystem.IsFileAt(st.fs, absolutePath) then
      Step(st, [FileData(FileSystem.BytesAt(st.fs, absolutePath))])
    else
      Step(st, [OperationFailed])
  }

  /** The outcome of a filesystem call: a thrown error (fault, or the call
      itself refusing) reaches the catch at src/index.js:242-245, which
      reports it with nothing changed; otherwise nothing is printed. */
  function Apply(st: State, result: Option<FileSystem.Fs>, fault: bool): Step {
    if fault || result.None? then Step(st, [SomethingWentWrong])
    else Step(State(st.cwd, result.value), [])
  }

  /** createFile (src/index.js:67-70): unguarded. */
  function CreateFile(st: State, fileName: string, fault: bool): Step
    requires Valid(st)
  {
    var absolutePath := Join(st.cwd, fileName);
    Apply(st, FileSystem.WriteFile(st.fs, absolutePath, []), fault)
  }

  /** renameFile (src/index.js:72-80): the new name is joined to the
      current directory. */
  function RenameFile(st: State, filePath: string, newFileName: string, fault: bool): Step
    requires Valid(st)
  {
    var absolutePath := GetAbsolutePath(st.cwd, filePath);
    var newPath := Join(st.cwd, newFileName);
    if FileSystem.IsFileAt(st.fs, absolutePath) then
      Apply(st, FileSystem.Rename(st.fs, absolutePath, newPath), fault)
    else
      Step(st, [OperationFailed])
  }

  /** copyFile (src/index.js:82-90). */
  function CopyFile(st: State, sourcePath: string, destinationPath: string, fault: bool): Step
    requires Valid(st)
  {
    var source := GetAbsolutePath(st.cwd, sourcePath);
    var destination := GetAbsolutePath(st.cwd, destinationPath);
    if FileSystem.IsFileAt(st.fs, source) then
      Apply(st, FileSystem.CopyFile(st.fs, source, destination), fault)
    else
      Step(st, [OperationFailed])
  }

  /** moveFile (src/index.js:92-100). */
  function MoveFile(st: State, sourcePath: string, destinationPath: string, fault: bool): Step
    requires Valid(st)
  {
    var source := GetAbsolutePath(st.cwd, sourcePath);
    var destination := GetAbsolutePath(st.cwd, destinationPath);
    if FileSystem.IsFileAt(st.fs, source) then
      Apply(st, FileSystem.Rename(st.fs, source, destination), fault)
    else
      Step(st, [OperationFailed])
  }

  /** deleteFile (src/index.js:102-109). */
  function DeleteFile(st: State, filePath: string, fault: bool): Step
    requires Valid(st)
  {
    var absolutePath := GetAbsolutePath(st.cwd, filePath);
    if FileSystem.IsFileAt(st.fs, absolutePath) then
      Apply(st, Some(FileSystem.Unlink(st.fs, absolutePath)), fault)
    else
      Step(st, [OperationFailed])
  }

  /** os.homedir() (src/index.js:123) and os.userInfo() (src/index.js:127)
      throw when the user has no home directory or no password entry. */
  predicate OsCanFail(flag: Commands.OsFlag) {
    flag == Commands.HomeDir || flag == Commands.UserName
  }

  /** The os helpers (src/index.js:111-132): their report, or, when one
      that can throw does (fault), the catch's message. */
  function ReportOs(st: State, flag: Commands.OsFlag, fault: bool): Step {
    if fault && OsCanFail(flag) then Step(st, [SomethingWentWrong])
    else Step(st, [OsReport(flag)])
  }

  /** The branches of processCommand's switch (src/index.js:139-224) once a
      command has been accepted. */
  ghost function Run(st: State, c: Commands.Command, fault: bool): Step
    requires Valid(st)
  {
    match c
    case Up => NavigateUp(st)
    case Cd(p) => ChangeDirectory(st, p)
    case Ls => ListDirectoryContents(st, fault)
    case Cat(p) => ReadFile(st, p)
    case Add(n) => CreateFile(st, n, fault)
    case Rn(p, n) => RenameFile(st, p, n, fault)
    case Cp(s, d) => CopyFile(st, s, d, fault)
    case Mv(s, d) => MoveFile(st, s, d, fault)
    case Rm(p) => DeleteFile(st, p, fault)
    case Os(f) => ReportOs(st, f, fault)
  }

  /** processCommand (src/index.js:136-225). */
  ghost function ProcessCommand(st: State, command: string, fault: bool): Step
    requires Valid(st)
  {
    match Commands.Parse(command)
    case Invalid => Step(st, [InvalidInput])
    case Parsed(c) => Run(st, c, fault)
  }

  /** The data handler of startFileManager (src/index.js:233-246). */
  ghost function HandleData(st: State, data: string, fault: bool, username: string): Reply
    requires Valid(st)
  {
    match Commands.Classify(data)
    case Exit => Stop([Goodbye(username)])
    case Process(command) => Continue(ProcessCommand(st, command, fault))
  }

  // ---------------------------------------------------------------------
  // The invariant

  lemma LocationIsKey(st: State)
    requires Valid(st)
    ensures Location(st) == Key(st.cwd)
    ensures FileSystem.IsDir(st.fs, Key(st.cwd))
  {
    FileSystem.LookupIsKey(st.fs, st.cwd);
  }

  /** A new well-formed filesystem with the same directories keeps the
      current directory where it was. */
  lemma KeepsDirectory(st: State, fs': FileSystem.Fs)
    requires Valid(st) && FileSystem.Valid(fs') && FileSystem.SameDirs(st.fs, fs')
    ensures Valid(State(st.cwd, fs'))
    ensures Location(State(st.cwd, fs')) == Location(st)
  {
    FileSystem.LookupSameDirs(st.fs, fs', st.cwd);
  }

  lemma ApplyKeepsValid(st: State, result: Option<FileSystem.Fs>, fault: bool)
    requires Valid(st)
    requires result.Some? ==> FileSystem.Valid(result.value) && FileSystem.SameDirs(st.fs, result.value)
    ensures Valid(Apply(st, result, fault).next)
    ensures FileSystem.SameDirs(st.fs, Apply(st, result, fault).next.fs)
  {
    if !fault && result.Some? {
      KeepsDirectory(st, result.value);
    }
  }

  lemma NavigateUpKeepsValid(st: State)
    requires Valid(st)
    ensures Valid(NavigateUp(st).next) && NavigateUp(st).next.fs == st.fs
  {
    FileSystem.DirnameIsDir(st.fs, st.cwd);
  }

  lemma CreateFileKeepsValid(st: State, fileName: string, fault: bool)
    requires Valid(st)
    ensures Valid(CreateFile(st, fileName, fault).next)
    ensures FileSystem.SameDirs(st.fs, CreateFile(st, fileName, fault).next.fs)
  {
    var target := Join(st.cwd, fileName);
    FileSystem.WriteFileEffect(st.fs, target, []);
    ApplyKeepsValid(st, FileSystem.WriteFile(st.fs, target, []), fault);
  }

  lemma RenameFileKeepsValid(st: State, filePath: string, newFileName: string, fault: bool)
    requires Valid(st)
    ensures Valid(RenameFile(st, filePath, newFileName, fault).next)
    ensures FileSystem.SameDirs(st.fs, RenameFile(st, filePath, newFileName, fault).next.fs)
  {
    var a, t := GetAbsolutePath(st.cwd, filePath), Join(st.cwd, newFileName);
    if FileSystem.IsFileAt(st.fs, a) {
      FileSystem.RenameEffect(st.fs, a, t);
      ApplyKeepsValid(st, FileSystem.Rename(st.fs, a, t), fault);
    }
  }

  lemma CopyFileKeepsValid(st: State, sourcePath: string, destinationPath: string, fault: bool)
    requires Valid(st)
    ensures Valid(CopyFile(st, sourcePath, destinationPath, fault).next)
    ensures FileSystem.SameDirs(st.fs, CopyFile(st, sourcePath, destinationPath, fault).next.fs)
  {
    var a, t := GetAbsolutePath(st.cwd, sourcePath), GetAbsolutePath(st.cwd, destinationPath);
    if FileSystem.IsFileAt(st.fs, a) {
      FileSystem.CopyFileEffect(st.fs, a, t);
      ApplyKeepsValid(st, FileSystem.CopyFile(st.fs, a, t), fault);
    }
  }

  lemma MoveFileKeepsValid(st: State, sourcePath: string, destinationPath: string, fault: bool)
    requires Valid(st)
    ensures Valid(MoveFile(st, sourcePath, destinationPath, fault).next)
    ensures FileSystem.SameDirs(st.fs, MoveFile(st, sourcePath, destinationPath, fault).next.fs)
  {
    var a, t := GetAbsolutePath(st.cwd, sourcePath), GetAbsolutePath(st.cwd, destinationPath);
    if FileSystem.IsFileAt(st.fs, a) {
      FileSystem.RenameEffect(st.fs, a, t);
      ApplyKeepsValid(st, FileSystem.Rename(st.fs, a, t), fault);
    }
  }

  lemma DeleteFileKeepsValid(st: State, filePath: string, fault: bool)
    requires Valid(st)
    ensures Valid(DeleteFile(st, filePath, fault).next)
    ensures FileSystem.SameDirs(st.fs, DeleteFile(st, filePath, fault).next.fs)
  {
    var a := GetAbsolutePath(st.cwd, filePath);
    if FileSystem.IsFileAt(st.fs, a) {
      FileSystem.UnlinkEffect(st.fs, a);
      ApplyKeepsValid(st, Some(FileSystem.Unlink(st.fs, a)), fault);
    }
  }

  /** Every command keeps the invariant, and none creates or removes a
      directory: in particular rm never removes one. */
  lemma RunKeepsValid(st: State, c: Commands.Command, fault: bool)
    requires Valid(st)
    ensures Valid(Run(st, c, fault).next)
    ensures FileSystem.SameDirs(st.fs, Run(st, c, fault).next.fs)
  {
    match c
    case Up => NavigateUpKeepsValid(st);
    case Cd(p) =>
    case Ls =>
    case Cat(p) =>
    case Add(n) => CreateFileKeepsValid(st, n, fault);
    case Rn(p, n) => RenameFileKeepsValid(st, p, n, fault);
    case Cp(s, d) => CopyFileKeepsValid(st, s, d, fault);
    case Mv(s, d) => MoveFileKeepsValid(st, s, d, fault);
    case Rm(p) => DeleteFileKeepsValid(st, p, fault);
    case Os(f) =>
  }

  lemma ProcessCommandKeepsValid(st: State, command: string, fault: bool)
    requires Valid(st)
    ensures Valid(ProcessCommand(st, command, fault).next)
  {
    match Commands.Parse(command)
    case Invalid =>
    case Parsed(c) => RunKeepsValid(st, c, fault);
  }

  /** Every line keeps the invariant. */
  lemma HandleDataKeepsValid(st: State, data: string, fault: bool, username: string)
    requires Valid(st)
    ensures HandleData(st, data, fault, username).Continue? ==>
      Valid(HandleData(st, data, fault, username).step.next)
  {
    if Commands.Classify(data).Process? {
      ProcessCommandKeepsValid(st, Commands.Classify(data).command, fault);
    }
  }

  // ---------------------------------------------------------------------
  // What each command may touch

  /** Invalid input is reported exactly for the lines processCommand
      rejects, and it changes nothing. */
  lemma InvalidInputChangesNothing(st: State, command: string, fault: bool)
    requires Valid(st)
    ensures ProcessCommand(st, command, fault) == Step(st, [InvalidInput])
      <==> Commands.Parse(command) == Commands.Invalid
  {
    match Commands.Parse(command)
    case Invalid =>
    case Parsed(c) => RunNeverInvalid(st, c, fault);
  }

  lemma RunNeverInvalid(st: State, c: Commands.Command, fault: bool)
    requires Valid(st)
    ensures Run(st, c, fault).out != [InvalidInput]
  {
    if c.Ls? && !fault {
      var k := Location(st);
      var out := Entries(st.fs, k, SortedElements(FileSystem.Children(st.fs, k)));
      assert Run(st, c, fault).out == out;
      assert out != [] ==> out[0].Entry?;
    }
  }

  /** Only up and cd move the current directory; only add, rn, cp, mv and
      rm change the filesystem. */
  lemma RunFrame(st: State, c: Commands.Command, fault: bool)
    requires Valid(st)
    ensures Run(st, c, fault).next.cwd != st.cwd ==> c.Up? || c.Cd?
    ensures Run(st, c, fault).next.fs != st.fs ==> c.Add? || c.Rn? || c.Cp? || c.Mv? || c.Rm?
  {
    match c
    case Up => assert NavigateUp(st).next.fs == st.fs;
    case Cd(p) => assert ChangeDirectory(st, p).next.fs == st.fs;
    case Ls => assert ListDirectoryContents(st, fault).next == st;
    case Cat(p) => assert ReadFile(st, p).next == st;
    case Add(n) => assert CreateFile(st, n, fault).next.cwd == st.cwd;
    case Rn(p, n) => assert RenameFile(st, p, n, fault).next.cwd == st.cwd;
    case Cp(a, d) => assert CopyFile(st, a, d, fault).next.cwd == st.cwd;
    case Mv(a, d) => assert MoveFile(st, a, d, fault).next.cwd == st.cwd;
    case Rm(p) => assert DeleteFile(st, p, fault).next.cwd == st.cwd;
    case Os(f) =>
  }

  /** os changes nothing. It reports what was asked for, except that
      --homedir and --username, and only those, reach the catch when their
      call throws. */
  lemma ReportOsEffect(st: State, flag: Commands.OsFlag, fault: bool)
    requires Valid(st)
    ensures Run(st, Commands.Os(flag), fault).next == st
    ensures Run(st, Commands.Os(flag), fault).out == [SomethingWentWrong]
      <==> fault && (flag == Commands.HomeDir || flag == Commands.UserName)
    ensures Run(st, Commands.Os(flag), fault).out != [SomethingWentWrong]
      ==> Run(st, Commands.Os(flag), fault).out == [OsReport(flag)]
  {
    assert Run(st, Commands.Os(flag), fault) == ReportOs(st, flag, fault);
  }

  /** The commands that first check their source. */
  predicate Guarded(c: Commands.Command) {
    c.Cat? || c.Rn? || c.Cp? || c.Mv? || c.Rm?
  }

  /** The operand the guard of a guarded command checks. */
  function SourceOf(c: Commands.Command): string
    requires Guarded(c)
  {
    match c
    case Cat(p) => p
    case Rn(p, _) => p
    case Cp(s, _) => s
    case Mv(s, _) => s
    case Rm(p) => p
  }

  /** cat, rn, cp, mv and rm report failure, changing nothing, exactly when
      their resolved source is not an existing regular file. */
  lemma GuardedCommandsNeedAFile(st: State, c: Commands.Command, fault: bool)
    requires Valid(st) && Guarded(c)
    ensures Run(st, c, fault) == Step(st, [OperationFailed])
      <==> !FileSystem.IsFileAt(st.fs, GetAbsolutePath(st.cwd, SourceOf(c)))
  {
    match c
    case Cat(p) =>
      assert Run(st, c, fault) == ReadFile(st, p);
      ReadFileGuard(st, p);
    case Rn(p, n) =>
      assert Run(st, c, fault) == RenameFile(st, p, n, fault);
      RenameFileGuard(st, p, n, fault);
    case Cp(s, d) =>
      assert Run(st, c, fault) == CopyFile(st, s, d, fault);
      CopyFileGuard(st, s, d, fault);
    case Mv(s, d) =>
      assert Run(st, c, fault) == MoveFile(st, s, d, fault);
      MoveFileGuard(st, s, d, fault);
    case Rm(p) =>
      assert Run(st, c, fault) == DeleteFile(st, p, fault);
      DeleteFileGuard(st, p, fault);
  }

  /** A filesystem call that has been attempted never reports the guard's
      failure message. */
  lemma ApplyNeverFails(st: State, result: Option<FileSystem.Fs>, fault: bool)
    ensures Apply(st, result, fault).out != [OperationFailed]
  {
  }

  lemma ReadFileGuard(st: State, filePath: string)
    requires Valid(st)
    ensures ReadFile(st, filePath) == Step(st, [OperationFailed])
      <==> !FileSystem.IsFileAt(st.fs, GetAbsolutePath(st.cwd, filePath))
  {
    if FileSystem.IsFileAt(st.fs, GetAbsolutePath(st.cwd, filePath)) {
      assert ReadFile(st, filePath).out[0].FileData?;
    }
  }

  lemma RenameFileGuard(st: State, filePath: string, newFileName: string, fault: bool)
    requires Valid(st)
    ensures RenameFile(st, filePath, newFileName, fault) == Step(st, [OperationFailed])
      <==> !FileSystem.IsFileAt(st.fs, GetAbsolutePath(st.cwd, filePath))
  {
    var a := GetAbsolutePath(st.cwd, filePath);
    if FileSystem.IsFileAt(st.fs, a) {
      ApplyNeverFails(st, FileSystem.Rename(st.fs, a, Join(st.cwd, newFileName)), fault);
    }
  }

  lemma CopyFileGuard(st: State, sourcePath: string, destinationPath: string, fault: bool)
    requires Valid(st)
    ensures CopyFile(st, sourcePath, destinationPath, fault) == Step(st, [OperationFailed])
      <==> !FileSystem.IsFileAt(st.fs, GetAbsolutePath(st.cwd, sourcePath))
  {
    var a, t := GetAbsolutePath(st.cwd, sourcePath), GetAbsolutePath(st.cwd, destinationPath);
    if FileSystem.IsFileAt(st.fs, a) {
      ApplyNeverFails(st, FileSystem.CopyFile(st.fs, a, t), fault);
    }
  }

  lemma MoveFileGuard(st: State, sourcePath: string, destinationPath: string, fault: bool)
    requires Valid(st)
    ensures MoveFile(st, sourcePath, destinationPath, fault) == Step(st, [OperationFailed])
      <==> !FileSystem.IsFileAt(st.fs, GetAbsolutePath(st.cwd, sourcePath))
  {
    var a, t := GetAbsolutePath(st.cwd, sourcePath), GetAbsolutePath(st.cwd, destinationPath);
    if FileSystem.IsFileAt(st.fs, a) {
      ApplyNeverFails(st, FileSystem.Rename(st.fs, a, t), fault);
    }
  }

  lemma DeleteFileGuard(st: State, filePath: string, fault: bool)
    requires Valid(st)
    ensures DeleteFile(st, filePath, fault) == Step(st, [OperationFailed])
      <==> !FileSystem.IsFileAt(st.fs, GetAbsolutePath(st.cwd, filePath))
  {
    var a := GetAbsolutePath(st.cwd, filePath);
    if FileSystem.IsFileAt(st.fs, a) {
      ApplyNeverFails(st, Some(FileSystem.Unlink(st.fs, a)), fault);
    }
  }

  // ---------------------------------------------------------------------
  // up and cd

  /** up leaves the filesystem alone, prints where it lands, and stays put
      exactly at the root "/". */
  lemma NavigateUpAtRoot(st: State)
    requires Valid(st)
    ensures NavigateUp(st).next.fs == st.fs
    ensures NavigateUp(st).out == [YouAreIn(NavigateUp(st).next.cwd)]
    ensures NavigateUp(st).next.cwd == st.cwd <==> st.cwd == "/"
  {
    DirnameFixedIffRoot(st.cwd);
  }

  /** From a directory in canonical form other than the root, up goes to
      the parent: one segment shorter. */
  lemma NavigateUpToParent(st: State, p: Path)
    requires Valid(st) && IsCanonical(p) && p != [] && st.cwd == Render(p)
    ensures NavigateUp(st).next.cwd == Render(Up(p))
    ensures Key(NavigateUp(st).next.cwd) == Up(p) && |Up(p)| == |p| - 1
  {
    DirnameRender(p);
    DirnameFixedIffRoot(st.cwd);
    assert IsCanonical(Up(p));
    KeyRender(Up(p));
  }

  /** An absolute cd keeps its string verbatim, so after cd to "/p/n/.."
      the session is at p while its string still ends in "..". Since dirname
      only cuts the string, up then goes one segment DOWN, to p/n. */
  lemma NavigateUpCanDescend(st: State, p: Path, n: string)
    requires Valid(st) && IsCanonical(p) && IsName(n) && st.cwd == Render(p)
    requires FileSystem.IsDir(st.fs, p + [n])
    ensures var there := ChangeDirectory(st, Render(p + [n]) + "/..").next;
      && there.cwd == Render(p + [n]) + "/.."
      && Valid(there) && Location(there) == p
      && Valid(NavigateUp(there).next) && Location(NavigateUp(there).next) == p + [n]
      && |Location(NavigateUp(there).next)| == |Location(there)| + 1
  {
    var q := p + [n];
    assert IsCanonical(q);
    var s := Render(q) + "/..";
    assert s == Render(q) + ['/'] + "..";
    SplitAtSep(Render(q), "..", '/');
    SplitNoSep("..", '/');
    FileSystem.LookupRender(st.fs, q);
    FileSystem.WalkAppend(st.fs, [], Split(Render(q), '/'), [".."]);
    assert Up(q) == p;
    assert FileSystem.Walk(st.fs, q, [".."]) == Some(p);
    assert FileSystem.Lookup(st.fs, s) == Some(p);
    var there := ChangeDirectory(st, s).next;
    assert there.cwd == s;
    assert |Render(q)| >= 2;
    DirnameOfChild(Render(q), "..");
    assert Dirname(s) == Render(q);
    FileSystem.LookupRender(st.fs, q);
    assert NavigateUp(there).next.cwd == Render(q);
    NavigateUpKeepsValid(there);
  }

  /** cd moves to the resolved target exactly when it is an existing
      directory, printing it; otherwise it reports failure, stays, and
      prints the unchanged directory. It never touches the filesystem. */
  lemma ChangeDirectoryIff(st: State, directoryPath: string)
    requires Valid(st)
    ensures var r := ChangeDirectory(st, directoryPath);
      var target := GetAbsolutePath(st.cwd, directoryPath);
      && r.next.fs == st.fs
      && (FileSystem.IsDirAt(st.fs, target) <==> r.out == [YouAreIn(target)])
      && (FileSystem.IsDirAt(st.fs, target) ==> r.next.cwd == target)
      && (!FileSystem.IsDirAt(st.fs, target) <==> r.out == [OperationFailed, YouAreIn(st.cwd)])
      && (!FileSystem.IsDirAt(st.fs, target) ==> r.next == st)
  {
  }

  /** A relative cd lands where normalising its pieces on top of the
      current directory's location leads, and the new current directory
      string is in canonical form. */
  lemma ChangeDirectoryRelative(st: State, directoryPath: string)
    requires Valid(st) && !IsAbsolute(directoryPath)
    requires FileSystem.IsDirAt(st.fs, GetAbsolutePath(st.cwd, directoryPath))
    ensures var next := ChangeDirectory(st, directoryPath).next;
      && Location(next) == NormaliseFrom(Key(st.cwd), Split(directoryPath, '/'))
      && next.cwd == Render(Location(next))
  {
    var next := ChangeDirectory(st, directoryPath).next;
    GetAbsolutePathLocation(st.cwd, directoryPath);
    LocationIsKey(next);
  }

  /** From a directory in canonical form, `cd ..` and then cd into the
      directory just left comes back to the same state. */
  lemma ChangeDirectoryUpThenBack(st: State, p: Path, n: string)
    requires Valid(st) && IsCanonical(p) && IsName(n) && st.cwd == Render(p + [n])
    ensures ChangeDirectory(ChangeDirectory(st, "..").next, n).next == st
  {
    ResolveUpThenDown(p, n);
    LocationIsKey(st);
    KeyRender(p + [n]);
    assert Up(p + [n]) == p;
    FileSystem.LookupRender(st.fs, p);
  }

  // ---------------------------------------------------------------------
  // ls and cat

  /** The path ls builds for a name of the current directory reaches that
      entry, so the label it prints is the entry's own. */
  lemma EntryPath(st: State, name: string)
    requires Valid(st) && Location(st) + [name] in st.fs
    ensures FileSystem.IsDirAt(st.fs, Join(st.cwd, name)) == FileSystem.IsDir(st.fs, Location(st) + [name])
  {
    var child := Location(st) + [name];
    LocationIsKey(st);
    assert IsName(child[|child| - 1]);
    JoinName(st.cwd, name);
    FileSystem.LookupRender(st.fs, child);
  }

  lemma EntriesSnoc(fs: FileSystem.Fs, k: Path, names: seq<string>, name: string)
    ensures Entries(fs, k, names + [name]) == Entries(fs, k, names) + [Entry(name, LabelOf(fs, k + [name]))]
  {
  }

  lemma NamesOfEntries(fs: FileSystem.Fs, k: Path, names: seq<string>)
    ensures Names(Entries(fs, k, names)) == names
  {
  }

  /** ls changes nothing and, unless the directory cannot be read, prints
      each entry of the current directory exactly once, in ascending order,
      labelled Folder exactly when it is a directory. */
  lemma ListDirectoryContentsEffect(st: State, fault: bool)
    requires Valid(st)
    ensures ListDirectoryContents(st, fault).next == st
    ensures fault ==> ListDirectoryContents(st, fault).out == [SomethingWentWrong]
    ensures !fault ==>
      var out := ListDirectoryContents(st, fault).out;
      && (forall i :: 0 <= i < |out| ==> out[i].Entry?)
      && StrictlySorted(Names(out))
      && (forall name :: name in Names(out) <==> Key(st.cwd) + [name] in st.fs)
      && (forall i :: 0 <= i < |out| ==>
            (out[i].kind == Folder <==> FileSystem.IsDir(st.fs, Key(st.cwd) + [out[i].name])))
  {
    if !fault {
      var k := Location(st);
      LocationIsKey(st);
      var names := SortedElements(FileSystem.Children(st.fs, k));
      NamesOfEntries(st.fs, k, names);
      forall name ensures name in names <==> k + [name] in st.fs {
        FileSystem.ChildrenExact(st.fs, k, name);
      }
    }
  }

  /** cat changes nothing; it shows the file's bytes exactly when the
      resolved path is an existing regular file. */
  lemma ReadFileEffect(st: State, filePath: string)
    requires Valid(st)
    ensures ReadFile(st, filePath).next == st
    ensures var absolutePath := GetAbsolutePath(st.cwd, filePath);
      && (FileSystem.IsFileAt(st.fs, absolutePath) ==>
            && FileSystem.IsFile(st.fs, Key(absolutePath))
            && ReadFile(st, filePath).out == [FileData(st.fs[Key(absolutePath)].bytes)])
      && (!FileSystem.IsFileAt(st.fs, absolutePath) ==> ReadFile(st, filePath).out == [OperationFailed])
  {
    var absolutePath := GetAbsolutePath(st.cwd, filePath);
    if FileSystem.IsFileAt(st.fs, absolutePath) {
      FileSystem.LookupIsKey(st.fs, absolutePath);
    }
  }

  // ---------------------------------------------------------------------
  // The filesystem commands

  /** add writes an empty regular file at the name joined to the current
      directory, replacing a regular file already there without a check;
      it fails, changing nothing, when the call errs or that path is a
      directory or cannot be reached. A name with no ".." piece lands at or
      under the current directory, even when it is absolute. */
  lemma CreateFileEffect(st: State, fileName: string, fault: bool)
    requires Valid(st)
    ensures var r := CreateFile(st, fileName, fault);
      var target := Join(st.cwd, fileName);
      && (r.out == [SomethingWentWrong] <==>
            fault || FileSystem.Lookup(st.fs, target).None? || FileSystem.IsDirAt(st.fs, target))
      && (r.out == [SomethingWentWrong] ==> r.next == st)
      && (r.out != [SomethingWentWrong] ==>
            r.out == [] && r.next == State(st.cwd, st.fs[Key(target) := FileSystem.File([])]))
      && (Descends(fileName) ==> Below(Key(target), Key(st.cwd)))
  {
    var target := Join(st.cwd, fileName);
    if FileSystem.Lookup(st.fs, target).Some? {
      FileSystem.LookupIsKey(st.fs, target);
    }
    if Descends(fileName) {
      JoinStaysUnder(st.cwd, fileName);
    }
  }

  /** For a plain name, add puts an empty file into the current directory
      under that name. */
  lemma CreateFileName(st: State, fileName: string)
    requires Valid(st) && IsName(fileName)
    requires !FileSystem.IsDir(st.fs, Key(st.cwd) + [fileName])
    ensures CreateFile(st, fileName, false) ==
      Step(State(st.cwd, st.fs[Key(st.cwd) + [fileName] := FileSystem.File([])]), [])
  {
    var child := Key(st.cwd) + [fileName];
    JoinName(st.cwd, fileName);
    LocationIsKey(st);
    assert Up(child) == Key(st.cwd);
    FileSystem.LookupRender(st.fs, child);
    KeyRender(child);
  }

  /** A file added under a plain name reads back as empty. */
  lemma AddThenCat(st: State, fileName: string)
    requires Valid(st) && IsName(fileName)
    requires CreateFile(st, fileName, false).out == []
    ensures var next := CreateFile(st, fileName, false).next;
      Valid(next) && ReadFile(next, fileName) == Step(next, [FileData([])])
  {
    var target := Join(st.cwd, fileName);
    JoinName(st.cwd, fileName);
    assert GetAbsolutePath(st.cwd, fileName) == target;
    var written := FileSystem.WriteFile(st.fs, target, []);
    assert written.Some?;
    FileSystem.WriteFileEffect(st.fs, target, []);
    ApplyKeepsValid(st, written, false);
    var next := State(st.cwd, written.value);
    assert CreateFile(st, fileName, false).next == next;
    assert FileSystem.IsFileAt(next.fs, target) && FileSystem.BytesAt(next.fs, target) == [];
  }

  /** The outcome shared by rn and mv once the source is a regular file:
      failure, changing nothing, when the call errs or the destination is a
      directory or cannot be reached; otherwise the source's entry moves to
      the destination, replacing a file there, and nothing else changes. */
  predicate Relocates(st: State, r: Step, source: string, destination: string, fault: bool)
    requires Valid(st) && IsAbsolute(source) && IsAbsolute(destination)
    requires FileSystem.IsFileAt(st.fs, source)
  {
    && FileSystem.IsFile(st.fs, Key(source))
    && (r.out == [SomethingWentWrong] <==>
          fault || FileSystem.Lookup(st.fs, destination).None? || FileSystem.IsDirAt(st.fs, destination))
    && (r.out == [SomethingWentWrong] ==> r.next == st)
    && (r.out != [SomethingWentWrong] ==>
          && r.out == []
          && r.next == State(st.cwd, (st.fs - {Key(source)})[Key(destination) := st.fs[Key(source)]]))
  }

  lemma RenameKeys(st: State, r: Step, source: string, destination: string, fault: bool)
    requires Valid(st) && IsAbsolute(source) && IsAbsolute(destination)
    requires FileSystem.IsFileAt(st.fs, source)
    requires r == Apply(st, FileSystem.Rename(st.fs, source, destination), fault)
    ensures Relocates(st, r, source, destination, fault)
  {
    FileSystem.LookupIsKey(st.fs, source);
    if FileSystem.Lookup(st.fs, destination).Some? {
      FileSystem.LookupIsKey(st.fs, destination);
    }
  }

  /** rn moves a regular file to the new name joined to the current
      directory; a new name with no ".." piece stays at or under it. */
  lemma RenameFileEffect(st: State, filePath: string, newFileName: string, fault: bool)
    requires Valid(st)
    requires FileSystem.IsFileAt(st.fs, GetAbsolutePath(st.cwd, filePath))
    ensures Relocates(st, RenameFile(st, filePath, newFileName, fault),
      GetAbsolutePath(st.cwd, filePath), Join(st.cwd, newFileName), fault)
    ensures Descends(newFileName) ==> Below(Key(Join(st.cwd, newFileName)), Key(st.cwd))
  {
    var a, t := GetAbsolutePath(st.cwd, filePath), Join(st.cwd, newFileName);
    RenameKeys(st, RenameFile(st, filePath, newFileName, fault), a, t, fault);
    if Descends(newFileName) {
      JoinStaysUnder(st.cwd, newFileName);
    }
  }

  /** mv moves a regular file to the resolved destination. */
  lemma MoveFileEffect(st: State, sourcePath: string, destinationPath: string, fault: bool)
    requires Valid(st)
    requires FileSystem.IsFileAt(st.fs, GetAbsolutePath(st.cwd, sourcePath))
    ensures Relocates(st, MoveFile(st, sourcePath, destinationPath, fault),
      GetAbsolutePath(st.cwd, sourcePath), GetAbsolutePath(st.cwd, destinationPath), fault)
  {
    var a, t := GetAbsolutePath(st.cwd, sourcePath), GetAbsolutePath(st.cwd, destinationPath);
    RenameKeys(st, MoveFile(st, sourcePath, destinationPath, fault), a, t, fault);
  }

  /** cp, once the source is a regular file: failure, changing nothing,
      when the call errs or the destination is a directory or cannot be
      reached; otherwise the destination holds a copy of the source, the
      source stays, and nothing else changes. */
  lemma CopyFileEffect(st: State, sourcePath: string, destinationPath: string, fault: bool)
    requires Valid(st)
    requires FileSystem.IsFileAt(st.fs, GetAbsolutePath(st.cwd, sourcePath))
    ensures var r := CopyFile(st, sourcePath, destinationPath, fault);
      var source := GetAbsolutePath(st.cwd, sourcePath);
      var destination := GetAbsolutePath(st.cwd, destinationPath);
      && FileSystem.IsFile(st.fs, Key(source))
      && (r.out == [SomethingWentWrong] <==>
            fault || FileSystem.Lookup(st.fs, destination).None? || FileSystem.IsDirAt(st.fs, destination))
      && (r.out == [SomethingWentWrong] ==> r.next == st)
      && (r.out != [SomethingWentWrong] ==>
            && r.out == []
            && r.next == State(st.cwd, st.fs[Key(destination) := st.fs[Key(source)]])
            && Key(source) in r.next.fs && r.next.fs[Key(source)] == st.fs[Key(source)])
  {
    var source := GetAbsolutePath(st.cwd, sourcePath);
    var destination := GetAbsolutePath(st.cwd, destinationPath);
    FileSystem.LookupIsKey(st.fs, source);
    if FileSystem.Lookup(st.fs, destination).Some? {
      FileSystem.LookupIsKey(st.fs, destination);
    }
  }

  /** rm, once the source is a regular file, removes exactly that entry,
      unless the call errs, in which case nothing changes. */
  lemma DeleteFileEffect(st: State, filePath: string, fault: bool)
    requires Valid(st)
    requires FileSystem.IsFileAt(st.fs, GetAbsolutePath(st.cwd, filePath))
    ensures var r := DeleteFile(st, filePath, fault);
      var absolutePath := GetAbsolutePath(st.cwd, filePath);
      && (fault ==> r == Step(st, [SomethingWentWrong]))
      && (!fault ==> r == Step(State(st.cwd, st.fs - {Key(absolutePath)}), []))
      && FileSystem.IsFile(st.fs, Key(absolutePath))
  {
    FileSystem.LookupIsKey(st.fs, GetAbsolutePath(st.cwd, filePath));
  }

  // ---------------------------------------------------------------------
  // The line handler

  /** The handler ends the session exactly on ".exit", whatever whitespace
      surrounds it, with the farewell naming the user; any other input is
      handled as processCommand would handle the raw input. */
  lemma HandleDataExact(st: State, data: string, fault: bool, username: string)
    requires Valid(st)
    ensures HandleData(st, data, fault, username).Stop? <==> Trim(data) == ".exit"
    ensures HandleData(st, data, fault, username).Stop? ==>
      HandleData(st, data, fault, username).out == [Goodbye(username)]
    ensures HandleData(st, data, fault, username).Continue? ==>
      HandleData(st, data, fault, username).step == ProcessCommand(st, data, fault)
  {
    Commands.ClassifyExact(data);
    if Commands.Classify(data).Process? {
      ProcessCommandByParse(st, Trim(data), data, fault);
    }
  }

  /** processCommand depends on its line only through the parse. */
  lemma ProcessCommandByParse(st: State, a: string, b: string, fault: bool)
    requires Valid(st) && Commands.Parse(a) == Commands.Parse(b)
    ensures ProcessCommand(st, a, fault) == ProcessCommand(st, b, fault)
  {
  }
}
