/** The session as the program runs it: the global currentDirectory
    (src/index.js:5), the filesystem the `fs` calls act on, and the user name
    taken from the command line. Each method changes the session the way the
    function of the same name in Semantics says, and returns what it
    prints. */
module Shell {
  import opened Options
  import opened Strings
  import opened Paths
  import opened Order
  import FileSystem
  import Commands
  import opened Semantics

  class Session {
    var currentDirectory: string
    var fileSystem: FileSystem.Fs
    const username: string
    /** process.argv[2], the argument the user name is cut from. */
    ghost const argument: string

    ghost function Snapshot(): State
      reads this
    {
      State(currentDirectory, fileSystem)
    }

    ghost predicate Valid()
      reads this
    {
      && Semantics.Valid(Snapshot())
      && username == Commands.Username(argument)
    }

    /** A session started in directory cwd (process.cwd()) with argument
        the first command-line argument (process.argv[2],
        src/index.js:229). */
    constructor (cwd: string, fs: FileSystem.Fs, argument: string)
      requires Semantics.Valid(State(cwd, fs))
      ensures Valid() && Snapshot() == State(cwd, fs)
      ensures this.argument == argument
      ensures username == Commands.Username(argument)
    {
      currentDirectory := cwd;
      fileSystem := fs;
      this.argument := argument;
      username := Commands.Username(argument);
    }

    /** The greeting of startFileManager (src/index.js:230-231): for an
        argument of the form --username=<name>, it welcomes exactly <name>. */
    method Greet() returns (out: seq<Message>)
      requires Valid()
      ensures out == [Welcome(username), YouAreIn(currentDirectory)]
      ensures |argument| > 11 && argument[..11] == "--username=" ==>
        argument == "--username=" + out[0].username
    {
      out := [Welcome(username), YouAreIn(currentDirectory)];
    }

    method NavigateUp() returns (out: seq<Message>)
      requires Valid()
      modifies this`currentDirectory
      ensures Valid()
      ensures Step(Snapshot(), out) == Semantics.NavigateUp(old(Snapshot()))
    {
      var parentDirectory := Dirname(currentDirectory);
      if parentDirectory != currentDirectory {
        FileSystem.DirnameIsDir(fileSystem, currentDirectory);
        currentDirectory := parentDirectory;
      }
      out := [YouAreIn(currentDirectory)];
    }

    method ChangeDirectory(directoryPath: string) returns (out: seq<Message>)
      requires Valid()
      modifies this`currentDirectory
      ensures Valid()
      ensures Step(Snapshot(), out) == Semantics.ChangeDirectory(old(Snapshot()), directoryPath)
    {
      var absolutePath := GetAbsolutePath(currentDirectory, directoryPath);
      if FileSystem.IsDirAt(fileSystem, absolutePath) {
        currentDirectory := absolutePath;
        out := [];
      } else {
        out := [OperationFailed];
      }
      out := out + [YouAreIn(currentDirectory)];
    }

    /** Reads the directory, sorts the names and prints one line per name,
        labelled by a stat of the joined path. */
    method ListDirectoryContents(fault: bool) returns (out: seq<Message>)
      requires Valid()
      ensures out == Semantics.ListDirectoryContents(Snapshot(), fault).out
    {
      if fault {
        return [SomethingWentWrong];
      }
      var entries := FileSystem.ReadDir(fileSystem, currentDirectory);
      var contents := Sort(entries);
      ghost var k := Location(Snapshot());
      out := [];
      var i := 0;
      while i < |contents|
        invariant 0 <= i <= |contents|
        invariant out == Entries(fileSystem, k, contents[..i])
      {
        var item := contents[i];
        ListedIsEntry(entries, contents, i);
        var itemPath := Join(currentDirectory, item);
        var itemType := if FileSystem.IsDirAt(fileSystem, itemPath) then Folder else File;
        EntriesSnoc(fileSystem, k, contents[..i], item);
        PrefixSnoc(contents, i);
        out := out + [Entry(item, itemType)];
        i := i + 1;
      }
      assert contents[..i] == contents;
      SortIgnoresOrder(entries, FileSystem.Children(fileSystem, k));
    }

    /** Every name in the sorted listing names an entry of the current
        directory, and the path built for it is labelled by that entry. */
    lemma ListedIsEntry(entries: seq<string>, contents: seq<string>, i: nat)
      requires Valid()
      requires forall n :: n in entries <==> n in FileSystem.Children(fileSystem, Location(Snapshot()))
      requires multiset(contents) == multiset(entries) && i < |contents|
      ensures Location(Snapshot()) + [contents[i]] in fileSystem
      ensures LabelOf(fileSystem, Location(Snapshot()) + [contents[i]]) ==
        if FileSystem.IsDirAt(fileSystem, Join(currentDirectory, contents[i])) then Folder else File
    {
      var item := contents[i];
      assert item in multiset(contents);
      FileSystem.ChildrenExact(fileSystem, Location(Snapshot()), item);
      EntryPath(Snapshot(), item);
    }

    method ReadFile(filePath: string) returns (out: seq<Message>)
      requires Valid()
      ensures out == Semantics.ReadFile(Snapshot(), filePath).out
    {
      var absolutePath := GetAbsolutePath(currentDirectory, filePath);
      if FileSystem.IsFileAt(fileSystem, absolutePath) {
        out := [FileData(FileSystem.BytesAt(fileSystem, absolutePath))];
      } else {
        out := [OperationFailed];
      }
    }

    /** Installs the outcome of a filesystem call, or reports the error the
        catch of the data handler receives. */
    method Commit(result: Option<FileSystem.Fs>, fault: bool) returns (out: seq<Message>)
      requires Valid()
      requires result.Some? ==> FileSystem.Valid(result.value) && FileSystem.SameDirs(fileSystem, result.value)
      modifies this`fileSystem
      ensures Valid()
      ensures Step(Snapshot(), out) == Apply(old(Snapshot()), result, fault)
    {
      ApplyKeepsValid(Snapshot(), result, fault);
      if fault || result.None? {
        out := [SomethingWentWrong];
      } else {
        fileSystem := result.value;
        out := [];
      }
    }

    method CreateFile(fileName: string, fault: bool) returns (out: seq<Message>)
      requires Valid()
      modifies this`fileSystem
      ensures Valid()
      ensures Step(Snapshot(), out) == Semantics.CreateFile(old(Snapshot()), fileName, fault)
    {
      var absolutePath := Join(currentDirectory, fileName);
      FileSystem.WriteFileEffect(fileSystem, absolutePath, []);
      out := Commit(FileSystem.WriteFile(fileSystem, absolutePath, []), fault);
    }

    method RenameFile(filePath: string, newFileName: string, fault: bool) returns (out: seq<Message>)
      requires Valid()
      modifies this`fileSystem
      ensures Valid()
      ensures Step(Snapshot(), out) == Semantics.RenameFile(old(Snapshot()), filePath, newFileName, fault)
    {
      var absolutePath := GetAbsolutePath(currentDirectory, filePath);
      var newPath := Join(currentDirectory, newFileName);
      if FileSystem.IsFileAt(fileSystem, absolutePath) {
        FileSystem.RenameEffect(fileSystem, absolutePath, newPath);
        out := Commit(FileSystem.Rename(fileSystem, absolutePath, newPath), fault);
      } else {
        out := [OperationFailed];
      }
    }

    method CopyFile(sourcePath: string, destinationPath: string, fault: bool) returns (out: seq<Message>)
      requires Valid()
      modifies this`fileSystem
      ensures Valid()
      ensures Step(Snapshot(), out) == Semantics.CopyFile(old(Snapshot()), sourcePath, destinationPath, fault)
    {
      var source := GetAbsolutePath(currentDirectory, sourcePath);
      var destination := GetAbsolutePath(currentDirectory, destinationPath);
      if FileSystem.IsFileAt(fileSystem, source) {
        FileSystem.CopyFileEffect(fileSystem, source, destination);
        out := Commit(FileSystem.CopyFile(fileSystem, source, destination), fault);
      } else {
        out := [OperationFailed];
      }
    }

    method MoveFile(sourcePath: string, destinationPath: string, fault: bool) returns (out: seq<Message>)
      requires Valid()
      modifies this`fileSystem
      ensures Valid()
      ensures Step(Snapshot(), out) == Semantics.MoveFile(old(Snapshot()), sourcePath, destinationPath, fault)
    {
      var source := GetAbsolutePath(currentDirectory, sourcePath);
      var destination := GetAbsolutePath(currentDirectory, destinationPath);
      if FileSystem.IsFileAt(fileSystem, source) {
        FileSystem.RenameEffect(fileSystem, source, destination);
        out := Commit(FileSystem.Rename(fileSystem, source, destination), fault);
      } else {
        out := [OperationFailed];
      }
    }

    method DeleteFile(filePath: string, fault: bool) returns (out: seq<Message>)
      requires Valid()
      modifies this`fileSystem
      ensures Valid()
      ensures Step(Snapshot(), out) == Semantics.DeleteFile(old(Snapshot()), filePath, fault)
    {
      var absolutePath := GetAbsolutePath(currentDirectory, filePath);
      if FileSystem.IsFileAt(fileSystem, absolutePath) {
        FileSystem.UnlinkEffect(fileSystem, absolutePath);
        out := Commit(Some(FileSystem.Unlink(fileSystem, absolutePath)), fault);
      } else {
        out := [OperationFailed];
      }
    }

    /** The switch of processCommand for an accepted command. */
    method Execute(c: Commands.Command, fault: bool) returns (out: seq<Message>)
      requires Valid()
      modifies this
      ensures Valid()
      ensures Step(Snapshot(), out) == Run(old(Snapshot()), c, fault)
    {
      ghost var before := Snapshot();
      match c
      case Up =>
        assert Run(before, c, fault) == Semantics.NavigateUp(before);
        out := NavigateUp();
      case Cd(p) =>
        assert Run(before, c, fault) == Semantics.ChangeDirectory(before, p);
        out := ChangeDirectory(p);
      case Ls =>
        assert Run(before, c, fault) == Semantics.ListDirectoryContents(before, fault);
        out := ListDirectoryContents(fault);
      case Cat(p) =>
        assert Run(before, c, fault) == Semantics.ReadFile(before, p);
        out := ReadFile(p);
      case Add(n) =>
        assert Run(before, c, fault) == Semantics.CreateFile(before, n, fault);
        out := CreateFile(n, fault);
      case Rn(p, n) =>
        assert Run(before, c, fault) == Semantics.RenameFile(before, p, n, fault);
        out := RenameFile(p, n, fault);
      case Cp(s, d) =>
        assert Run(before, c, fault) == Semantics.CopyFile(before, s, d, fault);
        out := CopyFile(s, d, fault);
      case Mv(s, d) =>
        assert Run(before, c, fault) == Semantics.MoveFile(before, s, d, fault);
        out := MoveFile(s, d, fault);
      case Rm(p) =>
        assert Run(before, c, fault) == Semantics.DeleteFile(before, p, fault);
        out := DeleteFile(p, fault);
      case Os(f) =>
        assert Run(before, c, fault) == Semantics.ReportOs(before, f, fault);
        out := if fault && OsCanFail(f) then [SomethingWentWrong] else [OsReport(f)];
    }

    method ProcessCommand(command: string, fault: bool) returns (out: seq<Message>)
      requires Valid()
      modifies this
      ensures Valid()
      ensures Step(Snapshot(), out) == Semantics.ProcessCommand(old(Snapshot()), command, fault)
    {
      match Commands.Parse(command)
      case Invalid =>
        out := [InvalidInput];
      case Parsed(c) =>
        out := Execute(c, fault);
    }

    /** The data handler: exit is true when the process ends after printing
        out. */
    method OnData(data: string, fault: bool) returns (out: seq<Message>, exit: bool)
      requires Valid()
      modifies this
      ensures Valid()
      ensures HandleData(old(Snapshot()), data, fault, username) ==
        if exit then Stop(out) else Continue(Step(Snapshot(), out))
      ensures exit ==> Snapshot() == old(Snapshot())
    {
      var command := Trim(data);
      if command == ".exit" {
        out, exit := [Goodbye(username)], true;
      } else {
        out := ProcessCommand(command, fault);
        exit := false;
      }
    }
  }
}
