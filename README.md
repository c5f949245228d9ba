# File manager shell, modelled in Dafny

This project models the interactive shell of `src/index.js`. The shell keeps
a current directory (`currentDirectory`, src/index.js:5) and handles its
standard input one `data` chunk at a time (one line when typed at a
terminal). It stops on `.exit`. Every other chunk is trimmed, split on
single spaces and dispatched by `processCommand` to one of `up`, `cd`, `ls`,
`cat`, `add`, `rn`, `cp`, `mv`, `rm` and `os`. Misuse is answered with
"Invalid input" and a failed guard with "Operation failed". An error thrown
by `writeFileSync`, `renameSync`, `copyFileSync`, `unlinkSync`,
`readdirSync`, `os.homedir` or `os.userInfo` reaches the catch of the data
handler, which prints "Something went wrong!!!". An error of `cat`'s stream
does not reach it (see below).

The modules follow the program:

- `Strings`: `trim`, `split` and `join` of the JavaScript runtime.
- `Paths`: Node's posix `path.isAbsolute`, `path.resolve`, `path.join`
  (through `path.normalize`) and `path.dirname`, plus `getAbsolutePath`.
- `Order`: the default order of `Array.prototype.sort` on strings (UTF-16
  code units) and a sort that realises it.
- `FileSystem`: the filesystem as a map from canonical locations (sequences
  of segments, the root being `[]`) to `Dir` or `File(bytes)`. Its calls
  `writeFileSync`, `renameSync`, `copyFileSync`, `unlinkSync` and
  `readdirSync` are modelled as functions and a method over that map.
- `Commands`: tokenising, the dispatch table with its argument counts and
  `os` flags, the `.exit` check and the user name taken from the command
  line.
- `Semantics`: each operation of the shell as a function from a state
  (current directory string, filesystem) to the next state and the lines
  printed. The lemmas about the session are stated over these functions.
- `Shell`: the class `Session`, whose fields are the current directory and
  the filesystem. Its methods do what the source does step by step (the
  `ls` loop included) and are proved to produce exactly the state and
  output of the matching `Semantics` function.

Assumptions the model makes explicit:

- Node's path functions behave as their posix implementations do. This
  covers `path.resolve` for an absolute base, `path.join` of an absolute
  directory and a name, `path.normalize` keeping a trailing separator, and
  `path.dirname`'s backwards scan, including its `"//"` case.
- The operating system resolves a path string piece by piece: `""` and `.`
  stay, `..` goes up (the root is its own parent), and every piece but the
  last must name an existing directory. So `file/..` and `file/` cannot be
  reached. `existsSync` plus `statSync` is that resolution followed by a
  look at the entry's type.
- `writeFileSync`, `renameSync` and `copyFileSync` fail when the target
  cannot be reached or is a directory. They replace a regular file silently.
- Any other failure of the operating system (permissions, a full disk, a
  rename across devices, an unreadable directory) is a boolean `fault` given
  with each line. It stands for the call throwing. It then reaches the
  catch, and the state is left exactly as it was.
- `os` output, the clock, the console and the process are outside the
  model. A line's outcome is a list of `Message` values, one per
  `console.log`. The `.exit` line yields `Stop` with the farewell.

Points where the code behaves in a way a user might not expect, all
modelled as the code has them:

- An OS-level failure of one of the calls above, or `ls` on a directory
  that cannot be read, prints "Something went wrong!!!" through the catch,
  not "Operation failed".
- A failure in a guard is not an error. `existsSync` answers false on any
  error (a permission error included), so the command prints
  "Operation failed" (src/index.js:40, 59, 75, 85, 95 and 104).
- A `cat` whose stream fails ends the session. An unreadable regular file
  passes the guard at src/index.js:59. The stream at line 61 then fails
  asynchronously, and `pipe` listens for errors only on the destination.
  The error is an uncaught exception that ends the process, outside the
  catch at line 242. So not every command error leaves the session
  running.
- Note that a line is split on the single space character, not on whitespace in
  general. Two spaces make an empty argument, so `cd  x` is invalid input
  (`Commands.DoubleSpaceMakesEmptyArgument`).
- `add` and `rn` accept absolute names; `path.join` puts those under the
  current directory too. A name with a `..` piece can leave the current
  directory (`Paths.JoinCanClimb`). A new name lands under the current
  directory only when it has no `..` piece (`Paths.JoinStaysUnder`).
- Note that the handler runs once per `data` chunk, not once per line. Several lines
  arriving in one chunk (piped input) form one command: `"ls\nup\n"` trims
  to `"ls\nup"`, whose operation word is that whole string, so the chunk
  gets a single "Invalid input". `Semantics.HandleData` takes any chunk.
- Semantics.NavigateUpToParent: `up` moves to the parent, one segment
  shorter, only when the current directory string is canonical. An
  absolute `cd` keeps its string verbatim, and `up` cuts that string with
  `path.dirname`. After `cd /a/b/..` the session is at `/a`, but `up` then
  goes down to `/a/b` (`Semantics.NavigateUpCanDescend`). After `cd /a/.`,
  `up` stays at `/a`.
- `.exit` is checked by the data handler, not by `processCommand`. Given
  `.exit` directly, `processCommand` answers "Invalid input"
  (`Commands.ExitIsNotACommand`).

## Model

| member | source | states |
|---|---|---|
| Strings.TrimIdempotent | src/index.js:236-237 | trim yields a string with no whitespace at either end, and trimming twice equals trimming once |
| Strings.JoinSplit | src/index.js:137 | joining the pieces of a split with the separator gives back the original line |
| Strings.SplitJoin | src/index.js:137 | splitting a join of separator-free pieces gives back exactly those pieces |
| Strings.SplitAtSep | src/index.js:137 | the pieces of a + sep + b are the pieces of a followed by the pieces of b |
| Order.Sort | src/index.js:49 | the sorted result is in ascending UTF-16 order and is a permutation of the input |
| Order.NameAntisymmetric | src/index.js:49 | two strings that each sort no later than the other are equal, so the order has no ties between distinct names |
| Order.SortedUnique | src/index.js:49 | two sorted sequences with the same elements are equal, so the sort's result is fully determined |
| Order.SortedElements | src/index.js:49 | the elements of a finite set of names, each exactly once, in strictly ascending order |
| Order.SortIgnoresOrder | src/index.js:49 | sorting any repeat-free enumeration of a set gives the same result, whatever order the directory was read in |
| Paths.GetAbsolutePath | src/index.js:12-18 | the result is always absolute, and an absolute input is returned verbatim |
| Paths.GetAbsolutePathLocation | src/index.js:12-18 | an absolute input comes back unchanged; a relative one denotes its pieces normalised on top of the current directory's location, and is returned in canonical form |
| Paths.GetAbsolutePathIdempotent | src/index.js:12-18 | resolving an already resolved path again changes nothing |
| Paths.ResolveUpThenDown | src/index.js:12-18 | from a canonical directory, resolving `..` gives the parent's string, and resolving the child's name there gives the directory back |
| Paths.JoinLocation | src/index.js:68 | `path.join(cur, name)` denotes the pieces of name normalised on top of cur's location, whether or not name is absolute |
| Paths.JoinStaysUnder | src/index.js:68 | a name with no `..` piece, absolute or relative, joined to the current directory lands at or below it |
| Paths.JoinCanClimb | src/index.js:74 | the name `../m` joined to directory p/n lands at p/m, which is outside p/n unless m is n |
| Paths.JoinName | src/index.js:51 | a plain name joined to, or resolved against, the current directory renders the child location of that directory |
| Paths.DirnameFixedIffRoot | src/index.js:31-32 | dirname of an absolute path equals the path exactly when the path is the root `/` |
| Paths.DirnameRender | src/index.js:31 | dirname of a canonical non-root path is the rendering of its parent location |
| Paths.KeyRender | src/index.js:16 | rendering a canonical location and reading it back gives the location |
| FileSystem.ReadDir | src/index.js:49 | `readdirSync` of a directory yields each name of its entries exactly once and no other name |
| FileSystem.LookupRender | src/index.js:40 | the rendered string of an existing (or placeable) canonical location resolves to that location |
| FileSystem.LookupIsKey | src/index.js:40 | whenever OS resolution of a path succeeds, it reaches the location lexical normalisation gives |
| FileSystem.DirnameIsDir | src/index.js:31-33 | the dirname of an existing directory is an existing directory |
| FileSystem.WriteFileEffect | src/index.js:69 | writeFileSync fails exactly when the path is unreachable or a directory; otherwise the path holds a file with the data, no directory appears or vanishes, and nothing else changes |
| FileSystem.CopyFileEffect | src/index.js:86 | copyFileSync fails exactly when the destination is unreachable or a directory; otherwise the source keeps its bytes, the destination holds them, and nothing else changes |
| FileSystem.RenameEffect | src/index.js:76 | renameSync fails exactly when the destination is unreachable or a directory; otherwise the destination holds the source's bytes, the source is gone unless both are the same place, and nothing else changes |
| FileSystem.UnlinkEffect | src/index.js:105 | unlinkSync of a regular file removes that file and nothing else, and no directory |
| FileSystem.ChildrenExact | src/index.js:49 | a name is among a directory's children exactly when the directory has an entry of that name |
| Commands.ParseFlagExact | src/index.js:197-215 | the `os` flag switch accepts exactly `--EOL`, `--cpus`, `--homedir`, `--username` and `--architecture`, each to its own flag |
| Commands.DispatchAcceptsExactly | src/index.js:139-224 | a command is accepted exactly when it is `up` or `ls` with any arguments, or `cd`, `cat`, `add`, `rm`, `os` with exactly one, or `rn`, `cp`, `mv` with exactly two, `os` also needing a known flag; everything else is Invalid |
| Commands.DispatchFaithful | src/index.js:139-224 | an accepted command carries the operation it was asked for and, for a checked operation, exactly the arguments given |
| Commands.ParseUnparse | src/index.js:137-224 | the line made of a command's word and well-formed operands separated by single spaces parses back to that command |
| Commands.TokeniseWords | src/index.js:137 | a trimmed line of space-free words tokenises into its first word as the operation and the others as the arguments |
| Commands.BlankLineInvalid | src/index.js:136-223 | a line that trims to nothing has the empty operation with no arguments and is invalid input |
| Commands.DoubleSpaceMakesEmptyArgument | src/index.js:137-148 | `cd` followed by two spaces and a word yields the arguments `""` and the word, so the line is invalid input |
| Commands.DotOperationInvalid | src/index.js:137-223 | a line whose operation starts with `.` is invalid input |
| Commands.ExitIsNotACommand | src/index.js:136-225 | processCommand given `.exit` (with any surrounding whitespace) answers invalid input |
| Commands.ClassifyExact | src/index.js:236-241 | the handler exits exactly when the trimmed input is `.exit`, and otherwise the parse of what it passes on equals the parse of the raw input |
| Commands.ParseTrimmed | src/index.js:236-237 | parsing a trimmed line equals parsing the line |
| Commands.UsernameOfFlag | src/index.js:229 | the argument `--username=<name>` yields exactly `<name>` |
| Semantics.RunKeepsValid | src/index.js:139-224 | every accepted command leaves the current directory an absolute path of an existing directory of a well-formed filesystem, and creates or removes no directory, so `rm` never removes one |
| Semantics.ProcessCommandKeepsValid | src/index.js:136-225 | every line given to processCommand keeps that invariant |
| Semantics.HandleDataKeepsValid | src/index.js:233-246 | every input the data handler goes on from keeps that invariant |
| Semantics.InvalidInputChangesNothing | src/index.js:139-224 | processCommand answers only "Invalid input" and changes nothing exactly when the line is rejected by the table |
| Semantics.RunFrame | src/index.js:139-224 | only `up` and `cd` move the current directory, and only `add`, `rn`, `cp`, `mv` and `rm` change the filesystem |
| Semantics.ReportOsEffect | src/index.js:111-132 | `os` changes nothing; it reports the flag asked for, and ends in the catch's message exactly when the call throws and the flag is `--homedir` or `--username` |
| Semantics.GuardedCommandsNeedAFile | src/index.js:57-109 | `cat`, `rn`, `cp`, `mv` and `rm` print "Operation failed" and change nothing exactly when their resolved source is not an existing regular file |
| Semantics.NavigateUpAtRoot | src/index.js:30-36 | `up` leaves the filesystem alone, prints where it lands, and stays put exactly at the root |
| Semantics.NavigateUpToParent | src/index.js:30-36 | from a canonical non-root directory, `up` moves to the parent, one segment shorter |
| Semantics.NavigateUpCanDescend | src/index.js:30-46 | after an absolute `cd` to `/p/n/..`, which is kept verbatim and lands at p, `up` takes the session one segment down, to p/n |
| Semantics.ChangeDirectoryIff | src/index.js:38-46 | `cd` moves to the resolved target and prints it exactly when that target is an existing directory; otherwise it prints "Operation failed" and the unchanged directory and changes nothing; it never touches the filesystem |
| Semantics.ChangeDirectoryRelative | src/index.js:38-46 | a relative `cd` lands at the normalisation of its pieces on top of the current location, and the new directory string is canonical |
| Semantics.ChangeDirectoryUpThenBack | src/index.js:38-46 | from a canonical directory, `cd ..` followed by `cd` into the directory just left restores the state |
| Semantics.EntryPath | src/index.js:51-52 | the path `ls` builds for a child's name reaches that child, so its label is the child's own type |
| Semantics.ListDirectoryContentsEffect | src/index.js:48-55 | `ls` changes nothing; unless the directory cannot be read it prints every entry exactly once, in strictly ascending order, labelled Folder exactly when it is a directory |
| Semantics.ReadFileEffect | src/index.js:57-65 | `cat` changes nothing and shows the file's bytes exactly when the resolved path is an existing regular file, else "Operation failed" |
| Semantics.CreateFileEffect | src/index.js:67-70 | `add` writes an empty file at the joined path, replacing a regular file there; it fails with nothing changed exactly when the call errs, the path is unreachable, or it is a directory; a name without `..` lands at or below the current directory |
| Semantics.CreateFileName | src/index.js:67-70 | for a plain name not naming a directory, `add` puts an empty file under that name in the current directory and prints nothing |
| Semantics.AddThenCat | src/index.js:57-70 | a file just added under a plain name reads back as empty |
| Semantics.RenameFileEffect | src/index.js:72-80 | for a regular source, `rn` moves its entry to the name joined to the current directory, or fails changing nothing; a new name without `..` stays at or below the current directory |
| Semantics.MoveFileEffect | src/index.js:92-100 | for a regular source, `mv` moves its entry to the resolved destination, replacing a file there, or fails changing nothing |
| Semantics.CopyFileEffect | src/index.js:82-90 | for a regular source, `cp` gives the destination the source's bytes and keeps the source, or fails changing nothing |
| Semantics.DeleteFileEffect | src/index.js:102-109 | for a regular source, `rm` removes exactly that entry, unless the call errs, in which case nothing changes |
| Semantics.HandleDataExact | src/index.js:233-246 | the handler stops exactly on `.exit` with any surrounding whitespace, printing the farewell with the user name; any other input is handled as processCommand would handle the raw line |
| Shell.Session.constructor | src/index.js:228-229 | a session starts in the given directory with the given filesystem, and its user name is the command-line argument after `--username=` |
| Shell.Session.Greet | src/index.js:228-231 | the greeting names the user and then the current directory; for an argument `--username=<name>` the name welcomed is exactly `<name>` |
| Shell.Session.NavigateUp | src/index.js:30-36 | the new directory and the output are those of `Semantics.NavigateUp`, and the invariant is kept |
| Shell.Session.ChangeDirectory | src/index.js:38-46 | the new directory and the output are those of `Semantics.ChangeDirectory`, and the invariant is kept |
| Shell.Session.ListDirectoryContents | src/index.js:48-55 | the loop over the sorted names prints exactly the listing of `Semantics.ListDirectoryContents`, whatever order the directory is read in |
| Shell.Session.ReadFile | src/index.js:57-65 | prints exactly what `Semantics.ReadFile` says |
| Shell.Session.Commit | src/index.js:242-245 | a filesystem call's result is installed, or its error reported with nothing changed, as `Semantics.Apply` says |
| Shell.Session.CreateFile | src/index.js:67-70 | the new filesystem and the output are those of `Semantics.CreateFile` |
| Shell.Session.RenameFile | src/index.js:72-80 | the new filesystem and the output are those of `Semantics.RenameFile` |
| Shell.Session.CopyFile | src/index.js:82-90 | the new filesystem and the output are those of `Semantics.CopyFile` |
| Shell.Session.MoveFile | src/index.js:92-100 | the new filesystem and the output are those of `Semantics.MoveFile` |
| Shell.Session.DeleteFile | src/index.js:102-109 | the new filesystem and the output are those of `Semantics.DeleteFile` |
| Shell.Session.Execute | src/index.js:139-224 | the switch on an accepted command changes the session and prints as `Semantics.Run` says |
| Shell.Session.ProcessCommand | src/index.js:136-225 | processCommand changes the session and prints as `Semantics.ProcessCommand` says |
| Shell.Session.OnData | src/index.js:233-246 | one input changes the session and prints as `Semantics.HandleData` says, and an exit changes nothing |

## Left out

- Console formatting: the model's messages stand for the printed lines. The
  catch's two `console.log` calls (the notice and the error object,
  src/index.js:243-244) are one `SomethingWentWrong` message that carries
  no error detail.
- `cat`'s `createReadStream(...).pipe(process.stdout)` (src/index.js:60-61)
  is asynchronous streaming. The model delivers the file's bytes as one
  message at once. A stream error after the guard (an unreadable file, for
  example) is not modelled. In the source it is an uncaught exception that
  ends the process. `Semantics.ReadFile` ignores `fault` and always delivers
  the bytes.
- The `os` helpers (src/index.js:111-132) call into `os` and `process`, and
  `cpu.speed / 1000` at line 118 is floating point. An accepted `os` command
  yields an `OsReport(flag)` message with no content. `os.homedir()` and
  `os.userInfo()` can throw (no home directory, no password entry). The
  per-line `fault` flag stands for that, and the error reaches the catch.
- src/copyFile.js is an unused duplicate of `copyFile` that cannot run on
  its own. It is not part of this model.
- Symbolic links, permissions, hard links, other file types and devices are
  not modelled. The per-line `fault` flag stands only for a failure of the
  calls `writeFileSync`, `renameSync`, `copyFileSync`, `unlinkSync`,
  `readdirSync`, `os.homedir` and `os.userInfo`. A guard that fails for
  such a reason (for example `existsSync` on a path it may not search)
  would print "Operation failed" in the source. The model's guards see
  only the map.
- A `statSync` that throws in the middle of the `ls` loop (an entry
  vanishing or dangling) is not modelled. The source would then print part
  of the listing before the catch. In the model `ls` either lists
  everything or, with `fault`, prints only the error.
- NUL characters in paths, which Node rejects, are not modelled. Neither is
  a missing `process.argv[2]`, where `slice` throws before the greeting.
- The filesystem changing behind the session's back is not modelled. For
  example, the current directory being deleted by another process.
- Commands.Username: `slice(11)` counts UTF-16 code units, but the model
  counts characters. The two differ when an astral (non-BMP) character
  lies among the first eleven code units of the argument. Such an argument
  does not start with `--username=`, so the flag's own form is unaffected.
- The input is a string: decoding the `data` Buffer as text is not
  modelled. JavaScript strings holding lone surrogates are outside `char`.
- Semantics.ChangeDirectoryUpThenBack: stated only for a canonical
  current directory. An absolute `cd` keeps the string verbatim, including
  `.` or `..` pieces, and `up` then acts on that string.
- `process.exit(0)` is the `Stop` outcome. Nothing after it is modelled.
