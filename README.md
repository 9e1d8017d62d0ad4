# Shell emulator over a virtual filesystem: a Dafny model

This project models `ShellEmulator`, the core of a small UNIX-like shell.
The shell loads a tar archive into an in-memory tree of nested dictionaries,
one key per path component. It then serves the commands `ls`, `cd`, `rm`,
`tree` and `exit` against a current working directory `cwd`, and logs every
command it completes.

Modules:

- `Wrappers`: the `Option` type. It stands for Python's "node or `None`".
- `Paths`: the string side of the shell.
  - Python's `split`, `join`, `rstrip`, `lstrip` and `strip` on one character.
  - The segments of a path: its non-empty parts, which directory lookup walks.
  - `get_absolute_path`, and the expression that `cd ..` evaluates.
- `FileTree`: the virtual filesystem as a value.
  - `Node(entries)` is an ordered list of `Entry(name, node)`. The order is the
    dictionary's insertion order, which `ls` and `tree` make visible.
  - `WF` states that keys are unique at every level.
  - `Child`, `Put` and `Remove` are the single-level dictionary operations.
  - `Walk` resolves a list of keys. `Graft` replaces the subtree at a list of
    keys. It models an in-place update made through a reference to a nested
    dictionary.
  - `Build` is `build_fs_structure` over the archive's entry names, in order.
  - `Locate` is `get_directory`.
- `TreeView`: the lines `_print_tree` prints.
- `Shell`: the session class `ShellEmulator`.
  - Its fields are `cwd`, `fs` and `log`. It has one method per command.
  - Each command returns what it prints, as the sequence of strings passed to
    `print`.
  - Each command is proved against a specification function of the old state,
    and the properties of those functions are proved as lemmas.
- `Scenario`: a whole session over the archive `a/b/c`, `a/d`. It states
  exactly every line printed and the final log.

Where the code and the intended behaviour part ways, the model follows the code:

- `rm` resolves its path from the root, whatever `cwd` is.
- `cd` normalises neither `.` nor a `..` in the middle of a path. Only the
  exact argument `..` goes up.
- Not every command is logged. An `rm` whose parent directory is missing, and
  a `tree` whose directory is missing, return before `log_command`. Every other
  command call appends exactly one record (`Shell.ShellEmulator.Rm`,
  `Shell.ShellEmulator.Tree`).
- `rm` does not move `cwd`. After the current directory is deleted, `cwd` no
  longer resolves, and `ls` and `tree` report it as not found.
- The build keeps empty parts of an entry name as keys (for example, `x//y`
  gives `x`, an empty key, then `y`). The lookup skips empty parts, so in an
  archive holding `x//y` alone, with `x` and `y` non-empty, that entry is not
  found afterwards (`FileTree.EmptyPartNotLocated`). This is not true of every
  entry with an empty part: a trailing empty part, as in `a/`, does not stop
  the lookup, and `x//y` is found when the archive also holds `x/y`. Entries
  without empty parts are always found (`FileTree.BuildLocates`).
- Repeated `cd ..` reaches `/` within (number of segments + 1) steps, not
  within the number of segments (`Paths.CdUpReachesRoot`). The result of
  `cd ..` is the text before the last slash, so leading slashes survive: from
  `//` one step is needed although it has no segments, and from `///a`, which
  has one segment, the first step gives `//` and only the second gives `/`.

## Model

| member | source | states |
|---|---|---|
| `Shell.ShellEmulator.constructor` | shell_emulator.py:10-18 | A new session is at `/` with an empty log, over the tree built from the archive's entry names; the tree has unique keys at every level. |
| `Shell.ShellEmulator.BuildFsStructure` | shell_emulator.py:28-37 | The nested insertion loops produce exactly `Build(members)`: each entry in order, each missing part created as an empty dictionary, and each existing part walked into, never replaced. |
| `FileTree.Build` | shell_emulator.py:28-37 | The tree `build_fs_structure` returns: starting from the empty dictionary, each entry name in archive order is split at `/` and inserted with `AddPath`. |
| `FileTree.AddPath` | shell_emulator.py:32-36 | Inserting one entry's parts: the first part is looked up (or taken as a new empty dictionary), the remaining parts are inserted below it, and the result is assigned back to that key. |
| `FileTree.BuildWF` | shell_emulator.py:28-37 | The built tree has unique keys in every dictionary. |
| `FileTree.BuildGrows` | shell_emulator.py:30-36 | Later entries never replace or reorder anything earlier entries built. They only add keys after the existing ones. |
| `FileTree.BuildWalks` | shell_emulator.py:28-37 | After the build, the literal parts of every entry name can be walked from the root. |
| `FileTree.BuildLocates` | shell_emulator.py:28-37 | Every entry whose name has no empty part is found by `get_directory` after the build. |
| `FileTree.SplitDoubledSlash` | shell_emulator.py:31 | Splitting `x//y` (with `x` and `y` free of slashes) gives `x`, an empty part, then `y`. |
| `FileTree.BuildDoubledSlash` | shell_emulator.py:31-36 | The build keeps the empty part of `x//y` as a key: `x` holds the empty key, which holds `y`. |
| `FileTree.EmptyPartNotLocated` | shell_emulator.py:127-137 | For any non-empty slash-free `x` and `y`, the entry `x//y` is built literally but not found by `get_directory`, because the lookup skips empty parts. |
| `Shell.ShellEmulator.InsertParts` | shell_emulator.py:32-36 | The inner loop over one entry's parts produces exactly `AddPath` of those parts: missing parts are created, existing ones walked into. |
| `FileTree.CreatePart` | shell_emulator.py:34-36 | After `current[part] = {}`, the node reached so far is the updated one, it holds the part as an empty dictionary, and the insertion still ends in the same tree. |
| `FileTree.WalkOneMore` | shell_emulator.py:36 | `current = current[part]` moves to the node reached by one more part. |
| `FileTree.AddPathExisting` | shell_emulator.py:33-36 | Inserting an entry whose parts already exist leaves the tree unchanged. |
| `FileTree.AddPathExtends` | shell_emulator.py:33-36 | Inserting one entry only adds keys. |
| `FileTree.AddPathWalks` | shell_emulator.py:33-36 | After inserting an entry, its parts can be walked. |
| `FileTree.AddPathStep` | shell_emulator.py:34-36 | Creating the missing key `current[part] = {}` below the node reached so far leaves the final result of the insertion unchanged. |
| `FileTree.Child` | shell_emulator.py:133-134 | `current[part]` when `part in current`, otherwise None (also `current_dir.get(part, None)` at line 97). |
| `FileTree.Put` | shell_emulator.py:35 | `current[x] = k`: an existing key is given the new value in place; a new key is appended after the others. |
| `FileTree.Remove` | shell_emulator.py:102 | `del current_dir[x]`: the entry for `x` is dropped, the others keep their order. |
| `FileTree.Graft` | shell_emulator.py:95-102 | The whole tree after a change made through the reference to the dictionary at a list of keys: that dictionary is replaced and every dictionary on the way to it is rebuilt around it. |
| `FileTree.ChildIffName` | shell_emulator.py:34 | `part in current` holds exactly when `part` is one of the node's keys. |
| `FileTree.ChildPut` | shell_emulator.py:35 | After `current[x] = k`, key `x` maps to `k` and every other key is unchanged. |
| `FileTree.PutWF` | shell_emulator.py:35 | Assigning a key keeps the keys of a dictionary unique. |
| `Shell.ShellEmulator.LogCommand` | shell_emulator.py:39-41 | Each call appends exactly one record with the command text, after the earlier ones. |
| `FileTree.Locate` | shell_emulator.py:127-137 | What `get_directory` returns: the node reached from the root by the path's segments, or None when one of them is missing. |
| `FileTree.Walk` | shell_emulator.py:131-136 | Following a list of keys from a node: None as soon as a key is missing, otherwise the node reached. |
| `Paths.Segments` | shell_emulator.py:129-132 | The parts of a path that the lookup walks: the non-empty parts of the split path. |
| `Paths.NonEmpty` | shell_emulator.py:132 | The parts kept by `if part:`, in order. |
| `Paths.StrippedParts` | shell_emulator.py:94 | `path.strip('/').split('/')`, the parts `rm` and the lookup start from; there is always at least one. |
| `Shell.ShellEmulator.GetDirectory` | shell_emulator.py:127-137 | The lookup loop returns the node reached by the non-empty parts of the stripped path, or None as soon as a part is missing (`Locate`). |
| `Paths.StripSegments` | shell_emulator.py:129 | Stripping the outer slashes before splitting keeps the parts the lookup walks. |
| `Paths.StrippedPartsSegments` | shell_emulator.py:129 | The non-empty parts of `path.strip('/').split('/')` are exactly the path's segments. |
| `Paths.LStripSegments` | shell_emulator.py:129 | Removing leading slashes does not change a path's segments. |
| `Paths.RStripSegments` | shell_emulator.py:129 | Removing trailing slashes does not change a path's segments. |
| `Shell.LookupStep` | shell_emulator.py:131-136 | One iteration of the lookup loop: an empty part is skipped; otherwise the walk fails if the part is missing and continues from the child if not. |
| `Shell.MissingPartStopsWalk` | shell_emulator.py:97-100 | Once a part is missing from the node reached so far, the whole walk fails. |
| `Shell.WalkWF` | shell_emulator.py:131-137 | Every node a lookup reaches in a well-formed tree has unique keys. |
| `FileTree.WalkFailsIffMissing` | shell_emulator.py:131-136 | A lookup fails exactly when some part is missing from the dictionary reached just before it. |
| `FileTree.LocateSlashesOnly` | shell_emulator.py:129-137 | A path made only of slashes (`/`, `""`, `///`) locates the root. |
| `FileTree.LocateIgnoresSlashes` | shell_emulator.py:129-137 | A leading slash, a trailing slash or a doubled slash does not change the node a path locates. |
| `Paths.NoSegmentsIffSlashes` | shell_emulator.py:129-132 | A path has no non-empty part exactly when it consists of slashes only. |
| `Shell.ShellEmulator.Ls` | shell_emulator.py:48-55 | `ls` prints the keys of the `cwd` node joined by newlines, in insertion order, or `Каталог '<cwd>' не найден`. It always logs `ls`. |
| `Paths.SplitJoin` | shell_emulator.py:66 | Splitting the join of one or more parts that do not contain the separator gives the parts back. |
| `Shell.ListingLines` | shell_emulator.py:52 | For a directory with at least one key and no key holding a newline, splitting the `ls` listing at newlines gives back exactly the keys, in order, so each key is one line. A key holding a newline shows as several lines, and an empty directory prints one blank line. |
| `Paths.Split` | shell_emulator.py:31 | Python's `s.split(sep)`: at least one part, no part contains the separator (and `Join` of the parts gives `s` back, `Paths.JoinSplit`). |
| `Paths.Join` | shell_emulator.py:52 | Python's `sep.join(parts)`: the parts with one separator between neighbours. |
| `Paths.RStrip` | shell_emulator.py:66 | Python's `s.rstrip(c)`: the longest prefix of `s` that does not end in `c`, followed in `s` only by `c`s. |
| `Paths.LStrip` | shell_emulator.py:129 | Python's `s.lstrip(c)`: the longest suffix of `s` that does not start with `c`, preceded in `s` only by `c`s. |
| `Paths.Strip` | shell_emulator.py:129 | Python's `s.strip(c)`: neither end of the result is `c`, and it is no longer than `s`. |
| `Paths.SplitNoSeparator` | shell_emulator.py:31 | A string without the separator splits into itself alone. |
| `Paths.SplitConcat` | shell_emulator.py:31 | Splitting `a + sep + b` gives the parts of `a` followed by the parts of `b`. |
| `Paths.JoinSplit` | shell_emulator.py:66 | Joining the parts of a split gives the string back. |
| `Shell.ShellEmulator.Cd` | shell_emulator.py:57-81 | `cd /` goes to the root. `cd ..` goes to the parent unless already at `/`. Any other path is made absolute and committed exactly when it resolves; otherwise `cwd` stays and `Каталог '<path>' не найден` is printed. The tree never changes, a resolvable `cwd` stays resolvable, and `cd <path>` is always logged. |
| `Paths.AbsolutePath` | shell_emulator.py:83-90 | A path starting with `/` is returned unchanged. A relative path is appended to `cwd` after a single `/`, and the result is absolute when `cwd` is. |
| `Paths.AbsolutePathSegments` | shell_emulator.py:83-90 | A relative path denotes the segments of `cwd` followed by its own. An absolute path denotes its own segments. |
| `Shell.RelativeLookup` | shell_emulator.py:71-72 | `cd` with a relative path looks the path up below the node of the current directory. |
| `Paths.Parent` | shell_emulator.py:66-68 | The parent directory string is never empty. |
| `Paths.ParentSegments` | shell_emulator.py:66-68 | `cd ..` removes exactly the last segment of the working directory. |
| `Paths.ParentStartsWithSlash` | shell_emulator.py:66-68 | `cd ..` keeps an absolute working directory absolute. |
| `Paths.CdUp` | shell_emulator.py:62-68 | The `cwd` after `cd ..`: unchanged at `/`, otherwise `Parent(cwd)`. |
| `Paths.CdUpTimes` | shell_emulator.py:62-68 | The `cwd` after `n` successive `cd ..` commands. |
| `Paths.CdUpReachesRoot` | shell_emulator.py:62-68 | Repeated `cd ..` reaches `/` within (number of segments of `cwd` + 1) steps. |
| `Paths.CdUpStaysAtRoot` | shell_emulator.py:64 | At `/`, any number of further `cd ..` commands stays at `/`. |
| `Shell.ParentLocated` | shell_emulator.py:62-68 | If the working directory resolves, so does the one `cd ..` moves to. |
| `Shell.RmResult` | shell_emulator.py:92-106 | The effect of `rm path` on a tree: ParentMissing when `parts[:-1]` cannot be walked from the root, TargetMissing when the last part is not a key of that directory, otherwise Removed with the tree in which that key is deleted from that directory. |
| `Shell.RmDir` | shell_emulator.py:94-96 | The parts `rm` walks to reach the parent directory: all stripped parts but the last. |
| `Shell.RmName` | shell_emulator.py:94-101 | The key `rm` deletes: the last stripped part. |
| `Shell.ShellEmulator.Rm` | shell_emulator.py:92-106 | `rm` walks `path.strip('/').split('/')[:-1]` from the root. A missing part prints the not-found message and logs nothing. A missing last key prints the not-found message, keeps the tree and logs `rm <path>`. Otherwise the key is deleted, `Удалено: <path>` is printed and the command logged. `cwd` never changes. |
| `Shell.ShellEmulator.WalkParts` | shell_emulator.py:95-100 | The parent-walking loop of `rm` returns the node reached by the given keys, or None when one is missing. |
| `Shell.RmRemovesTarget` | shell_emulator.py:101-102 | A successful `rm` deletes exactly the key it names. The parent still resolves, the deleted path no longer resolves, the parent's other keys map to what they did, the remaining keys keep their order, and keys stay unique. |
| `Shell.RmLeavesOthers` | shell_emulator.py:94-102 | A successful `rm` leaves every path that neither leads to nor passes through the deleted key resolving as before, and every ancestor still resolves. |
| `Shell.RmTwice` | shell_emulator.py:101-105 | A second `rm` of the same path reports not found: `rm` is not idempotent. |
| `Shell.RmKeepsWF` | shell_emulator.py:101-102 | A successful `rm` keeps the keys of every dictionary unique. |
| `FileTree.RemoveExactlyOne` | shell_emulator.py:102 | `del current_dir[x]` removes key `x` and no other. |
| `FileTree.RemovedKeyGone` | shell_emulator.py:102 | In a dictionary with unique keys, the deleted key is absent afterwards. |
| `FileTree.RemoveKeepsOther` | shell_emulator.py:102 | Deleting key `x` leaves every other key mapping to what it did. |
| `FileTree.RemoveKeepsOrder` | shell_emulator.py:102 | After the deletion, the remaining keys keep their insertion order. |
| `FileTree.RemoveWF` | shell_emulator.py:102 | Deleting a key keeps the keys of a dictionary unique. |
| `FileTree.GraftBelow` | shell_emulator.py:95-102 | A change made through the reference to a nested dictionary is seen from the root at that dictionary's path. |
| `FileTree.GraftAbove` | shell_emulator.py:95-102 | A change made through a nested reference keeps every ancestor of the changed dictionary resolvable. |
| `FileTree.GraftWF` | shell_emulator.py:95-102 | Replacing a nested dictionary by one with unique keys keeps the keys of the whole tree unique. |
| `FileTree.GraftAside` | shell_emulator.py:95-102 | A change made through the reference to a nested dictionary is invisible at every path that does not pass through it. |
| `Shell.ShellEmulator.Tree` | shell_emulator.py:108-119 | `tree` prints the subtree of the given directory (default `cwd`) and logs `tree`. If the directory is missing, it prints `Каталог '<dir>' не найден` and logs nothing. |
| `TreeView.PrintFrom` | shell_emulator.py:121-125 | The lines `_print_tree` prints for the entries from position `i` on: for each entry in insertion order, its line at `level`, then its subtree's lines at `level + 1`. |
| `TreeView.PrintTree` | shell_emulator.py:121-125 | The lines `_print_tree(dir, level)` prints: `PrintFrom` over all entries of the directory. |
| `TreeView.Marker` | shell_emulator.py:123 | What precedes the name on a line at `level`: four spaces per level, then `\|-- `. |
| `TreeView.Indent` | shell_emulator.py:123 | `"    " * level`: exactly `4 * level` spaces. |
| `TreeView.MarkedBelow` | shell_emulator.py:123-125 | A line is the marker of some depth no shallower than `level`, followed by a name. |
| `TreeView.Size` | shell_emulator.py:121-125 | The number of nodes below a directory, the count of lines `_print_tree` prints. |
| `TreeView.PrintTreeCount` | shell_emulator.py:121-125 | `_print_tree` prints exactly one line per node below the directory. |
| `TreeView.PrintFromIndented` | shell_emulator.py:121-125 | Every line printed from `level` consists of four spaces per level of some depth `m >= level`, then the `\|-- ` marker, then the name (nested entries recurse one level deeper); so it starts with the indentation of `level` and has at least the marker after it. |
| `TreeView.TreeTopLevelIsNames` | shell_emulator.py:121-125 | The lines at the starting level name exactly the directory's keys, in order, so `tree` agrees with `ls` on the same node: none missing, none duplicated. |
| `TreeView.TopLevelPrintFrom` | shell_emulator.py:121-125 | The lines at the starting level printed from the `i`-th key onward name exactly the keys from `i` onward. |
| `TreeView.TopLevelDeeper` | shell_emulator.py:123-125 | Lines of a nested subtree, indented one level deeper, are never taken for lines at the outer level. |
| `Shell.DirNotFound` | shell_emulator.py:54 | The message `Каталог '<path>' не найден` that `ls`, `cd` and `tree` print for a directory that does not resolve (also lines 78 and 115). |
| `Shell.FileNotFound` | shell_emulator.py:99 | The message `Файл или директория '<path>' не найдены` that `rm` prints for a missing parent or target (also line 105). |
| `Shell.Deleted` | shell_emulator.py:103 | The message `Удалено: <path>` that `rm` prints after a deletion. |
| `Shell.ExitMessage` | shell_emulator.py:141 | The message `Выход...` that `exit` prints. |
| `Shell.ShellEmulator.Exit` | shell_emulator.py:139-142 | `exit` prints `Выход...` and logs `exit`. |
| `Scenario.Session` | shell_emulator.py:48-142 | Over the archive `a/b/c`, `a/d`, the session `ls`, `cd a`, `ls`, `cd b`, `ls`, `cd ..`, `cd ..`, `rm a/d`, `cd a`, `ls`, `cd nope`, `tree`, `exit` prints exactly the stated lines and logs all thirteen commands in order. |
| `Scenario.Browse` | shell_emulator.py:48-90 | The commands `ls`, `cd a`, `ls`, `cd b`, `ls`, `cd ..`, `cd ..` print `a`, nothing, `b` and `d` on two lines, nothing, `c`, nothing, nothing; they return to `/`, leave the tree unchanged and log all seven commands. |
| `Scenario.Prune` | shell_emulator.py:57-142 | Then `rm a/d`, `cd a`, `ls`, `cd nope`, `tree`, `exit` print the deletion message, nothing, `b`, the not-found message for `nope`, the two tree lines and the exit message, and log all six commands. |
| `Scenario.Up` | shell_emulator.py:62-68 | `cd ..` from `/a/b` moves to `/a`, and from `/a` to `/`, printing nothing. |
| `Scenario.Miss` | shell_emulator.py:69-81 | `cd nope` at `/a` prints `Каталог 'nope' не найден` and stays at `/a`, but is still logged. |
| `Scenario.LocateNope` | shell_emulator.py:127-137 | After the deletion, `/a/nope` is not found. |
| `Scenario.ListingsArchive` | shell_emulator.py:52 | The listings of `/`, `/a`, `/a/b` and the pruned `/a` are `a`, `b` and `d` on two lines, `c`, and `b`. |
| `Scenario.BuildArchive` | shell_emulator.py:28-37 | The entries `a/b/c` and `a/d` build `a` with children `b` (holding `c`) and `d`, in that order. |
| `Scenario.RmArchive` | shell_emulator.py:92-106 | `rm a/d` on that tree deletes `d` from `a` and nothing else. |
| `Scenario.CdUpArchive` | shell_emulator.py:62-68 | `cd ..` goes from `/a/b` to `/a`, and from `/a` to `/`. |
| `Scenario.TreeArchive` | shell_emulator.py:121-125 | `tree` at `/a` after the deletion prints `\|-- b` and then `    \|-- c`. |

## Left out

- Loading the tar archive (`load_tar_file`), and the error for a file that is not a tar archive: archive reading is I/O. The model starts from the archive's ordered entry names.
- `save_log`, the XML document, and its `user` attribute carrying the username: file output. The log is modelled as the ordered sequence of command texts.
- The timestamp of each log record: a clock reading. Its ordering across records is therefore not stated.
- `Shell.ShellEmulator.Exit`: does not model writing the log file or ending the process with `sys.exit(0)`.
- `main`: argument parsing, the prompt, the read-dispatch loop, the "command not found" message and the catch-all exception handler are interactive glue.
- Printing to the console: each command returns the strings it passes to `print`, in order.
- In-place mutation through aliases to nested dictionaries is modelled on values. `Graft` rebuilds the path from the root to the changed dictionary. Sharing between dictionaries cannot arise here, because every dictionary is created fresh by `build_fs_structure`.
- The username, archive path and log path fields of the session object are carried by nothing the modelled commands read.
