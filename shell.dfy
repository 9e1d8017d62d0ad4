/**
  The shell session (`ShellEmulator`): the working directory `cwd`, the
  virtual filesystem `fs` and the command log, and the commands `ls`, `cd`,
  `rm`, `tree` and `exit` that read and update them. What a command prints
  is returned as the sequence of strings passed to `print`, in order.
*/
module Shell {
  import opened Wrappers
  import opened Paths
  import opened FileTree
  import opened TreeView

  // ---------------------------------------------------------------------
  // console messages
  // ---------------------------------------------------------------------

  function DirNotFound(path: string): string
  {
    "Каталог '" + path + "' не найден"
  }

  function FileNotFound(path: string): string
  {
    "Файл или директория '" + path + "' не найдены"
  }

  function Deleted(path: string): string
  {
    "Удалено: " + path
  }

  function ExitMessage(): string
  {
    "Выход..."
  }

  /**
    The listing `ls` prints shows each key of a non-empty directory as one
    line, provided no key holds a newline: splitting the printed text at
    newlines gives back exactly the keys, in order.
  */
  lemma ListingLines(n: Node)
    requires |n.entries| >= 1
    requires forall i :: 0 <= i < |n.entries| ==> '\n' !in n.entries[i].name
    ensures Split(Join(Names(n.entries), '\n'), '\n') == Names(n.entries)
  {
    var names := Names(n.entries);
    forall i | 0 <= i < |names| ensures '\n' !in names[i] {
      assert names[i] == n.entries[i].name;
    }
    SplitJoin(names, '\n');
  }

  // ---------------------------------------------------------------------
  // what `rm` does to the tree
  // ---------------------------------------------------------------------

  /** The parts that lead to the parent (`parts[:-1]`). */
  function RmDir(path: string): seq<string>
  {
    StrippedParts(path)[..|StrippedParts(path)| - 1]
  }

  /** The key `rm` deletes (`parts[-1]`). */
  function RmName(path: string): string
  {
    StrippedParts(path)[|StrippedParts(path)| - 1]
  }

  datatype RmOutcome =
    | ParentMissing          // some part before the last is missing: nothing is logged
    | TargetMissing          // the last part is not a key of the parent
    | Removed(root: Node)    // the key was deleted; `root` is the new tree

  /** The effect of `rm path` on the tree `root`. */
  function RmResult(root: Node, path: string): RmOutcome
  {
    match Walk(root, RmDir(path))
    case None => ParentMissing
    case Some(dir) =>
      if Child(dir, RmName(path)).Some? then Removed(Graft(root, RmDir(path), Remove(dir, RmName(path))))
      else TargetMissing
  }

  /**
    A successful `rm` deletes exactly the key it names: the parent is still
    there, the deleted path no longer resolves, every other key of the parent
    resolves as before, the parent's remaining keys keep their order, and the
    tree stays well formed.
  */
  lemma RmRemovesTarget(root: Node, path: string)
    requires WF(root) && RmResult(root, path).Removed?
    ensures var root' := RmResult(root, path).root;
      var dir := Walk(root, RmDir(path)).value;
      var x := RmName(path);
      var j := IndexOf(dir.entries, x);
      && Walk(root', RmDir(path)) == Some(Remove(dir, x))
      && Walk(root', RmDir(path) + [x]).None?
      && (forall y :: y != x ==> Child(Walk(root', RmDir(path)).value, y) == Child(dir, y))
      && Names(Walk(root', RmDir(path)).value.entries) == Names(dir.entries)[..j] + Names(dir.entries)[j + 1..]
      && WF(root')
  {
    var dir := Walk(root, RmDir(path)).value;
    var x := RmName(path);
    var p := RmDir(path);
    var root' := RmResult(root, path).root;
    GraftBelow(root, p, Remove(dir, x), []);
    assert p + [] == p;
    GraftBelow(root, p, Remove(dir, x), [x]);
    WalkWF(root, p);
    RemoveExactlyOne(dir, x, x);
    forall y | y != x ensures Child(Remove(dir, x), y) == Child(dir, y) {
      RemoveExactlyOne(dir, x, y);
    }
    RemoveKeepsOrder(dir, x);
    RemoveWF(dir, x);
    GraftWF(root, p, Remove(dir, x));
  }

  /**
    A successful `rm` changes no node off the deleted path: every path that
    neither leads to the deleted key nor passes through it resolves exactly
    as before, and every ancestor of the deleted key still resolves.
  */
  lemma RmLeavesOthers(root: Node, path: string, q: seq<string>)
    requires WF(root) && RmResult(root, path).Removed?
    ensures var target := RmDir(path) + [RmName(path)];
      var root' := RmResult(root, path).root;
      && (!(target <= q) && !(q <= target) ==> Walk(root', q) == Walk(root, q))
      && (q <= RmDir(path) ==> Walk(root', q).Some?)
  {
    var p := RmDir(path);
    var x := RmName(path);
    var target := p + [x];
    var dir := Walk(root, p).value;
    var c := Remove(dir, x);
    var root' := RmResult(root, path).root;
    if q <= p {
      GraftAbove(root, p, c, q);
    }
    if !(target <= q) && !(q <= target) {
      if !(p <= q) && !(q <= p) {
        GraftAside(root, p, c, q);
      } else if p <= q {
        // q goes below the parent through a key other than x
        var r := q[|p|..];
        assert q == p + r;
        assert r != [];
        assert r[0] != x by { assert target == q[..|p| + 1] || q[|p|] != x; }
        GraftBelow(root, p, c, r);
        WalkConcat(root, p, r);
        WalkWF(root, p);
        RemoveExactlyOne(dir, x, r[0]);
      }
    }
  }

  /** A second `rm` of the same path reports that it is not found. */
  lemma RmTwice(root: Node, path: string)
    requires WF(root) && RmResult(root, path).Removed?
    ensures RmResult(RmResult(root, path).root, path) == TargetMissing
  {
    var p := RmDir(path);
    var x := RmName(path);
    var dir := Walk(root, p).value;
    GraftBelow(root, p, Remove(dir, x), []);
    assert p + [] == p;
    WalkWF(root, p);
    RemoveExactlyOne(dir, x, x);
  }

  /** A successful `rm` keeps every dictionary's keys unique. */
  lemma RmKeepsWF(root: Node, path: string)
    requires WF(root) && RmResult(root, path).Removed?
    ensures WF(RmResult(root, path).root)
  {
    var p := RmDir(path);
    var x := RmName(path);
    var dir := Walk(root, p).value;
    WalkWF(root, p);
    RemoveWF(dir, x);
    GraftWF(root, p, Remove(dir, x));
  }

  /** A walk that finds part `i` missing fails as a whole. */
  lemma MissingPartStopsWalk(root: Node, p: seq<string>, i: nat)
    requires i < |p| && Walk(root, p[..i]).Some? && Child(Walk(root, p[..i]).value, p[i]).None?
    ensures Walk(root, p).None?
  {
    assert p == p[..i] + ([p[i]] + p[i + 1..]);
    WalkConcat(root, p[..i], [p[i]] + p[i + 1..]);
  }

  /** Every node reached from a well-formed tree is well formed. */
  lemma {:induction false} WalkWF(n: Node, p: seq<string>)
    requires WF(n) && Walk(n, p).Some?
    ensures WF(Walk(n, p).value)
    decreases |p|
  {
    if p != [] {
      WalkWF(Child(n, p[0]).value, p[1..]);
    }
  }

  // ---------------------------------------------------------------------
  // what `cd` relies on
  // ---------------------------------------------------------------------

  /** A relative path is looked up from the node of `cwd`. */
  lemma RelativeLookup(root: Node, cwd: string, path: string)
    requires !StartsWithSlash(path)
    ensures Locate(root, AbsolutePath(cwd, path))
         == match Locate(root, cwd)
            case None => None
            case Some(here) => Walk(here, Segments(path))
  {
    AbsolutePathSegments(cwd, path);
    WalkConcat(root, Segments(cwd), Segments(path));
  }

  /** One turn of the lookup loop: an empty part is skipped, any other is looked up in the current node. */
  lemma LookupStep(n: Node, parts: seq<string>, i: nat)
    requires i < |parts|
    ensures Walk(n, NonEmpty(parts[i..]))
         == if parts[i] == "" then Walk(n, NonEmpty(parts[i + 1..]))
            else match Child(n, parts[i])
                 case None => None
                 case Some(c) => Walk(c, NonEmpty(parts[i + 1..]))
  {
    var rest := parts[i + 1..];
    assert parts[i..] == [parts[i]] + rest;
    assert NonEmpty(parts[i..]) == if parts[i] == "" then NonEmpty(rest) else [parts[i]] + NonEmpty(rest);
    if parts[i] != "" {
      assert ([parts[i]] + NonEmpty(rest))[1..] == NonEmpty(rest);
    }
  }

  /** If the working directory resolves, so does the one `cd ..` moves to. */
  lemma ParentLocated(root: Node, cwd: string)
    ensures Locate(root, cwd).Some? ==> Locate(root, CdUp(cwd)).Some?
  {
    if cwd != "/" && Locate(root, cwd).Some? {
      var s := Segments(cwd);
      ParentSegments(cwd);
      if s != [] {
        assert s == DropLast(s) + [s[|s| - 1]];
        WalkConcat(root, DropLast(s), [s[|s| - 1]]);
      }
    }
  }

  // ---------------------------------------------------------------------
  // the session
  // ---------------------------------------------------------------------

  class ShellEmulator {
    var cwd: string
    var fs: Node
    var log: seq<string>

    /** `cwd` is absolute and every dictionary of the tree has unique keys. */
    ghost predicate Valid()
      reads this
    {
      StartsWithSlash(cwd) && WF(fs)
    }

    /** A session at `/` over the tree built from the archive's entry names, with an empty log. */
    constructor (members: seq<string>)
      ensures Valid()
      ensures cwd == "/" && fs == Build(members) && log == []
    {
      var root := BuildFsStructure(members);
      cwd := "/";
      fs := root;
      log := [];
      BuildWF(members);
    }

    /** `build_fs_structure`: insert the entries in order, creating each missing part. */
    static method BuildFsStructure(members: seq<string>) returns (root: Node)
      ensures root == Build(members)
    {
      root := Empty;
      var m := 0;
      while m < |members|
        invariant 0 <= m <= |members|
        invariant root == Build(members[..m])
      {
        root := InsertParts(root, Split(members[m], Slash));
        assert members[..m + 1][..m] == members[..m];
        m := m + 1;
      }
      assert members[..|members|] == members;
    }

    /**
      The inner loop of `build_fs_structure` for one entry: walk its parts
      from the root, creating each missing one as an empty dictionary.
    */
    static method InsertParts(root0: Node, parts: seq<string>) returns (root: Node)
      ensures root == AddPath(root0, parts)
    {
      root := root0;
      var current := root;
      var i := 0;
      while i < |parts|
        invariant 0 <= i <= |parts|
        invariant Walk(root, parts[..i]) == Some(current)
        invariant AddPath(root, parts) == AddPath(root0, parts)
      {
        var part := parts[i];
        if Child(current, part).None? {
          CreatePart(root, root0, parts, i, current);
          var updated := Put(current, part, Empty);
          root := Graft(root, parts[..i], updated);
          current := updated;
        }
        WalkOneMore(root, parts, i, current);
        current := Child(current, part).value;
        i := i + 1;
      }
      assert parts[..|parts|] == parts;
      AddPathExisting(root, parts);
    }

    /** `log_command`: one record per call, in order (the timestamp is not modelled). */
    method LogCommand(command: string)
      modifies this`log
      ensures log == old(log) + [command]
    {
      log := log + [command];
    }

    /** `get_directory`: walk the non-empty parts of the path from the root. */
    method GetDirectory(path: string) returns (r: Option<Node>)
      ensures r == Locate(fs, path)
    {
      var parts := StrippedParts(path);
      StrippedPartsSegments(path);
      assert parts[0..] == parts;
      var current := fs;
      var i := 0;
      while i < |parts|
        invariant 0 <= i <= |parts|
        invariant Walk(current, NonEmpty(parts[i..])) == Locate(fs, path)
      {
        var part := parts[i];
        LookupStep(current, parts, i);
        if part != "" {
          var next := Child(current, part);
          if next.None? {
            return None;
          }
          current := next.value;
        }
        i := i + 1;
      }
      return Some(current);
    }

    /** `ls`: the keys of the `cwd` node joined by newlines, or a not-found message. */
    method Ls() returns (out: seq<string>)
      requires Valid()
      modifies this`log
      ensures Valid()
      ensures out == match Locate(fs, cwd)
                     case Some(here) => [Join(Names(here.entries), '\n')]
                     case None => [DirNotFound(cwd)]
      ensures log == old(log) + ["ls"]
    {
      var parts := GetDirectory(cwd);
      if parts.Some? {
        out := [Join(Names(parts.value.entries), '\n')];
      } else {
        out := [DirNotFound(cwd)];
      }
      LogCommand("ls");
    }

    /**
      `cd path`: `/` and `..` are special; any other path is made absolute
      against `cwd` and committed only when it resolves. `fs` is untouched.
    */
    method Cd(path: string) returns (out: seq<string>)
      requires Valid()
      modifies this`cwd, this`log
      ensures Valid()
      ensures fs == old(fs)
      ensures path == "/" ==> cwd == "/" && out == []
      ensures path == ".." ==> cwd == CdUp(old(cwd)) && out == []
      ensures path != "/" && path != ".." ==>
        var target := AbsolutePath(old(cwd), path);
        if Locate(fs, target).Some? then cwd == target && out == []
        else cwd == old(cwd) && out == [DirNotFound(path)]
      ensures Locate(fs, old(cwd)).Some? ==> Locate(fs, cwd).Some?
      ensures log == old(log) + ["cd " + path]
    {
      out := [];
      if path == "/" {
        cwd := "/";
        LocateSlashesOnly(fs, cwd);
      } else if path == ".." {
        if cwd != "/" {
          ParentStartsWithSlash(cwd);
          ParentLocated(fs, cwd);
          cwd := Parent(cwd);
        }
      } else {
        var newPath := AbsolutePath(cwd, path);
        var directory := GetDirectory(newPath);
        if directory.Some? {
          cwd := newPath;
        } else {
          out := [DirNotFound(path)];
        }
      }
      LogCommand("cd " + path);
    }

    /** The loop of `rm` that walks `parts[:-1]` from the root, key by key. */
    static method WalkParts(root: Node, dir: seq<string>) returns (r: Option<Node>)
      ensures r == Walk(root, dir)
    {
      var currentDir := root;
      var i := 0;
      while i < |dir|
        invariant 0 <= i <= |dir|
        invariant Walk(root, dir[..i]) == Some(currentDir)
      {
        var next := Child(currentDir, dir[i]);
        if next.None? {
          MissingPartStopsWalk(root, dir, i);
          return None;
        }
        WalkConcat(root, dir[..i], [dir[i]]);
        assert dir[..i + 1] == dir[..i] + [dir[i]];
        currentDir := next.value;
        i := i + 1;
      }
      assert dir[..|dir|] == dir;
      r := Some(currentDir);
    }

    /**
      `rm path`: resolve the literal parts of `path` from the root, then
      delete the last one from its parent. A missing parent returns before
      the command is logged.
    */
    method Rm(path: string) returns (out: seq<string>)
      requires Valid()
      modifies this`fs, this`log
      ensures Valid()
      ensures cwd == old(cwd)
      ensures match RmResult(old(fs), path)
              case ParentMissing => fs == old(fs) && out == [FileNotFound(path)] && log == old(log)
              case TargetMissing => fs == old(fs) && out == [FileNotFound(path)] && log == old(log) + ["rm " + path]
              case Removed(root) => fs == root && out == [Deleted(path)] && log == old(log) + ["rm " + path]
    {
      var dir := RmDir(path);
      var name := RmName(path);
      var parent := WalkParts(fs, dir);
      if parent.None? {
        out := [FileNotFound(path)];
        return;
      }
      var currentDir := parent.value;
      if Child(currentDir, name).Some? {
        RmKeepsWF(fs, path);
        fs := Graft(fs, dir, Remove(currentDir, name));
        out := [Deleted(path)];
      } else {
        out := [FileNotFound(path)];
      }
      LogCommand("rm " + path);
    }

    /**
      `tree(directory=None, level=0)`: print the subtree of `directory`
      (default `cwd`); a missing directory returns before the command is logged.
    */
    method Tree(directory: Option<string>, level: nat) returns (out: seq<string>)
      requires Valid()
      modifies this`log
      ensures Valid()
      ensures var dir := directory.GetOr(cwd);
        match Locate(fs, dir)
        case None => out == [DirNotFound(dir)] && log == old(log)
        case Some(here) => out == PrintTree(here, level) && log == old(log) + ["tree"]
    {
      var dir := if directory.None? then cwd else directory.value;
      var dirParts := GetDirectory(dir);
      if dirParts.None? {
        out := [DirNotFound(dir)];
        return;
      }
      out := PrintTree(dirParts.value, level);
      LogCommand("tree");
    }

    /** `exit`: the farewell message and the `exit` record; writing the log and ending the process are not modelled. */
    method Exit() returns (out: seq<string>)
      modifies this`log
      ensures out == [ExitMessage()]
      ensures log == old(log) + ["exit"]
    {
      out := [ExitMessage()];
      LogCommand("exit");
    }
  }
}
