/**
  A whole session over the archive with entries `a/b/c` and `a/d`: listing,
  moving down and back up, deleting `a/d`, a failed `cd`, `tree` and `exit`,
  with every printed line and the final log stated exactly.
*/
module Scenario {
  import opened Wrappers
  import opened Paths
  import opened FileTree
  import opened TreeView
  import opened Shell

  const Leaf: Node := Empty
  const B: Node := Node([Entry("c", Leaf)])
  const A: Node := Node([Entry("b", B), Entry("d", Leaf)])
  const Root: Node := Node([Entry("a", A)])

  /** One-word paths split into themselves and have themselves as only segment. */
  lemma Word(w: string)
    requires w != "" && Slash !in w
    ensures Split(w, Slash) == [w]
    ensures Segments(w) == [w]
  {
    SplitNoSeparator(w, Slash);
  }

  /** `/w` and `/v/w` have the expected segments. */
  lemma AbsoluteWords(v: string, w: string)
    requires v != "" && Slash !in v && w != "" && Slash !in w
    ensures Segments("/" + w) == [w]
    ensures Segments("/" + v + "/" + w) == [v, w]
  {
    Word(v);
    Word(w);
    SegmentsIgnoreOuterSlashes(w);
    SegmentsConcat("/" + v, w);
    SegmentsIgnoreOuterSlashes(v);
  }

  /** The parts of the two entry names. */
  lemma SplitArchive()
    ensures Split("a/b/c", Slash) == ["a", "b", "c"]
    ensures Split("a/d", Slash) == ["a", "d"]
  {
    Word("a"); Word("b"); Word("c"); Word("d");
    SplitConcat("b", "c", Slash);
    assert "b" + [Slash] + "c" == "b/c";
    SplitConcat("a", "b/c", Slash);
    assert "a" + [Slash] + "b/c" == "a/b/c";
    SplitConcat("a", "d", Slash);
    assert "a" + [Slash] + "d" == "a/d";
  }

  /** The first entry builds the chain `a -> b -> c`. */
  lemma BuildFirst()
    ensures Build(["a/b/c"]) == Node([Entry("a", Node([Entry("b", B)]))])
  {
    SplitArchive();
    var members := ["a/b/c"];
    assert members[..0] == [];
    assert AddPath(Empty, []) == Empty;
    assert AddPath(Empty, ["c"]) == B;
    assert ["b", "c"][1..] == ["c"];
    assert AddPath(Empty, ["b", "c"]) == Node([Entry("b", B)]);
    assert ["a", "b", "c"][1..] == ["b", "c"];
  }

  /** The archive's two entries build the tree `a -> {b -> {c}, d}`. */
  lemma BuildArchive()
    ensures Build(["a/b/c", "a/d"]) == Root
  {
    var members := ["a/b/c", "a/d"];
    SplitArchive();
    BuildFirst();
    assert members[..1] == ["a/b/c"];
    var first := Node([Entry("a", Node([Entry("b", B)]))]);
    var a1 := Node([Entry("b", B)]);
    assert IndexOf(first.entries, "a") == 0;
    assert Child(first, "a") == Some(a1);
    assert IndexOf(a1.entries, "d") == 1;
    assert Child(a1, "d") == None;
    assert AddPath(Empty, []) == Empty;
    assert AddPath(a1, ["d"]) == A;
    assert ["a", "d"][1..] == ["d"];
    assert AddPath(first, ["a", "d"]) == Put(first, "a", A);
  }

  /** `rm a/d` deletes `d` from `a`. */
  lemma RmArchive()
    ensures RmResult(Root, "a/d") == Removed(Node([Entry("a", Node([Entry("b", B)]))]))
  {
    SplitArchive();
    assert RStrip("a/d", Slash) == "a/d";
    assert LStrip("a/d", Slash) == "a/d";
    assert StrippedParts("a/d") == ["a", "d"];
    assert RmDir("a/d") == ["a"];
    assert RmName("a/d") == "d";
    assert IndexOf(Root.entries, "a") == 0;
    assert Walk(Root, ["a"]) == Some(A);
    assert IndexOf(A.entries, "d") == 1;
    assert Remove(A, "d") == Node([Entry("b", B)]);
  }

  /** `cd ..` from `/a/b` goes to `/a`, and from `/a` to `/`. */
  lemma CdUpArchive()
    ensures CdUp("/a/b") == "/a"
    ensures CdUp("/a") == "/"
  {
    Word("a"); Word("b");
    assert RStrip("/a/b", Slash) == "/a/b";
    assert RStrip("/a", Slash) == "/a";
    SplitConcat("", "a", Slash);
    assert "" + [Slash] + "a" == "/a";
    SplitNoSeparator("", Slash);
    SplitConcat("/a", "b", Slash);
    assert "/a" + [Slash] + "b" == "/a/b";
    assert Split("/a", Slash) == ["", "a"];
    assert Split("/a/b", Slash) == ["", "a", "b"];
    assert Join(["", "a"], Slash) == "/a";
    assert Join([""], Slash) == "";
  }

  /** The directory `/a` after `rm a/d`, and the whole tree then. */
  const APruned: Node := Node([Entry("b", B)])
  const Pruned: Node := Node([Entry("a", APruned)])

  /** `/a` locates `a`, before and after the deletion. */
  lemma LocateA()
    ensures Locate(Root, "/a") == Some(A)
    ensures Locate(Pruned, "/a") == Some(APruned)
  {
    Word("a");
    SegmentsIgnoreOuterSlashes("a");
    assert Segments("/a") == ["a"];
    assert ["a"][1..] == [];
    assert IndexOf(Root.entries, "a") == 0;
    assert Walk(Root, ["a"]) == Some(A);
    assert IndexOf(Pruned.entries, "a") == 0;
    assert Walk(Pruned, ["a"]) == Some(APruned);
  }

  /** `/a/b` locates `b`. */
  lemma LocateAB()
    ensures Locate(Root, "/a/b") == Some(B)
  {
    AbsoluteWords("a", "b");
    assert "/" + "a" + "/" + "b" == "/a/b";
    assert ["a", "b"][1..] == ["b"];
    assert ["b"][1..] == [];
    assert IndexOf(Root.entries, "a") == 0;
    assert IndexOf(A.entries, "b") == 0;
  }

  /** `/a/nope` locates nothing. */
  lemma LocateNope()
    ensures Locate(Pruned, "/a/nope") == None
  {
    AbsoluteWords("a", "nope");
    assert "/" + "a" + "/" + "nope" == "/a/nope";
    assert ["a", "nope"][1..] == ["nope"];
    assert IndexOf(Pruned.entries, "a") == 0;
    assert IndexOf(APruned.entries, "nope") == 1;
  }

  /** The absolute paths `cd` forms. */
  lemma AbsolutePathsArchive()
    ensures AbsolutePath("/", "a") == "/a"
    ensures AbsolutePath("/a", "b") == "/a/b"
    ensures AbsolutePath("/a", "nope") == "/a/nope"
  {
    assert RStrip("/a", Slash) == "/a";
  }

  /** The lines `tree` prints for `/a` after `rm a/d`. */
  lemma TreeArchive()
    ensures PrintTree(APruned, 0) == ["|-- b", "    |-- c"]
  {
    assert Marker(0) == "|-- ";
    assert Indent(1) == "    ";
    assert Marker(1) == "    |-- ";
    assert PrintFrom(Empty, 0, 2) == [];
    assert PrintFrom(B, 1, 1) == [];
    assert Marker(1) + "c" == "    |-- c";
    assert Marker(0) + "b" == "|-- b";
    assert PrintFrom(B, 0, 1) == ["    |-- c"];
    assert PrintFrom(APruned, 1, 0) == [];
  }

  /** What `ls` prints at each node it lists. */
  lemma ListingsArchive()
    ensures Join(Names(Root.entries), '\n') == "a"
    ensures Join(Names(A.entries), '\n') == "b\nd"
    ensures Join(Names(B.entries), '\n') == "c"
    ensures Join(Names(APruned.entries), '\n') == "b"
  {
    assert Names(Root.entries) == ["a"];
    assert Names(A.entries) == ["b", "d"];
    assert Names(B.entries) == ["c"];
    assert Names(APruned.entries) == ["b"];
  }

  /** The messages and log records the session produces. */
  lemma TextsArchive()
    ensures Deleted("a/d") == "Удалено: a/d"
    ensures DirNotFound("nope") == "Каталог 'nope' не найден"
    ensures "cd " + "a" == "cd a" && "cd " + "b" == "cd b" && "cd " + ".." == "cd .."
    ensures "cd " + "nope" == "cd nope" && "rm " + "a/d" == "rm a/d"
  {
  }

  // ---------------------------------------------------------------------
  // the session, one command at a time
  // ---------------------------------------------------------------------

  /** `ls` at `/` lists `a`. */
  method ListRoot(sh: ShellEmulator) returns (out: seq<string>)
    requires sh.Valid() && sh.fs == Root && sh.cwd == "/"
    modifies sh
    ensures sh.Valid() && sh.fs == Root && sh.cwd == "/"
    ensures out == ["a"] && sh.log == old(sh.log) + ["ls"]
  {
    LocateSlashesOnly(Root, "/");
    ListingsArchive();
    out := sh.Ls();
  }

  /** `cd a` at `/` moves to `/a`, over the tree `t`. */
  method EnterA(sh: ShellEmulator, t: Node, a: Node) returns (out: seq<string>)
    requires (t == Root && a == A) || (t == Pruned && a == APruned)
    requires sh.Valid() && sh.fs == t && sh.cwd == "/"
    modifies sh
    ensures sh.Valid() && sh.fs == t && sh.cwd == "/a"
    ensures out == [] && sh.log == old(sh.log) + ["cd a"]
  {
    LocateA();
    AbsolutePathsArchive();
    TextsArchive();
    out := sh.Cd("a");
  }

  /** `ls` at `/a` lists the keys of `a` in insertion order. */
  method ListA(sh: ShellEmulator, t: Node, a: Node) returns (out: seq<string>)
    requires (t == Root && a == A) || (t == Pruned && a == APruned)
    requires sh.Valid() && sh.fs == t && sh.cwd == "/a"
    modifies sh
    ensures sh.Valid() && sh.fs == t && sh.cwd == "/a"
    ensures out == [Join(Names(a.entries), '\n')] && sh.log == old(sh.log) + ["ls"]
  {
    LocateA();
    out := sh.Ls();
  }

  /** `cd b` at `/a` moves to `/a/b`. */
  method EnterB(sh: ShellEmulator) returns (out: seq<string>)
    requires sh.Valid() && sh.fs == Root && sh.cwd == "/a"
    modifies sh
    ensures sh.Valid() && sh.fs == Root && sh.cwd == "/a/b"
    ensures out == [] && sh.log == old(sh.log) + ["cd b"]
  {
    LocateAB();
    AbsolutePathsArchive();
    TextsArchive();
    out := sh.Cd("b");
  }

  /** `ls` at `/a/b` lists `c`. */
  method ListB(sh: ShellEmulator) returns (out: seq<string>)
    requires sh.Valid() && sh.fs == Root && sh.cwd == "/a/b"
    modifies sh
    ensures sh.Valid() && sh.fs == Root && sh.cwd == "/a/b"
    ensures out == ["c"] && sh.log == old(sh.log) + ["ls"]
  {
    LocateAB();
    ListingsArchive();
    out := sh.Ls();
  }

  /** `cd ..` moves from `/a/b` to `/a`, and from `/a` to `/`. */
  method Up(sh: ShellEmulator) returns (out: seq<string>)
    requires sh.Valid() && sh.fs == Root && (sh.cwd == "/a/b" || sh.cwd == "/a")
    modifies sh
    ensures sh.Valid() && sh.fs == Root && sh.cwd == (if old(sh.cwd) == "/a/b" then "/a" else "/")
    ensures out == [] && sh.log == old(sh.log) + ["cd .."]
  {
    CdUpArchive();
    TextsArchive();
    out := sh.Cd("..");
  }

  /** `rm a/d` at `/` deletes the key `d` from `/a`. */
  method Delete(sh: ShellEmulator) returns (out: seq<string>)
    requires sh.Valid() && sh.fs == Root && sh.cwd == "/"
    modifies sh
    ensures sh.Valid() && sh.fs == Pruned && sh.cwd == "/"
    ensures out == ["Удалено: a/d"] && sh.log == old(sh.log) + ["rm a/d"]
  {
    RmArchive();
    TextsArchive();
    out := sh.Rm("a/d");
  }

  /** `cd nope` at `/a` reports the missing directory and stays in `/a`. */
  method Miss(sh: ShellEmulator) returns (out: seq<string>)
    requires sh.Valid() && sh.fs == Pruned && sh.cwd == "/a"
    modifies sh
    ensures sh.Valid() && sh.fs == Pruned && sh.cwd == "/a"
    ensures out == ["Каталог 'nope' не найден"] && sh.log == old(sh.log) + ["cd nope"]
  {
    LocateNope();
    AbsolutePathsArchive();
    TextsArchive();
    out := sh.Cd("nope");
  }

  /** `tree` at `/a` after the deletion shows `b` and, indented below it, `c`. */
  method ShowTree(sh: ShellEmulator) returns (out: seq<string>)
    requires sh.Valid() && sh.fs == Pruned && sh.cwd == "/a"
    modifies sh
    ensures sh.Valid() && sh.fs == Pruned && sh.cwd == "/a"
    ensures out == ["|-- b", "    |-- c"] && sh.log == old(sh.log) + ["tree"]
  {
    LocateA();
    TreeArchive();
    out := sh.Tree(None, 0);
  }

  /** `ls`, `cd a`, `ls`, `cd b`, `ls`, `cd ..`, `cd ..` from `/`: the listings, and back at `/`. */
  method Browse(sh: ShellEmulator) returns (outs: seq<seq<string>>)
    requires sh.Valid() && sh.fs == Root && sh.cwd == "/"
    modifies sh
    ensures sh.Valid() && sh.fs == Root && sh.cwd == "/"
    ensures outs == [["a"], [], ["b\nd"], [], ["c"], [], []]
    ensures sh.log == old(sh.log) + ["ls", "cd a", "ls", "cd b", "ls", "cd ..", "cd .."]
  {
    ListingsArchive();
    var o1 := ListRoot(sh);
    var o2 := EnterA(sh, Root, A);
    var o3 := ListA(sh, Root, A);
    var o4 := EnterB(sh);
    var o5 := ListB(sh);
    var o6 := Up(sh);
    var o7 := Up(sh);
    outs := [o1, o2, o3, o4, o5, o6, o7];
  }

  /** `rm a/d`, `cd a`, `ls`, `cd nope`, `tree`, `exit` from `/`: `d` is gone, and the failed `cd` stays in `/a`. */
  method Prune(sh: ShellEmulator) returns (outs: seq<seq<string>>)
    requires sh.Valid() && sh.fs == Root && sh.cwd == "/"
    modifies sh
    ensures sh.fs == Pruned && sh.cwd == "/a"
    ensures outs == [["Удалено: a/d"], [], ["b"], ["Каталог 'nope' не найден"], ["|-- b", "    |-- c"], ["Выход..."]]
    ensures sh.log == old(sh.log) + ["rm a/d", "cd a", "ls", "cd nope", "tree", "exit"]
  {
    ListingsArchive();
    var o1 := Delete(sh);
    var o2 := EnterA(sh, Pruned, APruned);
    var o3 := ListA(sh, Pruned, APruned);
    var o4 := Miss(sh);
    var o5 := ShowTree(sh);
    var o6 := sh.Exit();
    outs := [o1, o2, o3, o4, o5, o6];
  }

  /** A session over the archive with entries `a/b/c` and `a/d` starts at `/` over `Root`. */
  method Open() returns (sh: ShellEmulator)
    ensures fresh(sh) && sh.Valid() && sh.fs == Root && sh.cwd == "/" && sh.log == []
  {
    BuildArchive();
    sh := new ShellEmulator(["a/b/c", "a/d"]);
  }

  /**
    The whole session over the archive with entries `a/b/c` and `a/d`: what
    each of the thirteen commands prints, and the log of all of them in order.
  */
  method Session() returns (outs: seq<seq<string>>, log: seq<string>)
    ensures outs == [
      ["a"], [], ["b\nd"], [], ["c"], [], [],
      ["Удалено: a/d"], [], ["b"], ["Каталог 'nope' не найден"], ["|-- b", "    |-- c"], ["Выход..."]]
    ensures log == ["ls", "cd a", "ls", "cd b", "ls", "cd ..", "cd ..", "rm a/d", "cd a", "ls", "cd nope", "tree", "exit"]
  {
    var sh := Open();
    var browsing := Browse(sh);
    var pruning := Prune(sh);
    outs := browsing + pruning;
    log := sh.log;
  }
}
