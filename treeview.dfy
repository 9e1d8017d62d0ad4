/**
  `_print_tree`: one output line per descendant, preorder, in insertion
  order, each line indented four spaces per level and marked with `|-- `.
*/
module TreeView {
  import opened FileTree

  /** `"    " * level`. */
  function Indent(level: nat): (s: string)
    ensures |s| == 4 * level
    ensures forall i :: 0 <= i < |s| ==> s[i] == ' '
  {
    seq(4 * level, _ => ' ')
  }

  /** What precedes the name on a line printed at `level`. */
  function Marker(level: nat): string
  {
    Indent(level) + "|-- "
  }

  /**
    The lines `_print_tree(n, level)` prints for the entries of `n` from
    position `i` on: each entry's line, then its subtree one level deeper.
  */
  function PrintFrom(n: Node, i: nat, level: nat): seq<string>
    requires i <= |n.entries|
    decreases n, |n.entries| - i
  {
    if i == |n.entries| then []
    else
      [Marker(level) + n.entries[i].name]
      + PrintFrom(n.entries[i].node, 0, level + 1)
      + PrintFrom(n, i + 1, level)
  }

  function PrintTree(n: Node, level: nat): seq<string>
  {
    PrintFrom(n, 0, level)
  }

  /** Number of descendants of the entries of `n` from position `i` on. */
  function SizeFrom(n: Node, i: nat): nat
    requires i <= |n.entries|
    decreases n, |n.entries| - i
  {
    if i == |n.entries| then 0
    else 1 + SizeFrom(n.entries[i].node, 0) + SizeFrom(n, i + 1)
  }

  /** Number of nodes below `n`. */
  function Size(n: Node): nat
  {
    SizeFrom(n, 0)
  }

  /** One line per descendant. */
  lemma {:induction false} PrintFromCount(n: Node, i: nat, level: nat)
    requires i <= |n.entries|
    ensures |PrintFrom(n, i, level)| == SizeFrom(n, i)
    decreases n, |n.entries| - i
  {
    if i < |n.entries| {
      PrintFromCount(n.entries[i].node, 0, level + 1);
      PrintFromCount(n, i + 1, level);
    }
  }

  lemma PrintTreeCount(n: Node, level: nat)
    ensures |PrintTree(n, level)| == Size(n)
  {
    PrintFromCount(n, 0, level);
  }

  /**
    `line` is a line printed for a node at some depth `m` no shallower than
    `level`: four spaces per level of `m`, the marker, then the name.
  */
  ghost predicate MarkedBelow(line: string, level: nat)
  {
    exists m: nat :: level <= m && Marker(m) <= line
  }

  /**
    Every line printed at `level` is a marked line of depth `level` or
    deeper (the subtrees recurse at `level + 1`), and so starts with the
    indentation of `level` followed by at least the four marker characters.
  */
  lemma {:induction false} PrintFromIndented(n: Node, i: nat, level: nat)
    requires i <= |n.entries|
    ensures forall k :: 0 <= k < |PrintFrom(n, i, level)| ==> MarkedBelow(PrintFrom(n, i, level)[k], level)
    ensures forall k :: 0 <= k < |PrintFrom(n, i, level)| ==>
      |PrintFrom(n, i, level)[k]| >= 4 * level + 4 && PrintFrom(n, i, level)[k][..4 * level] == Indent(level)
    decreases n, |n.entries| - i
  {
    if i < |n.entries| {
      var head := Marker(level) + n.entries[i].name;
      var sub := PrintFrom(n.entries[i].node, 0, level + 1);
      var rest := PrintFrom(n, i + 1, level);
      var all := PrintFrom(n, i, level);
      PrintFromIndented(n.entries[i].node, 0, level + 1);
      PrintFromIndented(n, i + 1, level);
      assert all == [head] + sub + rest;
      assert head[..4 * level] == Indent(level);
      forall k | 0 <= k < |sub| ensures sub[k][..4 * level] == Indent(level) && MarkedBelow(sub[k], level) {
        assert sub[k][..4 * level] == sub[k][..4 * (level + 1)][..4 * level];
        assert MarkedBelow(sub[k], level + 1);
        var m: nat :| level + 1 <= m && Marker(m) <= sub[k];
        assert level <= m;
      }
      assert Marker(level) <= head;
      assert MarkedBelow(head, level);
    }
  }

  /** The names of the lines printed at exactly `level` (marker right after the indentation). */
  function TopLevel(lines: seq<string>, level: nat): seq<string>
  {
    if lines == [] then []
    else
      (if Marker(level) <= lines[0] then [lines[0][|Marker(level)|..]] else [])
      + TopLevel(lines[1..], level)
  }

  lemma {:induction false} TopLevelConcat(a: seq<string>, b: seq<string>, level: nat)
    ensures TopLevel(a + b, level) == TopLevel(a, level) + TopLevel(b, level)
    decreases |a|
  {
    if a == [] {
      assert a + b == b;
    } else {
      assert (a + b)[0] == a[0];
      assert (a + b)[1..] == a[1..] + b;
      TopLevelConcat(a[1..], b, level);
    }
  }

  /** Lines indented one level deeper are never taken for lines at `level`. */
  lemma {:induction false} TopLevelDeeper(lines: seq<string>, level: nat)
    requires forall k :: 0 <= k < |lines| ==>
      |lines[k]| >= 4 * (level + 1) && lines[k][..4 * (level + 1)] == Indent(level + 1)
    ensures TopLevel(lines, level) == []
    decreases |lines|
  {
    if lines != [] {
      assert lines[0][4 * level] == Indent(level + 1)[4 * level] == ' ';
      assert Marker(level)[4 * level] == '|';
      TopLevelDeeper(lines[1..], level);
    }
  }

  /** The lines printed at the starting level name exactly the entries, in order. */
  lemma {:induction false} TopLevelPrintFrom(n: Node, i: nat, level: nat)
    requires i <= |n.entries|
    ensures TopLevel(PrintFrom(n, i, level), level) == Names(n.entries)[i..]
    decreases |n.entries| - i
  {
    if i < |n.entries| {
      var head := Marker(level) + n.entries[i].name;
      var sub := PrintFrom(n.entries[i].node, 0, level + 1);
      var rest := PrintFrom(n, i + 1, level);
      TopLevelConcat([head] + sub, rest, level);
      TopLevelConcat([head], sub, level);
      assert Marker(level) <= head;
      assert head[|Marker(level)|..] == n.entries[i].name;
      assert TopLevel([head], level) == [n.entries[i].name];
      PrintFromIndented(n.entries[i].node, 0, level + 1);
      TopLevelDeeper(sub, level);
      TopLevelPrintFrom(n, i + 1, level);
      assert Names(n.entries)[i..] == [n.entries[i].name] + Names(n.entries)[i + 1..];
    }
  }

  /** `tree` shows, at its first level, exactly what `ls` lists for the same node. */
  lemma TreeTopLevelIsNames(n: Node, level: nat)
    ensures TopLevel(PrintTree(n, level), level) == Names(n.entries)
  {
    TopLevelPrintFrom(n, 0, level);
  }
}
