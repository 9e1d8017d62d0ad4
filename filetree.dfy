/**
  The in-memory virtual filesystem: a tree of nested dictionaries whose keys
  are entry names. A Python dict keeps insertion order, which `ls` and `tree`
  show, so a node is an ordered sequence of (name, child) entries.

  The shell mutates nested dictionaries in place through aliases (`current =
  current[part]`, then `current[...] = {}` or `del current[...]`). On values
  that is `Graft(root, p, c)`: the node reached by the literal path `p` is
  replaced by `c`, everything else staying as it was.
*/
module FileTree {
  import opened Wrappers
  import opened Paths

  datatype Node = Node(entries: seq<Entry>)
  datatype Entry = Entry(name: string, node: Node)

  /** A fresh `{}`. */
  const Empty: Node := Node([])

  /** The keys of a node, in insertion order. */
  function Names(es: seq<Entry>): seq<string>
  {
    seq(|es|, i requires 0 <= i < |es| => es[i].name)
  }

  /** Python dict keys are unique. */
  ghost predicate UniqueNames(es: seq<Entry>)
  {
    forall i, j :: 0 <= i < j < |es| ==> es[i].name != es[j].name
  }

  /** Every node of the tree has unique keys. */
  ghost predicate WF(n: Node)
    decreases n
  {
    && UniqueNames(n.entries)
    && forall i :: 0 <= i < |n.entries| ==> WF(n.entries[i].node)
  }

  // ---------------------------------------------------------------------
  // single-level dictionary operations
  // ---------------------------------------------------------------------

  /** Position of the first entry named `x`, or `|es|` when there is none. */
  function IndexOf(es: seq<Entry>, x: string): (j: nat)
    ensures j <= |es|
    ensures j < |es| ==> es[j].name == x
    ensures forall i :: 0 <= i < j ==> es[i].name != x
    decreases |es|
  {
    if es == [] then 0
    else if es[0].name == x then 0
    else 1 + IndexOf(es[1..], x)
  }

  /** The characterisation of `IndexOf` pins the position down. */
  lemma IndexOfIs(es: seq<Entry>, x: string, j: nat)
    requires j <= |es|
    requires j < |es| ==> es[j].name == x
    requires forall i :: 0 <= i < j ==> es[i].name != x
    ensures IndexOf(es, x) == j
  {
    var k := IndexOf(es, x);
  }

  /** `current.get(x)`, or `current[x]` when `x in current`. */
  function Child(n: Node, x: string): Option<Node>
  {
    var j := IndexOf(n.entries, x);
    if j < |n.entries| then Some(n.entries[j].node) else None
  }

  /** `x in current` holds exactly when `x` is one of the node's keys. */
  lemma ChildIffName(n: Node, x: string)
    ensures Child(n, x).Some? <==> x in Names(n.entries)
  {
    var j := IndexOf(n.entries, x);
    if j < |n.entries| {
      assert Names(n.entries)[j] == x;
    }
    if x in Names(n.entries) {
      var i :| 0 <= i < |n.entries| && Names(n.entries)[i] == x;
      assert n.entries[i].name == x;
    }
  }

  /** Replaces the child under an existing key, keeping its position. */
  function SetChild(n: Node, x: string, k: Node): Node
  {
    var j := IndexOf(n.entries, x);
    if j < |n.entries| then Node(n.entries[j := Entry(x, k)]) else n
  }

  /** `current[x] = k`: replace in place when the key exists, append otherwise. */
  function Put(n: Node, x: string, k: Node): Node
  {
    if Child(n, x).Some? then SetChild(n, x, k) else Node(n.entries + [Entry(x, k)])
  }

  /** `del current[x]`: the entry goes, the others keep their order. */
  function Remove(n: Node, x: string): Node
  {
    var j := IndexOf(n.entries, x);
    if j < |n.entries| then Node(n.entries[..j] + n.entries[j + 1..]) else n
  }

  lemma ChildSetChild(n: Node, x: string, k: Node, y: string)
    requires Child(n, x).Some?
    ensures Child(SetChild(n, x, k), y) == if y == x then Some(k) else Child(n, y)
    ensures Names(SetChild(n, x, k).entries) == Names(n.entries)
  {
    var es := n.entries;
    var j := IndexOf(es, x);
    var es' := es[j := Entry(x, k)];
    var jy := IndexOf(es, y);
    if y == x {
      IndexOfIs(es', y, j);
    } else {
      assert forall i :: 0 <= i < |es'| ==> es'[i].name == es[i].name;
      IndexOfIs(es', y, jy);
    }
    assert Names(es') == Names(es);
  }

  lemma ChildPut(n: Node, x: string, k: Node, y: string)
    ensures Child(Put(n, x, k), y) == if y == x then Some(k) else Child(n, y)
  {
    if Child(n, x).Some? {
      ChildSetChild(n, x, k, y);
    } else {
      var es := n.entries;
      var es' := es + [Entry(x, k)];
      var jy := IndexOf(es, y);
      assert IndexOf(es, x) == |es|;
      if y == x {
        IndexOfIs(es', y, |es|);
      } else {
        IndexOfIs(es', y, if jy < |es| then jy else |es'|);
      }
    }
  }

  /** The entries left by `Remove`, by position. */
  lemma RemoveEntries(n: Node, x: string)
    requires Child(n, x).Some?
    ensures var j := IndexOf(n.entries, x);
      && |Remove(n, x).entries| == |n.entries| - 1
      && forall i :: 0 <= i < |n.entries| - 1 ==>
           Remove(n, x).entries[i] == if i < j then n.entries[i] else n.entries[i + 1]
  {
  }

  /** The deleted key is gone: keys are unique, so no later entry has it. */
  lemma RemovedKeyGone(n: Node, x: string)
    requires UniqueNames(n.entries)
    requires Child(n, x).Some?
    ensures Child(Remove(n, x), x) == None
  {
    var es := n.entries;
    var j := IndexOf(es, x);
    var es' := Remove(n, x).entries;
    RemoveEntries(n, x);
    forall i | 0 <= i < |es'| ensures es'[i].name != x {
      if i < j { assert es'[i] == es[i]; } else { assert es'[i] == es[i + 1]; }
    }
    IndexOfIs(es', x, |es'|);
  }

  /** Every other key finds the same child as before the deletion. */
  lemma RemoveKeepsOther(n: Node, x: string, y: string)
    requires Child(n, x).Some? && y != x
    ensures Child(Remove(n, x), y) == Child(n, y)
  {
    var es := n.entries;
    var j := IndexOf(es, x);
    var es' := Remove(n, x).entries;
    RemoveEntries(n, x);
    var jy := IndexOf(es, y);
    if jy < j {
      forall i | 0 <= i < jy ensures es'[i].name != y {
        assert es'[i] == es[i];
      }
      IndexOfIs(es', y, jy);
    } else if jy < |es| {
      assert es'[jy - 1] == es[jy];
      forall i | 0 <= i < jy - 1 ensures es'[i].name != y {
        if i < j { assert es'[i] == es[i]; } else { assert es'[i] == es[i + 1]; }
      }
      IndexOfIs(es', y, jy - 1);
    } else {
      forall i | 0 <= i < |es'| ensures es'[i].name != y {
        if i < j { assert es'[i] == es[i]; } else { assert es'[i] == es[i + 1]; }
      }
      IndexOfIs(es', y, |es'|);
    }
  }

  /**
    Deleting key `x` removes exactly that key: it is gone and every other key
    finds the same child as before.
  */
  lemma RemoveExactlyOne(n: Node, x: string, y: string)
    requires UniqueNames(n.entries)
    requires Child(n, x).Some?
    ensures Child(Remove(n, x), y) == if y == x then None else Child(n, y)
  {
    if y == x {
      RemovedKeyGone(n, x);
    } else {
      RemoveKeepsOther(n, x, y);
    }
  }

  /** After deleting key `x`, the remaining keys are the old ones without `x`, in the old order. */
  lemma RemoveKeepsOrder(n: Node, x: string)
    requires Child(n, x).Some?
    ensures var j := IndexOf(n.entries, x);
      && Names(n.entries)[j] == x
      && Names(Remove(n, x).entries) == Names(n.entries)[..j] + Names(n.entries)[j + 1..]
  {
    RemoveEntries(n, x);
  }

  // ---------------------------------------------------------------------
  // well-formedness is kept by every update
  // ---------------------------------------------------------------------

  lemma SetChildWF(n: Node, x: string, k: Node)
    requires WF(n) && WF(k)
    ensures WF(SetChild(n, x, k))
  {
    var es := n.entries;
    var j := IndexOf(es, x);
    if j < |es| {
      var es' := es[j := Entry(x, k)];
      assert forall i :: 0 <= i < |es'| ==> es'[i].name == es[i].name;
      assert forall i :: 0 <= i < |es'| ==> WF(es'[i].node) by {
        forall i | 0 <= i < |es'| ensures WF(es'[i].node) {
          if i != j { assert es'[i] == es[i]; }
        }
      }
    }
  }

  lemma PutWF(n: Node, x: string, k: Node)
    requires WF(n) && WF(k)
    ensures WF(Put(n, x, k))
  {
    if Child(n, x).Some? {
      SetChildWF(n, x, k);
    } else {
      var es' := n.entries + [Entry(x, k)];
      assert IndexOf(n.entries, x) == |n.entries|;
      assert forall i :: 0 <= i < |es'| ==> WF(es'[i].node) by {
        forall i | 0 <= i < |es'| ensures WF(es'[i].node) {
          if i < |n.entries| { assert es'[i] == n.entries[i]; }
        }
      }
    }
  }

  lemma RemoveWF(n: Node, x: string)
    requires WF(n)
    ensures WF(Remove(n, x))
  {
    var es := n.entries;
    var j := IndexOf(es, x);
    if j < |es| {
      var es' := es[..j] + es[j + 1..];
      assert forall i :: 0 <= i < |es'| ==> es'[i] == if i < j then es[i] else es[i + 1];
    }
  }

  // ---------------------------------------------------------------------
  // walking literal paths, and updating the node at a path
  // ---------------------------------------------------------------------

  /** Follows every part of `p` as a key, from `n`; None when a key is missing. */
  function Walk(n: Node, p: seq<string>): Option<Node>
    decreases |p|
  {
    if p == [] then Some(n)
    else match Child(n, p[0])
      case None => None
      case Some(c) => Walk(c, p[1..])
  }

  /** Walking `p + q` is walking `p`, then `q` from where `p` ended. */
  lemma {:induction false} WalkConcat(n: Node, p: seq<string>, q: seq<string>)
    ensures Walk(n, p + q) == if Walk(n, p).None? then None else Walk(Walk(n, p).value, q)
    decreases |p|
  {
    if p == [] {
      assert p + q == q;
    } else {
      assert (p + q)[0] == p[0];
      assert (p + q)[1..] == p[1..] + q;
      match Child(n, p[0])
      case None =>
      case Some(c) => WalkConcat(c, p[1..], q);
    }
  }

  /** The `i`-th part of `p` is the first one missing along the walk. */
  ghost predicate MissingAt(n: Node, p: seq<string>, i: nat)
    requires i < |p|
  {
    Walk(n, p[..i]).Some? && Child(Walk(n, p[..i]).value, p[i]).None?
  }

  /** A walk fails exactly when some part is missing at its level. */
  lemma {:induction false} WalkFailsIffMissing(n: Node, p: seq<string>)
    ensures Walk(n, p).None? <==> exists i :: 0 <= i < |p| && MissingAt(n, p, i)
    decreases |p|
  {
    if p != [] {
      assert p[..0] == [];
      match Child(n, p[0])
      case None =>
        assert MissingAt(n, p, 0);
      case Some(c) =>
        var t := p[1..];
        WalkFailsIffMissing(c, t);
        forall i | 0 <= i < |t|
          ensures MissingAt(c, t, i) <==> MissingAt(n, p, i + 1)
        {
          assert p[..i + 1] == [p[0]] + t[..i];
          assert p[..i + 1][1..] == t[..i];
          assert p[i + 1] == t[i];
        }
        if Walk(n, p).None? {
          var i :| 0 <= i < |t| && MissingAt(c, t, i);
          assert MissingAt(n, p, i + 1);
        }
        if exists i :: 0 <= i < |p| && MissingAt(n, p, i) {
          var i :| 0 <= i < |p| && MissingAt(n, p, i);
          assert i != 0;
          assert MissingAt(c, t, i - 1);
        }
    }
  }

  /** Replaces the node reached by the literal path `p` with `c`. */
  function Graft(n: Node, p: seq<string>, c: Node): Node
    decreases |p|
  {
    if p == [] then c
    else match Child(n, p[0])
      case None => n
      case Some(k) => SetChild(n, p[0], Graft(k, p[1..], c))
  }

  /** Below the grafted path one walks in the new subtree. */
  lemma {:induction false} GraftBelow(n: Node, p: seq<string>, c: Node, r: seq<string>)
    requires Walk(n, p).Some?
    ensures Walk(Graft(n, p, c), p + r) == Walk(c, r)
    decreases |p|
  {
    if p == [] {
      assert p + r == r;
    } else {
      var k := Child(n, p[0]).value;
      var g := Graft(k, p[1..], c);
      ChildSetChild(n, p[0], g, p[0]);
      assert (p + r)[0] == p[0];
      assert (p + r)[1..] == p[1..] + r;
      GraftBelow(k, p[1..], c, r);
    }
  }

  /** Paths that neither lead to nor pass through the grafted one see the old tree. */
  lemma {:induction false} GraftAside(n: Node, p: seq<string>, c: Node, q: seq<string>)
    requires !(p <= q) && !(q <= p)
    ensures Walk(Graft(n, p, c), q) == Walk(n, q)
    decreases |p|
  {
    match Child(n, p[0])
    case None =>
    case Some(k) =>
      var g := Graft(k, p[1..], c);
      ChildSetChild(n, p[0], g, q[0]);
      if q[0] == p[0] {
        assert p == [p[0]] + p[1..] && q == [q[0]] + q[1..];
        assert !(p[1..] <= q[1..]) && !(q[1..] <= p[1..]);
        GraftAside(k, p[1..], c, q[1..]);
      }
  }

  /** The ancestors of the grafted node are still there. */
  lemma {:induction false} GraftAbove(n: Node, p: seq<string>, c: Node, q: seq<string>)
    requires q <= p && Walk(n, p).Some?
    ensures Walk(Graft(n, p, c), q).Some?
    decreases |q|
  {
    if q != [] {
      var k := Child(n, p[0]).value;
      var g := Graft(k, p[1..], c);
      ChildSetChild(n, p[0], g, p[0]);
      assert q[1..] <= p[1..];
      GraftAbove(k, p[1..], c, q[1..]);
    }
  }

  lemma {:induction false} GraftWF(n: Node, p: seq<string>, c: Node)
    requires WF(n) && WF(c)
    ensures WF(Graft(n, p, c))
    decreases |p|
  {
    if p != [] {
      match Child(n, p[0])
      case None =>
      case Some(k) =>
        assert WF(k);
        GraftWF(k, p[1..], c);
        SetChildWF(n, p[0], Graft(k, p[1..], c));
    }
  }

  // ---------------------------------------------------------------------
  // growth: later entries only add nodes
  // ---------------------------------------------------------------------

  /**
    `b` is `a` with nodes added: every node of `a` is still in `b` at the same
    position among its siblings, and new keys only come after the old ones.
  */
  ghost predicate Extends(a: Node, b: Node)
    decreases a
  {
    && |a.entries| <= |b.entries|
    && forall i :: 0 <= i < |a.entries| ==>
         a.entries[i].name == b.entries[i].name && Extends(a.entries[i].node, b.entries[i].node)
  }

  lemma {:induction false} ExtendsRefl(a: Node)
    ensures Extends(a, a)
    decreases a
  {
    forall i | 0 <= i < |a.entries| ensures Extends(a.entries[i].node, a.entries[i].node) {
      ExtendsRefl(a.entries[i].node);
    }
  }

  lemma {:induction false} ExtendsTrans(a: Node, b: Node, c: Node)
    requires Extends(a, b) && Extends(b, c)
    ensures Extends(a, c)
    decreases a
  {
    forall i | 0 <= i < |a.entries| ensures Extends(a.entries[i].node, c.entries[i].node) {
      ExtendsTrans(a.entries[i].node, b.entries[i].node, c.entries[i].node);
    }
  }

  lemma ExtendsChild(a: Node, b: Node, x: string)
    requires Extends(a, b) && Child(a, x).Some?
    ensures Child(b, x).Some? && Extends(Child(a, x).value, Child(b, x).value)
  {
    var j := IndexOf(a.entries, x);
    assert b.entries[j].name == x;
    assert IndexOf(b.entries, x) == j;
  }

  /** Whatever a walk reaches in `a` it still reaches in an extension of `a`. */
  lemma {:induction false} ExtendsWalk(a: Node, b: Node, p: seq<string>)
    requires Extends(a, b) && Walk(a, p).Some?
    ensures Walk(b, p).Some? && Extends(Walk(a, p).value, Walk(b, p).value)
    decreases |p|
  {
    if p != [] {
      ExtendsChild(a, b, p[0]);
      ExtendsWalk(Child(a, p[0]).value, Child(b, p[0]).value, p[1..]);
    }
  }

  lemma ExtendsPut(n: Node, x: string, k: Node)
    requires Child(n, x).None? || Extends(Child(n, x).value, k)
    ensures Extends(n, Put(n, x, k))
  {
    ExtendsRefl(n);
    var es := n.entries;
    if Child(n, x).Some? {
      var j := IndexOf(es, x);
      var es' := es[j := Entry(x, k)];
      forall i | 0 <= i < |es| ensures es[i].name == es'[i].name && Extends(es[i].node, es'[i].node) {
        if i != j { assert es'[i] == es[i]; }
      }
    } else {
      var es' := es + [Entry(x, k)];
      forall i | 0 <= i < |es| ensures es[i].name == es'[i].name && Extends(es[i].node, es'[i].node) {
        assert es'[i] == es[i];
      }
    }
  }

  // ---------------------------------------------------------------------
  // build_fs_structure
  // ---------------------------------------------------------------------

  /**
    Inserting one archive entry, split into parts: every part becomes a key
    below the previous one; an existing key is walked into, never replaced.
  */
  function AddPath(n: Node, parts: seq<string>): Node
    decreases |parts|
  {
    if parts == [] then n
    else Put(n, parts[0], AddPath(Child(n, parts[0]).GetOr(Empty), parts[1..]))
  }

  /** The tree built from the archive's entry names, in archive order. */
  function Build(members: seq<string>): Node
    decreases |members|
  {
    if members == [] then Empty
    else AddPath(Build(members[..|members| - 1]), Split(members[|members| - 1], Slash))
  }

  /** After inserting an entry, its literal parts can be walked. */
  lemma {:induction false} AddPathWalks(n: Node, parts: seq<string>)
    ensures Walk(AddPath(n, parts), parts).Some?
    decreases |parts|
  {
    if parts != [] {
      var k := Child(n, parts[0]).GetOr(Empty);
      var v := AddPath(k, parts[1..]);
      ChildPut(n, parts[0], v, parts[0]);
      AddPathWalks(k, parts[1..]);
    }
  }

  /** Inserting an entry that is already there changes nothing. */
  lemma {:induction false} AddPathExisting(n: Node, parts: seq<string>)
    requires Walk(n, parts).Some?
    ensures AddPath(n, parts) == n
    decreases |parts|
  {
    if parts != [] {
      var k := Child(n, parts[0]).value;
      AddPathExisting(k, parts[1..]);
      var j := IndexOf(n.entries, parts[0]);
      assert n.entries[j := Entry(parts[0], k)] == n.entries;
    }
  }

  /** Inserting an entry only adds nodes. */
  lemma {:induction false} AddPathExtends(n: Node, parts: seq<string>)
    ensures Extends(n, AddPath(n, parts))
    decreases |parts|
  {
    if parts == [] {
      ExtendsRefl(n);
    } else {
      var k := Child(n, parts[0]).GetOr(Empty);
      AddPathExtends(k, parts[1..]);
      ExtendsPut(n, parts[0], AddPath(k, parts[1..]));
    }
  }

  lemma {:induction false} AddPathWF(n: Node, parts: seq<string>)
    requires WF(n)
    ensures WF(AddPath(n, parts))
    decreases |parts|
  {
    if parts != [] {
      var k := Child(n, parts[0]).GetOr(Empty);
      assert WF(k);
      AddPathWF(k, parts[1..]);
      PutWF(n, parts[0], AddPath(k, parts[1..]));
    }
  }

  /**
    One step of the insertion loop: creating the missing key `x` below the
    node reached by `p` (`current[x] = {}`) leaves the rest of the insertion
    with the same final result.
  */
  lemma {:induction false} AddPathStep(n: Node, p: seq<string>, x: string, r: seq<string>)
    requires Walk(n, p).Some? && Child(Walk(n, p).value, x).None?
    ensures AddPath(Graft(n, p, Put(Walk(n, p).value, x, Empty)), p + [x] + r)
         == AddPath(n, p + [x] + r)
    decreases |p|
  {
    var cur := Walk(n, p).value;
    var c := Put(cur, x, Empty);
    if p == [] {
      assert p + [x] + r == [x] + r;
      assert ([x] + r)[1..] == r;
      var v := AddPath(Empty, r);
      ChildPut(n, x, Empty, x);
      var es := n.entries;
      assert IndexOf(es + [Entry(x, Empty)], x) == |es|;
      assert (es + [Entry(x, Empty)])[|es| := Entry(x, v)] == es + [Entry(x, v)];
    } else {
      var h := p[0];
      var k := Child(n, h).value;
      var g := Graft(k, p[1..], c);
      var n' := SetChild(n, h, g);
      assert Graft(n, p, c) == n';
      var rest := p[1..] + [x] + r;
      assert (p + [x] + r)[0] == h;
      assert (p + [x] + r)[1..] == rest;
      ChildSetChild(n, h, g, h);
      AddPathStep(k, p[1..], x, r);
      var v := AddPath(k, rest);
      assert AddPath(n', p + [x] + r) == Put(n', h, v);
      var j := IndexOf(n.entries, h);
      assert n'.entries == n.entries[j := Entry(h, g)];
      IndexOfIs(n'.entries, h, j);
      assert n'.entries[j := Entry(h, v)] == n.entries[j := Entry(h, v)];
    }
  }

  /** One more part taken from a reached node goes to that node's child. */
  lemma WalkOneMore(root: Node, parts: seq<string>, i: nat, current: Node)
    requires i < |parts|
    requires Walk(root, parts[..i]) == Some(current) && Child(current, parts[i]).Some?
    ensures Walk(root, parts[..i + 1]) == Child(current, parts[i])
  {
    WalkConcat(root, parts[..i], [parts[i]]);
    assert parts[..i + 1] == parts[..i] + [parts[i]];
  }

  /**
    The insertion loop's update for a missing part `parts[i]`: after
    `current[part] = {}` through the node reached by `parts[..i]`, that node
    is the updated one, it has the part, and the insertion still ends in the
    same tree.
  */
  lemma CreatePart(root: Node, root0: Node, parts: seq<string>, i: nat, current: Node)
    requires i < |parts|
    requires Walk(root, parts[..i]) == Some(current) && Child(current, parts[i]).None?
    requires AddPath(root, parts) == AddPath(root0, parts)
    ensures var updated := Put(current, parts[i], Empty);
      var root' := Graft(root, parts[..i], updated);
      && Walk(root', parts[..i]) == Some(updated)
      && Child(updated, parts[i]) == Some(Empty)
      && AddPath(root', parts) == AddPath(root0, parts)
  {
    var part := parts[i];
    assert parts == parts[..i] + [part] + parts[i + 1..];
    AddPathStep(root, parts[..i], part, parts[i + 1..]);
    ChildPut(current, part, Empty, part);
    var updated := Put(current, part, Empty);
    GraftBelow(root, parts[..i], updated, []);
    assert parts[..i] + [] == parts[..i];
  }

  lemma {:induction false} BuildWF(members: seq<string>)
    ensures WF(Build(members))
    decreases |members|
  {
    if members != [] {
      BuildWF(members[..|members| - 1]);
      AddPathWF(Build(members[..|members| - 1]), Split(members[|members| - 1], Slash));
    }
  }

  /** Later entries never replace or reorder what earlier entries built. */
  lemma {:induction false} BuildGrows(members: seq<string>, i: nat)
    requires i <= |members|
    ensures Extends(Build(members[..i]), Build(members))
    decreases |members|
  {
    if i == |members| {
      assert members[..i] == members;
      ExtendsRefl(Build(members));
    } else {
      var init := members[..|members| - 1];
      assert members[..i] == init[..i];
      BuildGrows(init, i);
      AddPathExtends(Build(init), Split(members[|members| - 1], Slash));
      ExtendsTrans(Build(members[..i]), Build(init), Build(members));
    }
  }

  /** After the build, the literal parts of every entry name can be walked from the root. */
  lemma BuildWalks(members: seq<string>, i: nat)
    requires i < |members|
    ensures Walk(Build(members), Split(members[i], Slash)).Some?
  {
    var pre := members[..i + 1];
    assert pre[..i] == members[..i];
    assert pre[i] == members[i];
    assert Build(pre) == AddPath(Build(members[..i]), Split(members[i], Slash));
    AddPathWalks(Build(members[..i]), Split(members[i], Slash));
    BuildGrows(members, i + 1);
    ExtendsWalk(Build(pre), Build(members), Split(members[i], Slash));
  }

  // ---------------------------------------------------------------------
  // get_directory
  // ---------------------------------------------------------------------

  /**
    What `get_directory(path)` returns: the node reached by the segments of
    the path (empty parts skipped), or None.
  */
  function Locate(root: Node, path: string): Option<Node>
  {
    Walk(root, Segments(path))
  }

  /** Paths of slashes only (`"/"`, `""`, `"///"`) locate the root. */
  lemma LocateSlashesOnly(root: Node, path: string)
    requires forall i :: 0 <= i < |path| ==> path[i] == '/'
    ensures Locate(root, path) == Some(root)
  {
    NoSegmentsIffSlashes(path);
  }

  /** Extra slashes around or between the parts of a path locate the same node. */
  lemma LocateIgnoresSlashes(root: Node, a: string, b: string)
    ensures Locate(root, "/" + a) == Locate(root, a)
    ensures Locate(root, a + "/") == Locate(root, a)
    ensures Locate(root, a + "//" + b) == Locate(root, a + "/" + b)
  {
    SegmentsIgnoreOuterSlashes(a);
    SegmentsConcat(a, "/" + b);
    assert a + "/" + ("/" + b) == a + "//" + b;
    SegmentsIgnoreOuterSlashes(b);
    SegmentsConcat(a, b);
  }

  /** Every entry whose name has no empty part is found by `get_directory` after the build. */
  lemma BuildLocates(members: seq<string>, i: nat)
    requires i < |members|
    requires "" !in Split(members[i], Slash)
    ensures Locate(Build(members), members[i]).Some?
  {
    NonEmptyKeeps(Split(members[i], Slash));
    BuildWalks(members, i);
  }

  /** `(x + "//" + y).split('/')` has an empty middle part. */
  lemma SplitDoubledSlash(x: string, y: string)
    requires Slash !in x && Slash !in y
    ensures Split(x + "//" + y, Slash) == [x, "", y]
  {
    SplitNoSeparator(x, Slash);
    SplitNoSeparator("", Slash);
    SplitNoSeparator(y, Slash);
    SplitConcat("", y, Slash);
    assert "" + [Slash] + y == "/" + y;
    SplitConcat(x, "/" + y, Slash);
    assert x + [Slash] + ("/" + y) == x + "//" + y;
  }

  /** The entry `x//y` alone builds the chain `x`, then an empty key, then `y`. */
  lemma BuildDoubledSlash(x: string, y: string)
    requires Slash !in x && Slash !in y
    ensures Build([x + "//" + y]) == Node([Entry(x, Node([Entry("", Node([Entry(y, Empty)]))]))])
  {
    var members := [x + "//" + y];
    assert members[..0] == [];
    SplitDoubledSlash(x, y);
    assert Build(members) == AddPath(Empty, [x, "", y]);
    assert [x, "", y][1..] == ["", y];
    assert ["", y][1..] == [y];
    assert AddPath(Empty, [y]) == Node([Entry(y, Empty)]);
    assert AddPath(Empty, ["", y]) == Node([Entry("", Node([Entry(y, Empty)]))]);
  }

  /**
    An entry name with an empty part is built literally (`x`, then an empty
    key, then `y`) but looked up with the empty part skipped, so it is not
    found.
  */
  lemma EmptyPartNotLocated(x: string, y: string)
    requires x != "" && y != "" && Slash !in x && Slash !in y
    ensures Locate(Build([x + "//" + y]), x + "//" + y).None?
  {
    var mid := Node([Entry("", Node([Entry(y, Empty)]))]);
    var root := Node([Entry(x, mid)]);
    BuildDoubledSlash(x, y);
    SplitDoubledSlash(x, y);
    assert NonEmpty([x, "", y]) == [x, y] by {
      assert [y][1..] == [];
      assert NonEmpty([y]) == [y];
      assert ["", y][1..] == [y];
      assert NonEmpty(["", y]) == [y];
      assert [x, "", y][1..] == ["", y];
    }
    assert Segments(x + "//" + y) == [x, y];
    assert IndexOf(root.entries, x) == 0;
    assert Child(root, x) == Some(mid);
    assert mid.entries[1..] == [];
    assert IndexOf(mid.entries, y) == 1;
    assert Child(mid, y) == None;
    assert [x, y][1..] == [y];
    assert Walk(root, [x, y]) == Walk(mid, [y]);
  }
}
