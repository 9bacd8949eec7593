/**
  The history of writes kept for verification, after `iolog.c`: a search tree ordered by file and offset, and a plain
  list. How the tree is balanced is not modelled; any balancing that keeps the in-order sequence will do.
 */
module IoLog {

  /** `struct io_piece`; files are ordered by address. */
  datatype Piece = Piece(file: nat, offset: nat, len: nat, numberio: nat)

  datatype Tree = Leaf | Node(left: Tree, piece: Piece, right: Tree)

  predicate Before(a: Piece, b: Piece) {
    a.file < b.file || (a.file == b.file && a.offset < b.offset)
  }

  predicate SameKey(a: Piece, b: Piece) {
    a.file == b.file && a.offset == b.offset
  }

  function InOrder(t: Tree): seq<Piece> {
    match t
    case Leaf => []
    case Node(l, p, r) => InOrder(l) + [p] + InOrder(r)
  }

  /** Strictly increasing keys, so none occurs twice. */
  ghost predicate Sorted(s: seq<Piece>) {
    forall i, j :: 0 <= i < j < |s| ==> Before(s[i], s[j])
  }

  // ----- Paths

  /** Where to go from a node: left or right. */
  type Path = seq<bool>

  predicate ValidPath(t: Tree, path: Path)
    decreases path
  {
    path == [] || (t.Node? && ValidPath(if path[0] then t.right else t.left, path[1..]))
  }

  function At(t: Tree, path: Path): Tree
    requires ValidPath(t, path)
    decreases path
  {
    if path == [] then t else At(if path[0] then t.right else t.left, path[1..])
  }

  /** The tree with the part at a path replaced. */
  function Replace(t: Tree, path: Path, part: Tree): Tree
    requires ValidPath(t, path)
    decreases path
  {
    if path == [] then part
    else if path[0] then t.(right := Replace(t.right, path[1..], part))
    else t.(left := Replace(t.left, path[1..], part))
  }

  /** What stands to the left and to the right of the part at a path. */
  function LeftOf(t: Tree, path: Path): seq<Piece>
    requires ValidPath(t, path)
    decreases path
  {
    if path == [] then []
    else if path[0] then InOrder(t.left) + [t.piece] + LeftOf(t.right, path[1..])
    else LeftOf(t.left, path[1..])
  }

  function RightOf(t: Tree, path: Path): seq<Piece>
    requires ValidPath(t, path)
    decreases path
  {
    if path == [] then []
    else if path[0] then RightOf(t.right, path[1..])
    else RightOf(t.left, path[1..]) + [t.piece] + InOrder(t.right)
  }

  lemma {:induction false} Around(t: Tree, path: Path)
    requires ValidPath(t, path)
    ensures InOrder(t) == LeftOf(t, path) + InOrder(At(t, path)) + RightOf(t, path)
    decreases path
  {
    if path != [] {
      Around(if path[0] then t.right else t.left, path[1..]);
    }
  }

  lemma {:induction false} AroundReplaced(t: Tree, path: Path, part: Tree)
    requires ValidPath(t, path)
    ensures InOrder(Replace(t, path, part)) == LeftOf(t, path) + InOrder(part) + RightOf(t, path)
    decreases path
  {
    if path != [] {
      AroundReplaced(if path[0] then t.right else t.left, path[1..], part);
    }
  }

  lemma {:induction false} Deeper(t: Tree, path: Path, right: bool)
    requires ValidPath(t, path) && At(t, path).Node?
    ensures ValidPath(t, path + [right])
    ensures At(t, path + [right]) == if right then At(t, path).right else At(t, path).left
    ensures LeftOf(t, path + [right]) ==
      LeftOf(t, path) + (if right then InOrder(At(t, path).left) + [At(t, path).piece] else [])
    ensures RightOf(t, path + [right]) ==
      (if right then [] else [At(t, path).piece] + InOrder(At(t, path).right)) + RightOf(t, path)
    decreases path
  {
    if path == [] {
      assert [right][1..] == [];
    } else {
      Deeper(if path[0] then t.right else t.left, path[1..], right);
      assert (path + [right])[1..] == path[1..] + [right];
    }
  }

  /** Two subtrees as one, left part first. */
  function Join(l: Tree, r: Tree): (t: Tree)
    ensures InOrder(t) == InOrder(l) + InOrder(r)
  {
    match l
    case Leaf => r
    case Node(ll, p, lr) => Node(ll, p, Join(lr, r))
  }

  // ----- Searching

  /** p belongs between the two sequences. */
  ghost predicate Fits(left: seq<Piece>, p: Piece, right: seq<Piece>) {
    (forall x :: x in left ==> Before(x, p)) && (forall x :: x in right ==> Before(p, x))
  }

  lemma StepDown(t: Tree, path: Path, p: Piece, right: bool)
    requires ValidPath(t, path) && At(t, path).Node? && Sorted(InOrder(t))
    requires Fits(LeftOf(t, path), p, RightOf(t, path))
    requires if right then Before(At(t, path).piece, p) else Before(p, At(t, path).piece)
    ensures ValidPath(t, path + [right])
    ensures At(t, path + [right]) == if right then At(t, path).right else At(t, path).left
    ensures Fits(LeftOf(t, path + [right]), p, RightOf(t, path + [right]))
  {
    Deeper(t, path, right);
    NodeSplits(t, path);
    Narrowed(NodeLeft(t, path), At(t, path).piece, NodeRight(t, path), p, right, LeftOf(t, path), RightOf(t, path));
  }

  /** All that stands before, and after, the piece at a path. */
  function NodeLeft(t: Tree, path: Path): seq<Piece>
    requires ValidPath(t, path) && At(t, path).Node?
  {
    LeftOf(t, path) + InOrder(At(t, path).left)
  }

  function NodeRight(t: Tree, path: Path): seq<Piece>
    requires ValidPath(t, path) && At(t, path).Node?
  {
    InOrder(At(t, path).right) + RightOf(t, path)
  }

  lemma NodeSplits(t: Tree, path: Path)
    requires ValidPath(t, path) && At(t, path).Node?
    ensures InOrder(t) == NodeLeft(t, path) + [At(t, path).piece] + NodeRight(t, path)
  {
    Around(t, path);
  }

  /** A bound on one side of m in a sorted sequence bounds all that is on the other side of m. */
  lemma Narrowed(a: seq<Piece>, m: Piece, b: seq<Piece>, p: Piece, right: bool, l: seq<Piece>, r: seq<Piece>)
    requires Sorted(a + [m] + b) && Fits(l, p, r)
    requires if right then Before(m, p) else Before(p, m)
    ensures if right then Fits(a + [m], p, r) else Fits(l, p, [m] + b)
  {
    SortedParts(a, m, b);
  }

  /** Around an element of a sorted sequence everything is on its proper side. */
  lemma SortedParts(a: seq<Piece>, m: Piece, b: seq<Piece>)
    requires Sorted(a + [m] + b)
    ensures Fits(a, m, b)
  {
    var s := a + [m] + b;
    assert s[|a|] == m;
    forall i | 0 <= i < |a| ensures Before(a[i], m) { assert a[i] == s[i]; }
    forall i | 0 <= i < |b| ensures Before(m, b[i]) { assert b[i] == s[|a| + 1 + i]; }
  }

  lemma SortedAdd(left: seq<Piece>, p: Piece, right: seq<Piece>)
    requires Sorted(left + right) && Fits(left, p, right)
    ensures Sorted(left + [p] + right)
    ensures forall x :: x in left + right ==> !SameKey(x, p)
  {
    var s, t := left + right, left + [p] + right;
    forall i, j | 0 <= i < j < |t| ensures Before(t[i], t[j]) {
      var i', j' := if i <= |left| then i else i - 1, if j <= |left| then j else j - 1;
      assert i != |left| ==> t[i] == s[i'];
      assert j != |left| ==> t[j] == s[j'];
    }
  }

  /** t is s without what has the key of m. */
  ghost predicate Without(s: seq<Piece>, m: Piece, t: seq<Piece>) {
    forall x :: x in t <==> x in s && !SameKey(x, m)
  }

  lemma SortedDrop(left: seq<Piece>, m: Piece, right: seq<Piece>)
    requires Sorted(left + [m] + right)
    ensures Sorted(left + right) && Without(left + [m] + right, m, left + right)
  {
    var s, t := left + [m] + right, left + right;
    SortedParts(left, m, right);
    forall i | 0 <= i < |t| ensures t[i] == s[if i < |left| then i else i + 1] { }
  }

  lemma Regroup(a: seq<Piece>, b: seq<Piece>, c: seq<Piece>, d: seq<Piece>)
    ensures a + (b + c) + d == (a + b) + (c + d)
  {
  }

  /** Taking a node out. */
  lemma Erased(t: Tree, path: Path, after: Tree)
    requires ValidPath(t, path) && At(t, path).Node? && Sorted(InOrder(t))
    requires InOrder(after) == InOrder(Replace(t, path, Join(At(t, path).left, At(t, path).right)))
    ensures Sorted(InOrder(after)) && |InOrder(after)| == |InOrder(t)| - 1
    ensures Without(InOrder(t), At(t, path).piece, InOrder(after))
  {
    NodeSplits(t, path);
    AroundReplaced(t, path, Join(At(t, path).left, At(t, path).right));
    Regroup(LeftOf(t, path), InOrder(At(t, path).left), InOrder(At(t, path).right), RightOf(t, path));
    SortedDrop(NodeLeft(t, path), At(t, path).piece, NodeRight(t, path));
  }

  /** Putting a node in at a free place. */
  lemma Inserted(t: Tree, path: Path, p: Piece, after: Tree)
    requires ValidPath(t, path) && At(t, path) == Leaf && Sorted(InOrder(t))
    requires Fits(LeftOf(t, path), p, RightOf(t, path))
    requires InOrder(after) == InOrder(Replace(t, path, Node(Leaf, p, Leaf)))
    ensures Sorted(InOrder(after)) && |InOrder(after)| == |InOrder(t)| + 1
    ensures p in InOrder(after) && Without(InOrder(after), p, InOrder(t))
  {
    Around(t, path);
    AroundReplaced(t, path, Node(Leaf, p, Leaf));
    var a, b := LeftOf(t, path), RightOf(t, path);
    assert InOrder(t) == a + b && InOrder(Node(Leaf, p, Leaf)) == [p];
    SortedAdd(a, p, b);
    SortedDrop(a, p, b);
  }

  // ----- The history of a job

  /** x is the last of the writes in `log` to its place. */
  ghost predicate Latest(log: seq<Piece>, x: Piece) {
    exists i :: 0 <= i < |log| && log[i] == x && forall j :: i < j < |log| ==> !SameKey(log[j], x)
  }

  lemma LatestExtends(log: seq<Piece>, p: Piece, x: Piece)
    ensures Latest(log + [p], x) <==> x == p || (Latest(log, x) && !SameKey(x, p))
  {
    var longer := log + [p];
    if Latest(log, x) && !SameKey(x, p) {
      var i :| 0 <= i < |log| && log[i] == x && forall j :: i < j < |log| ==> !SameKey(log[j], x);
      assert longer[i] == x && forall j :: i < j < |longer| ==> !SameKey(longer[j], x);
    }
    if x == p {
      assert longer[|log|] == x;
    }
    if Latest(longer, x) && x != p {
      var i :| 0 <= i < |longer| && longer[i] == x && forall j :: i < j < |longer| ==> !SameKey(longer[j], x);
      assert i < |log| && log[i] == x;
      assert !SameKey(longer[|log|], x);
      assert forall j :: i < j < |log| ==> !SameKey(longer[j], x) && longer[j] == log[j];
    }
  }

  class History {
    var tree: Tree
    var list: seq<Piece>
    var histLen: int
    const rebalance: Tree -> Tree
    ghost var log: seq<Piece>     // writes that went to the tree since the last pruning

    ghost predicate Valid()
      reads this
    {
      && (forall t :: InOrder(rebalance(t)) == InOrder(t))
      && Sorted(InOrder(tree))
      && histLen == |InOrder(tree)| + |list|
      && forall x :: x in InOrder(tree) <==> Latest(log, x)
    }

    constructor (rebalance: Tree -> Tree)
      requires forall t :: InOrder(rebalance(t)) == InOrder(t)
      ensures Valid() && tree == Leaf && list == [] && log == []
    {
      this.rebalance := rebalance;
      tree, list, histLen, log := Leaf, [], 0, [];
    }

    /** The descent: the place where p belongs, or the node that has its key. */
    method Descend(p: Piece) returns (path: Path, found: bool)
      requires Sorted(InOrder(tree))
      ensures ValidPath(tree, path) && Fits(LeftOf(tree, path), p, RightOf(tree, path))
      ensures if found then At(tree, path).Node? && SameKey(At(tree, path).piece, p) else At(tree, path) == Leaf
      ensures found ==> exists x :: x in InOrder(tree) && SameKey(x, p)
    {
      path := [];
      var cur := tree;
      while cur.Node?
        invariant ValidPath(tree, path) && cur == At(tree, path)
        invariant Fits(LeftOf(tree, path), p, RightOf(tree, path))
        decreases cur
      {
        var q := cur.piece;
        if p.file < q.file {
          StepDown(tree, path, p, false);
          path, cur := path + [false], cur.left;
        } else if p.file > q.file {
          StepDown(tree, path, p, true);
          path, cur := path + [true], cur.right;
        } else if p.offset < q.offset {
          StepDown(tree, path, p, false);
          path, cur := path + [false], cur.left;
        } else if p.offset > q.offset {
          StepDown(tree, path, p, true);
          path, cur := path + [true], cur.right;
        } else {
          NodeSplits(tree, path);
          assert q in InOrder(tree);
          return path, true;
        }
      }
      found := false;
    }

    /** `rb_erase`, and one less to count. */
    method Erase(path: Path)
      requires Sound() && ValidPath(tree, path) && At(tree, path).Node?
      modifies this`tree, this`histLen
      ensures Sound() && |InOrder(tree)| == |old(InOrder(tree))| - 1
      ensures Without(old(InOrder(tree)), old(At(tree, path).piece), InOrder(tree))
    {
      var node, rest := At(tree, path), rebalance(Replace(tree, path, Join(At(tree, path).left, At(tree, path).right)));
      Erased(tree, path, rest);
      histLen := histLen - 1;
      tree := rest;
    }

    /** `rb_link_node` and `rb_insert_color`. */
    method Insert(path: Path, p: Piece)
      requires Sound() && ValidPath(tree, path) && At(tree, path) == Leaf
      requires Fits(LeftOf(tree, path), p, RightOf(tree, path))
      modifies this`tree, this`histLen
      ensures Sound() && |InOrder(tree)| == |old(InOrder(tree))| + 1
      ensures p in InOrder(tree) && Without(InOrder(tree), p, old(InOrder(tree)))
    {
      var grown := rebalance(Replace(tree, path, Node(Leaf, p, Leaf)));
      Inserted(tree, path, p, grown);
      tree := grown;
      histLen := histLen + 1;
    }

    /** The invariant but for the log. */
    ghost predicate Sound()
      reads this
    {
      && (forall t :: InOrder(rebalance(t)) == InOrder(t))
      && Sorted(InOrder(tree))
      && histLen == |InOrder(tree)| + |list|
    }

    /**
      The sorted branch of `log_io_piece`: an older write to the same place is dropped and the search restarted, at most
      once.
     */
    method LogSorted(p: Piece)
      requires Valid()
      modifies this`tree, this`histLen, this`log
      ensures Valid() && log == old(log) + [p]
    {
      ghost var log0, s0, restarts := log, InOrder(tree), 0;
      var path, found := Descend(p);
      while found
        invariant Sound() && 0 <= restarts <= 1 && log == log0
        invariant ValidPath(tree, path) && Fits(LeftOf(tree, path), p, RightOf(tree, path))
        invariant if found then At(tree, path).Node? && SameKey(At(tree, path).piece, p) else At(tree, path) == Leaf
        invariant if restarts == 0 then InOrder(tree) == s0 else Without(s0, p, InOrder(tree))
        invariant restarts == 1 ==> !found
        decreases 1 - restarts
      {
        WithoutSame(s0, At(tree, path).piece, p);
        Erase(path);
        path, found := Descend(p);
        restarts := restarts + 1;
      }
      ghost var s1 := InOrder(tree);
      Insert(path, p);
      log := log + [p];
      Logged(log0, p, s0, s1, InOrder(tree));
    }

    /** The list branch: the order of the writes is kept. */
    method LogUnsorted(p: Piece)
      requires Valid()
      modifies this`list, this`histLen
      ensures Valid() && list == old(list) + [p]
    {
      list := list + [p];
      histLen := histLen + 1;
    }

    /** `log_io_piece`: which of the two structures takes the write. */
    method Log(p: Piece, verifySort: bool, random: bool, overwrite: bool, randomMap: bool, verifying: bool)
      requires Valid()
      modifies this`tree, this`list, this`histLen, this`log
      ensures Valid()
      ensures if (verifySort && random && overwrite) || (!randomMap && verifying)
        then log == old(log) + [p] && list == old(list)
        else list == old(list) + [p] && log == old(log) && tree == old(tree)
    {
      if (!verifySort || !random || !overwrite) && (randomMap || !verifying) {
        LogUnsorted(p);
      } else {
        LogSorted(p);
      }
    }

    /** `rb_first`: the way to the leftmost node. */
    method First() returns (path: Path)
      requires tree.Node?
      ensures ValidPath(tree, path) && At(tree, path).Node? && LeftOf(tree, path) == [] && At(tree, path).left == Leaf
    {
      path := [];
      var cur := tree;
      while cur.left.Node?
        invariant ValidPath(tree, path) && cur == At(tree, path) && cur.Node? && LeftOf(tree, path) == []
        decreases cur
      {
        Deeper(tree, path, false);
        path, cur := path + [false], cur.left;
      }
    }

    /** `prune_io_piece_log`: both empty, and the count back to zero. */
    method Prune()
      requires Valid()
      modifies this`tree, this`list, this`histLen, this`log
      ensures Valid() && tree == Leaf && list == [] && histLen == 0 && log == []
    {
      while tree.Node?
        invariant Sound() && list == old(list)
        decreases |InOrder(tree)|
      {
        var path := First();
        Erase(path);
      }
      while list != []
        invariant Sound() && tree == Leaf
        decreases |list|
      {
        list := list[1..];
        histLen := histLen - 1;
      }
      log := [];
    }
  }

  lemma WithoutSame(s: seq<Piece>, m: Piece, p: Piece)
    requires SameKey(m, p)
    ensures forall t :: Without(s, m, t) <==> Without(s, p, t)
  {
    assert forall x :: SameKey(x, m) <==> SameKey(x, p);
  }

  /** Replacing what had p's key by p turns the latest writes of a log into those of the log with p. */
  lemma Logged(log: seq<Piece>, p: Piece, s0: seq<Piece>, s1: seq<Piece>, s2: seq<Piece>)
    requires forall x :: x in s0 <==> Latest(log, x)
    requires s1 == s0 || Without(s0, p, s1)
    requires p in s2 && Without(s2, p, s1)
    requires Sorted(s2)
    ensures forall x :: x in s2 <==> Latest(log + [p], x)
  {
    assert forall x :: x in s2 && SameKey(x, p) ==> x == p;
    forall x ensures x in s2 <==> Latest(log + [p], x) {
      LatestExtends(log, p, x);
    }
  }
}
