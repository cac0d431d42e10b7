/** The order in which the image builders visit the directories of a tree. */
module FatWalk {
  import opened FatNames
  import opened FatTree

  /** The directories at or below d. */
  ghost function Below(nodes: set<FatDirectory>, d: FatDirectory): set<FatDirectory> {
    set n | n in nodes && d.path <= n.path
  }

  ghost function Members(s: seq<FatDirectory>): set<FatDirectory> { set n | n in s }

  ghost predicate Once(s: seq<FatDirectory>) { forall i, j :: 0 <= i < j < |s| ==> s[i] != s[j] }

  /** Parents come before their children. */
  ghost predicate ParentsFirst(s: seq<FatDirectory>) {
    forall i :: 0 < i < |s| ==> ParentBefore(s, i)
  }

  ghost predicate ParentBefore(s: seq<FatDirectory>, i: int)
    requires 0 <= i < |s|
  {
    exists j :: 0 <= j < i && s[j] == s[i].parent
  }

  /** What lies strictly below d lies at or below one of its children. */
  lemma {:induction false} ChildToward(root: FatDirectory, nodes: set<FatDirectory>, d: FatDirectory, n: FatDirectory)
    returns (i: int)
    requires IsTree(root, nodes) && d in nodes && n in nodes && d.path < n.path
    ensures 0 <= i < |d.directories| && n in Below(nodes, d.directories[i])
    decreases |n.path|
  {
    i := ParentLists(root, nodes, n);
    if |n.path| == |d.path| + 1 {
      assert n.parent.path == d.path;
      PathsUnique(root, nodes, n.parent, d);
    } else {
      assert d.path < n.parent.path;
      i := ChildToward(root, nodes, d, n.parent);
      assert n.parent.path <= n.path;
    }
  }

  /** Nothing lies below two children of one directory. */
  lemma ChildrenApart(root: FatDirectory, nodes: set<FatDirectory>, d: FatDirectory, i: int, j: int)
    requires IsTree(root, nodes) && d in nodes && 0 <= i < |d.directories| && 0 <= j < |d.directories| && i != j
    ensures Below(nodes, d.directories[i]) !! Below(nodes, d.directories[j])
  {
    ChildInTree(root, nodes, d, i);
    ChildInTree(root, nodes, d, j);
    assert NodeGood(root, nodes, d);
    if d.directories[i].name == d.directories[j].name {
      OneOfAName(d, i, j);
    }
    assert forall n :: n in Below(nodes, d.directories[i]) ==> n.path[|d.path|] == d.directories[i].name;
    assert forall n :: n in Below(nodes, d.directories[j]) ==> n.path[|d.path|] == d.directories[j].name;
  }

  /** The directories at or below the first k children. */
  ghost function BelowChildren(nodes: set<FatDirectory>, d: FatDirectory, k: nat): set<FatDirectory>
    requires k <= |d.directories|
    reads d`directories
  {
    set n, i | 0 <= i < k && n in Below(nodes, d.directories[i]) :: n
  }

  lemma ChildWithin(root: FatDirectory, nodes: set<FatDirectory>, d: FatDirectory, k: nat)
    requires IsTree(root, nodes) && d in nodes && k < |d.directories|
    ensures var c := d.directories[k];
      c in nodes && c.parent == d && |d.path| < |c.path| <= MAX_TREE_DEPTH && Below(nodes, c) <= Below(nodes, d) - {d}
  {
    ChildInTree(root, nodes, d, k);
    assert NodeGood(root, nodes, d) && ChildAt(d, d.directories, k);
    assert NodeGood(root, nodes, d.directories[k]);
    assert d.path <= d.directories[k].path;
  }

  /** The next child's part has not been visited, and visiting it completes one child more. */
  lemma NextChild(root: FatDirectory, nodes: set<FatDirectory>, d: FatDirectory, k: nat)
    requires IsTree(root, nodes) && d in nodes && k < |d.directories|
    ensures BelowChildren(nodes, d, k) !! Below(nodes, d.directories[k])
    ensures BelowChildren(nodes, d, k + 1) == BelowChildren(nodes, d, k) + Below(nodes, d.directories[k])
  {
    forall i | 0 <= i < k ensures Below(nodes, d.directories[i]) !! Below(nodes, d.directories[k]) {
      ChildrenApart(root, nodes, d, i, k);
    }
  }

  lemma AllChildren(root: FatDirectory, nodes: set<FatDirectory>, d: FatDirectory)
    requires IsTree(root, nodes) && d in nodes
    ensures Below(nodes, d) == {d} + BelowChildren(nodes, d, |d.directories|)
  {
    forall n | n in Below(nodes, d) && n != d ensures n in BelowChildren(nodes, d, |d.directories|) {
      if n.path == d.path {
        PathsUnique(root, nodes, n, d);
      }
      var i := ChildToward(root, nodes, d, n);
    }
    forall n | n in BelowChildren(nodes, d, |d.directories|) ensures n in Below(nodes, d) {
      var i :| 0 <= i < |d.directories| && n in Below(nodes, d.directories[i]);
      ChildWithin(root, nodes, d, i);
    }
  }

  lemma JoinedOnce(s: seq<FatDirectory>, t: seq<FatDirectory>)
    requires Once(s) && Once(t) && Members(s) !! Members(t)
    ensures Once(s + t) && Members(s + t) == Members(s) + Members(t)
  {
    forall i, j | 0 <= i < j < |s + t| ensures (s + t)[i] != (s + t)[j] {
      if i < |s| <= j {
        assert s[i] in Members(s) && t[j - |s|] in Members(t);
      }
    }
  }

  lemma JoinedParentsFirst(s: seq<FatDirectory>, t: seq<FatDirectory>)
    requires |s| > 0 && |t| > 0 && ParentsFirst(s) && ParentsFirst(t) && t[0].parent == s[0]
    ensures ParentsFirst(s + t)
  {
    var more := s + t;
    forall i | 0 < i < |more| ensures ParentBefore(more, i) {
      if i < |s| {
        assert more[i] == s[i] && ParentBefore(s, i);
        var j :| 0 <= j < i && s[j] == s[i].parent;
        assert more[j] == s[j];
      } else if i == |s| {
        assert more[0] == s[0] && more[i] == t[0];
      } else {
        assert more[i] == t[i - |s|] && ParentBefore(t, i - |s|);
        var j :| 0 <= j < i - |s| && t[j] == t[i - |s|].parent;
        assert more[|s| + j] == t[j];
      }
    }
  }

  /** Depth first: a directory, then what lies below its first k children, in their order. */
  ghost function PreOrder(root: FatDirectory, nodes: set<FatDirectory>, d: FatDirectory, k: nat): (s: seq<FatDirectory>)
    requires IsTree(root, nodes) && d in nodes && k <= |d.directories|
    reads nodes
    decreases MAX_TREE_DEPTH - |d.path|, k
  {
    if k == 0 then [d]
    else
      ChildWithin(root, nodes, d, k - 1);
      var c := d.directories[k - 1];
      PreOrder(root, nodes, d, k - 1) + PreOrder(root, nodes, c, |c.directories|)
  }

  /** The order names everything at or below the first k children once, parents before children. */
  lemma {:induction false} PreOrderCovers(root: FatDirectory, nodes: set<FatDirectory>, d: FatDirectory, k: nat)
    requires IsTree(root, nodes) && d in nodes && k <= |d.directories|
    ensures var s := PreOrder(root, nodes, d, k);
      && |s| > 0 && s[0] == d && Once(s) && ParentsFirst(s)
      && Members(s) == {d} + BelowChildren(nodes, d, k)
    decreases MAX_TREE_DEPTH - |d.path|, k
  {
    if k > 0 {
      var c := d.directories[k - 1];
      ChildWithin(root, nodes, d, k - 1);
      NextChild(root, nodes, d, k - 1);
      PreOrderCovers(root, nodes, d, k - 1);
      PreOrderCovers(root, nodes, c, |c.directories|);
      AllChildren(root, nodes, c);
      JoinedOnce(PreOrder(root, nodes, d, k - 1), PreOrder(root, nodes, c, |c.directories|));
      JoinedParentsFirst(PreOrder(root, nodes, d, k - 1), PreOrder(root, nodes, c, |c.directories|));
    }
  }

  /** One directory, then everything below it, child by child. */
  method Visit(root: FatDirectory, ghost nodes: set<FatDirectory>, d: FatDirectory, visited: seq<FatDirectory>)
    returns (result: seq<FatDirectory>)
    requires IsTree(root, nodes) && d in nodes && |d.path| <= MAX_TREE_DEPTH
    ensures result == visited + PreOrder(root, nodes, d, |d.directories|)
    decreases MAX_TREE_DEPTH - |d.path|
  {
    result := visited + [d];
    var k := 0;
    while k < |d.directories|
      invariant 0 <= k <= |d.directories| && result == visited + PreOrder(root, nodes, d, k)
    {
      ChildWithin(root, nodes, d, k);
      result := Visit(root, nodes, d.directories[k], result);
      k := k + 1;
    }
  }

  /** Depth first, children in order: every directory once, the root first, parents before children. */
  method WalkDirectories(root: FatDirectory, ghost nodes: set<FatDirectory>) returns (result: seq<FatDirectory>)
    requires IsTree(root, nodes)
    ensures result == PreOrder(root, nodes, root, |root.directories|)
    ensures |result| > 0 && result[0] == root && Once(result) && Members(result) == nodes && ParentsFirst(result)
  {
    assert NodeGood(root, nodes, root);
    result := Visit(root, nodes, root, []);
    PreOrderCovers(root, nodes, root, |root.directories|);
    AllChildren(root, nodes, root);
    assert Below(nodes, root) == nodes;
  }
}
