/**
 * The folder hierarchy: each folder names its parent in `folder_id` (NULL for a top-level folder),
 * so the folders table is a forest of parent links. This module defines what lies below a folder
 * and the facts about it that the recursive folder removal relies on.
 */
module FolderTree {
  import opened Common
  import opened Tables
  import Query

  type Links = map<int, Option<int>>

  /** The parent links of a folders table: each folder's `folder_id`. */
  function LinksOf(m: map<int, Folder>): (links: Links)
    ensures links.Keys == m.Keys
    ensures forall k :: k in m ==> links[k] == m[k].parent
  {
    map k | k in m :: m[k].parent
  }

  /** The folders whose `folder_id` is x, whoever owns them and whether deleted or not. */
  function Children(links: Links, x: int): set<int> {
    set y | y in links && links[y] == Some(x)
  }

  /** The children of x in a folders table are the rows whose `folder_id` is x. */
  lemma ChildrenOfTable(m: map<int, Folder>, x: int)
    ensures Children(LinksOf(m), x) == set k | k in m && m[k].parent == Some(x)
  {
    var links := LinksOf(m);
    forall k ensures k in Children(links, x) <==> k in m && m[k].parent == Some(x) {
      if k in m {
        assert links[k] == m[k].parent;
      }
    }
  }

  /** A set of keys described as the rows whose `folder_id` is x is the set of children of x. */
  lemma ChildKeys(m: map<int, Folder>, x: int, ks: set<int>)
    requires forall k :: k in ks <==> k in m && m[k].parent == Some(x)
    ensures ks == Children(LinksOf(m), x)
    ensures ks == set k | k in m && m[k].parent == Some(x)
  {
    var rows := set k | k in m && m[k].parent == Some(x);
    assert forall k :: k in rows <==> k in ks;
    ChildrenOfTable(m, x);
  }

  /** p walks down the hierarchy: every element after the first is a child of its predecessor. */
  ghost predicate Chain(links: Links, p: seq<int>) {
    |p| >= 1 && forall i :: 1 <= i < |p| ==> p[i] in links && links[p[i]] == Some(p[i - 1])
  }

  /** y lies strictly below x: a chain of child links of length at least one leads from x to y. */
  ghost predicate Below(links: Links, x: int, y: int) {
    exists p :: Chain(links, p) && |p| >= 2 && p[0] == x && p[|p| - 1] == y
  }

  /** No folder lies below itself. */
  ghost predicate Acyclic(links: Links) {
    forall x :: !Below(links, x, x)
  }

  ghost function Descendants(links: Links, x: int): set<int> {
    set y | y in links && Below(links, x, y)
  }

  /** x together with every folder below it. */
  ghost function Subtree(links: Links, x: int): set<int> {
    {x} + Descendants(links, x)
  }

  /** The subtrees of the folders in kids, taken together. */
  ghost function UnionSubtrees(links: Links, kids: seq<int>): set<int> {
    set c, y | c in kids && y in Subtree(links, c) :: y
  }

  lemma ChildBelow(links: Links, x: int, y: int)
    requires y in Children(links, x)
    ensures Below(links, x, y)
  {
    var p := [x, y];
    assert Chain(links, p);
  }

  /** A chain below a child of x is a chain below x. */
  lemma BelowPrepend(links: Links, x: int, c: int, y: int)
    requires c in Children(links, x) && Below(links, c, y)
    ensures Below(links, x, y)
  {
    var p :| Chain(links, p) && |p| >= 2 && p[0] == c && p[|p| - 1] == y;
    var q := [x] + p;
    forall i | 1 <= i < |q| ensures q[i] in links && links[q[i]] == Some(q[i - 1]) {
      if i > 1 {
        assert q[i] == p[i - 1] && q[i - 1] == p[i - 2];
      }
    }
    assert Chain(links, q);
  }

  /** A chain from x to y extended by a child of y is a chain from x to that child. */
  lemma BelowExtend(links: Links, x: int, y: int, z: int)
    requires Below(links, x, y) && z in Children(links, y)
    ensures Below(links, x, z)
  {
    var p :| Chain(links, p) && |p| >= 2 && p[0] == x && p[|p| - 1] == y;
    var q := p + [z];
    forall i | 1 <= i < |q| ensures q[i] in links && links[q[i]] == Some(q[i - 1]) {
      if i < |p| {
        assert q[i] == p[i] && q[i - 1] == p[i - 1];
      }
    }
    assert Chain(links, q);
  }

  /** Whatever lies below x is a child of x or lies below one. */
  lemma BelowFirstStep(links: Links, x: int, y: int)
    requires Below(links, x, y)
    ensures y in Children(links, x) || exists c :: c in Children(links, x) && Below(links, c, y)
  {
    var p :| Chain(links, p) && |p| >= 2 && p[0] == x && p[|p| - 1] == y;
    assert p[1] in Children(links, x);
    if |p| > 2 {
      var q := p[1..];
      forall i | 1 <= i < |q| ensures q[i] in links && links[q[i]] == Some(q[i - 1]) {
        assert q[i] == p[i + 1] && q[i - 1] == p[i];
      }
      assert Chain(links, q);
      assert Below(links, p[1], y);
    }
  }

  /**
   * Under acyclic links the folders below a child of x are strictly fewer than those below x:
   * the measure on which the recursive removal terminates.
   */
  lemma DescendantsShrink(links: Links, x: int, c: int)
    requires Acyclic(links)
    requires c in Children(links, x)
    ensures Descendants(links, c) < Descendants(links, x)
    ensures |Descendants(links, c)| < |Descendants(links, x)|
  {
    forall y | y in Descendants(links, c) ensures y in Descendants(links, x) {
      BelowPrepend(links, x, c, y);
    }
    ChildBelow(links, x, c);
    assert c in Descendants(links, x);
    assert !Below(links, c, c);
    assert Descendants(links, c) <= Descendants(links, x) - {c};
    SubsetSize(Descendants(links, c), Descendants(links, x) - {c});
  }

  lemma {:induction false} SubsetSize(a: set<int>, b: set<int>)
    requires a <= b
    ensures |a| <= |b|
    decreases |a|
  {
    Query.EmptyOrInhabited(a);
    if a != {} {
      var y :| y in a;
      SubsetSize(a - {y}, b - {y});
    }
  }

  /** A parent link from a folder to itself is a cycle: the recursive removal would not end. */
  lemma SelfParentCyclic(links: Links, x: int)
    requires x in links && links[x] == Some(x)
    ensures !Acyclic(links)
  {
    ChildBelow(links, x, x);
  }

  /** Adding the next child's subtree to those of the children before it. */
  lemma UnionSubtreesNext(links: Links, kids: seq<int>, i: int)
    requires 0 <= i < |kids|
    ensures UnionSubtrees(links, kids[..i + 1]) == UnionSubtrees(links, kids[..i]) + Subtree(links, kids[i])
  {
    var front, next := kids[..i], kids[..i + 1];
    assert next == front + [kids[i]];
    forall y | y in UnionSubtrees(links, next) ensures y in UnionSubtrees(links, front) + Subtree(links, kids[i]) {
      var c :| c in next && y in Subtree(links, c);
      if c != kids[i] {
        assert c in front;
      }
    }
    forall y | y in Subtree(links, kids[i]) ensures y in UnionSubtrees(links, next) {
      assert kids[i] in next;
    }
    forall y | y in UnionSubtrees(links, front) ensures y in UnionSubtrees(links, next) {
      var c :| c in front && y in Subtree(links, c);
      assert c in next;
    }
  }

  /**
   * What lies below x is exactly the union of the subtrees of its children, listed in any order:
   * recursing into every child removes everything below x.
   */
  lemma SubtreeSplit(links: Links, x: int, kids: seq<int>)
    requires forall c :: c in kids <==> c in Children(links, x)
    ensures Descendants(links, x) == UnionSubtrees(links, kids)
  {
    forall y ensures y in Descendants(links, x) <==> y in UnionSubtrees(links, kids) {
      if y in Descendants(links, x) {
        BelowFirstStep(links, x, y);
        var c: int;
        if y in Children(links, x) {
          c := y;
        } else {
          c :| c in Children(links, x) && Below(links, c, y);
        }
        assert c in kids && y in Subtree(links, c);
      }
      if y in UnionSubtrees(links, kids) {
        var c :| c in kids && y in Subtree(links, c);
        assert c in Children(links, x);
        ChildBelow(links, x, c);
        if y != c {
          BelowPrepend(links, x, c, y);
        }
      }
    }
  }

  /** A folder with no children has nothing below it. */
  lemma LeafHasNoDescendants(links: Links, x: int)
    requires Children(links, x) == {}
    ensures Subtree(links, x) == {x}
  {
    SubtreeSplit(links, x, []);
  }

  /** The subtree of x is closed under taking children. */
  lemma SubtreeClosed(links: Links, x: int, y: int, z: int)
    requires y in Subtree(links, x) && z in Children(links, y)
    ensures z in Subtree(links, x)
  {
    if y == x {
      ChildBelow(links, x, z);
    } else {
      BelowExtend(links, x, y, z);
    }
  }

  lemma {:induction false} ChainInClosed(links: Links, p: seq<int>, s: set<int>)
    requires Chain(links, p) && p[0] in s
    requires forall y :: y in s ==> Children(links, y) <= s
    ensures p[|p| - 1] in s
    decreases |p|
  {
    if |p| > 1 {
      var q := p[..|p| - 1];
      assert Chain(links, q);
      ChainInClosed(links, q, s);
      assert p[|p| - 1] in Children(links, p[|p| - 2]);
    }
  }

  /** Any set holding x and closed under taking children holds the whole subtree of x. */
  lemma SubtreeLeast(links: Links, x: int, s: set<int>)
    requires x in s
    requires forall y :: y in s ==> Children(links, y) <= s
    ensures Subtree(links, x) <= s
  {
    forall y | y in Descendants(links, x) ensures y in s {
      var p :| Chain(links, p) && |p| >= 2 && p[0] == x && p[|p| - 1] == y;
      ChainInClosed(links, p, s);
    }
  }

  /** Setting deletion flags leaves every parent link as it was. */
  lemma MarkKeepsLinks(m: map<int, Folder>, ids: set<int>)
    ensures LinksOf(MarkFolders(m, ids)) == LinksOf(m)
  {
  }
}
