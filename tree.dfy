/** The flat object tree that `visiting` builds from the depth-tagged visit
    events of a consistency check (tools/vdb-validate/vdb-validate.c:94-102,
    271-305).

    Nodes are kept in event order in one array; links are indices into that
    array, with -1 for "none". The predicate `Linked` states what the links
    mean in terms of the event order alone, and `StepLinked` shows that one
    `visiting` step keeps it. */
module VisitTree {

  /** `KPathType` of a visited object, as far as the validator tells them apart. */
  datatype ObjKind = KDatabase | KTable | KColumn | KIndex | KOtherKind(code: nat)

  /** `node_t`. `name` is the offset of the node's name in the name arena. */
  datatype Node = Node(parent: int, prvSibl: int, nxtSibl: int, firstChild: int,
                       depth: nat, name: nat, objType: ObjKind)

  /** The link value meaning "no node". */
  const NoNode: int := -1

  /** The event stream starts at depth 0 and goes at most one level deeper
      per event. */
  predicate DepthsWellFormed(s: seq<Node>) {
    && (|s| > 0 ==> s[0].depth == 0)
    && forall k :: 0 < k < |s| ==> s[k].depth <= s[k - 1].depth + 1
  }

  /** A node at depth 0 has no parent; any other node's parent is the nearest
      earlier node one level up, and every node in between lies at least as
      deep as the node. */
  predicate ParentOk(s: seq<Node>, k: nat)
    requires k < |s|
  {
    var p := s[k].parent;
    if s[k].depth == 0 then p == NoNode
    else
      && 0 <= p < k && s[p].depth + 1 == s[k].depth
      && forall m :: p < m < k ==> s[m].depth >= s[k].depth
  }

  /** A node without a previous sibling is the first node or directly
      follows its parent; otherwise its previous sibling is an earlier node of
      the same depth and parent with only deeper nodes in between. */
  predicate PrevOk(s: seq<Node>, k: nat)
    requires k < |s|
  {
    var q := s[k].prvSibl;
    if q == NoNode then k == 0 || s[k].depth == s[k - 1].depth + 1
    else
      && 0 <= q < k && s[q].depth == s[k].depth && s[q].parent == s[k].parent
      && forall m :: q < m < k ==> s[m].depth > s[k].depth
  }

  /** The next-sibling link is the inverse of the previous-sibling link. */
  predicate NextOk(s: seq<Node>, k: nat)
    requires k < |s|
  {
    var j := s[k].nxtSibl;
    if j == NoNode then forall m :: 0 <= m < |s| ==> s[m].prvSibl != k
    else k < j < |s| && s[j].prvSibl == k
  }

  /** A node without a first child has no children; otherwise its first
      child is a later node whose parent it is and which has no previous
      sibling. */
  predicate ChildOk(s: seq<Node>, k: nat)
    requires k < |s|
  {
    var c := s[k].firstChild;
    if c == NoNode then forall m :: 0 <= m < |s| ==> s[m].parent != k
    else k < c < |s| && s[c].parent == k && s[c].prvSibl == NoNode
  }

  /** The links of every node mean what `ParentOk`, `PrevOk`, `NextOk` and
      `ChildOk` say. */
  predicate Linked(s: seq<Node>) {
    && DepthsWellFormed(s)
    && (forall k :: 0 <= k < |s| ==> ParentOk(s, k))
    && (forall k :: 0 <= k < |s| ==> PrevOk(s, k))
    && (forall k :: 0 <= k < |s| ==> NextOk(s, k))
    && (forall k :: 0 <= k < |s| ==> ChildOk(s, k))
  }

  /** Whether a visit event at depth `d` may follow the nodes `s`. */
  predicate MayFollow(s: seq<Node>, d: nat) {
    if |s| == 0 then d == 0 else d <= s[|s| - 1].depth + 1
  }

  /** The walk up the parent links from `x` to the first node at depth `d`
      or shallower (lines 295-298). */
  function AncestorAt(s: seq<Node>, x: nat, d: nat): (a: nat)
    requires x < |s| && forall k :: 0 <= k < |s| ==> ParentOk(s, k)
    ensures a <= x && s[a].depth <= d
    ensures s[x].depth >= d ==> s[a].depth == d
    ensures forall m :: a < m <= x ==> s[m].depth > d
    decreases x
  {
    if s[x].depth <= d then x
    else
      assert ParentOk(s, x);
      var p := s[x].parent;
      var a := AncestorAt(s, p, d);
      assert forall m :: p < m <= x ==> s[m].depth > d;
      a
  }

  /** One `visiting` step on the nodes `s`: appends the node for an event at
      depth `d`, and links it as the previous node's next sibling (same
      depth), as its first child (deeper), or as the next sibling of the
      ancestor at depth `d` (shallower). */
  function Step(s: seq<Node>, d: nat, obj: ObjKind, name: nat): (r: seq<Node>)
    requires forall k :: 0 <= k < |s| ==> ParentOk(s, k)
    ensures |r| == |s| + 1
    ensures r[|s|].depth == d && r[|s|].name == name && r[|s|].objType == obj
    ensures r[|s|].nxtSibl == NoNode && r[|s|].firstChild == NoNode
    ensures forall k :: 0 <= k < |s| ==> r[k].(nxtSibl := 0, firstChild := 0) == s[k].(nxtSibl := 0, firstChild := 0)
    ensures forall k, j :: 0 <= k < |s| && 0 <= j < |s| && r[k] != s[k] && r[j] != s[j] ==> k == j
    ensures |s| > 0 && s[|s| - 1].depth == d ==>
              r[|s|].parent == s[|s| - 1].parent && r[|s|].prvSibl == |s| - 1 && r[|s| - 1].nxtSibl == |s|
    ensures |s| > 0 && s[|s| - 1].depth < d ==>
              r[|s|].parent == |s| - 1 && r[|s|].prvSibl == NoNode && r[|s| - 1].firstChild == |s|
    ensures |s| > 0 && s[|s| - 1].depth > d ==>
              var a := AncestorAt(s, |s| - 1, d);
              r[|s|].parent == s[a].parent && r[|s|].prvSibl == a && r[a].nxtSibl == |s|
    ensures |s| == 0 ==> r[0].parent == NoNode && r[0].prvSibl == NoNode
  {
    var nn := |s|;
    var leaf := Node(NoNode, NoNode, NoNode, NoNode, d, name, obj);
    if nn == 0 then [leaf]
    else
      var cur := s[nn - 1];
      if cur.depth == d then
        s[nn - 1 := cur.(nxtSibl := nn)] + [leaf.(parent := cur.parent, prvSibl := nn - 1)]
      else if cur.depth < d then
        s[nn - 1 := cur.(firstChild := nn)] + [leaf.(parent := nn - 1)]
      else
        var a := AncestorAt(s, nn - 1, d);
        s[a := s[a].(nxtSibl := nn)] + [leaf.(parent := s[a].parent, prvSibl := a)]
  }

  /** The node a new sibling is linked after has no next sibling yet. */
  lemma OpenEnd(s: seq<Node>, a: nat, d: nat)
    requires Linked(s) && a < |s| && s[a].depth == d
    requires forall m :: a < m < |s| ==> s[m].depth > d
    ensures s[a].nxtSibl == NoNode
  {
    assert NextOk(s, a);
    assert s[a].nxtSibl != NoNode ==> PrevOk(s, s[a].nxtSibl);
  }

  /** `r` is `s` with a node of depth `d` linked after the node `a`, which
      has the same depth and only deeper nodes after it. */
  predicate SiblingAppend(s: seq<Node>, d: nat, obj: ObjKind, name: nat, a: nat, r: seq<Node>) {
    && Linked(s) && MayFollow(s, d) && a < |s| && s[a].depth == d
    && (forall m :: a < m < |s| ==> s[m].depth > d)
    && r == s[a := s[a].(nxtSibl := |s|)] + [Node(s[a].parent, a, NoNode, NoNode, d, name, obj)]
  }

  /** Linking a sibling keeps depths, parents and previous siblings. */
  lemma SiblingKeepsParents(s: seq<Node>, d: nat, obj: ObjKind, name: nat, a: nat, r: seq<Node>)
    requires SiblingAppend(s, d, obj, name, a, r)
    ensures DepthsWellFormed(r)
    ensures forall k :: 0 <= k < |r| ==> ParentOk(r, k)
    ensures forall k :: 0 <= k < |r| ==> PrevOk(r, k)
  {
    var nn := |s|;
    assert forall m :: 0 <= m < nn ==> r[m].depth == s[m].depth && r[m].parent == s[m].parent
                                       && r[m].prvSibl == s[m].prvSibl;
    assert DepthsWellFormed(r) by {
      assert r[nn - 1].depth == s[nn - 1].depth;
    }
    forall k | 0 <= k < |r| ensures ParentOk(r, k) {
      if k < nn {
        assert ParentOk(s, k);
      } else {
        assert ParentOk(s, a);
      }
    }
    forall k | 0 <= k < |r| ensures PrevOk(r, k) {
      if k < nn {
        assert PrevOk(s, k);
      }
    }
  }

  /** Linking a sibling keeps next-sibling links the inverse of the
      previous-sibling links. */
  lemma SiblingKeepsNexts(s: seq<Node>, d: nat, obj: ObjKind, name: nat, a: nat, r: seq<Node>)
    requires SiblingAppend(s, d, obj, name, a, r)
    ensures forall k :: 0 <= k < |r| ==> NextOk(r, k)
  {
    var nn := |s|;
    OpenEnd(s, a, d);
    assert forall m :: 0 <= m < nn ==> r[m].prvSibl == s[m].prvSibl;
    forall k | 0 <= k < |r| ensures NextOk(r, k) {
      if k < nn {
        assert NextOk(s, k);
      } else {
        forall m | 0 <= m < nn ensures r[m].prvSibl != nn {
          assert PrevOk(s, m);
        }
      }
    }
  }

  /** Linking a sibling keeps first-child links meaningful. */
  lemma SiblingKeepsChildren(s: seq<Node>, d: nat, obj: ObjKind, name: nat, a: nat, r: seq<Node>)
    requires SiblingAppend(s, d, obj, name, a, r)
    ensures forall k :: 0 <= k < |r| ==> ChildOk(r, k)
  {
    var nn := |s|;
    assert forall m :: 0 <= m < nn ==> r[m].parent == s[m].parent && r[m].prvSibl == s[m].prvSibl
                                       && r[m].firstChild == s[m].firstChild;
    forall k | 0 <= k < |r| ensures ChildOk(r, k) {
      if k < nn {
        assert ChildOk(s, k);
        if s[k].firstChild == NoNode {
          assert s[a].parent != k;
        }
      } else {
        forall m | 0 <= m < nn ensures r[m].parent != nn {
          assert ParentOk(s, m);
        }
        assert ParentOk(s, a);
      }
    }
  }

  /** Linking a node of depth `d` after the node `a` (same depth, only deeper
      nodes after it) keeps the links meaningful. */
  lemma SiblingStepLinked(s: seq<Node>, d: nat, obj: ObjKind, name: nat, a: nat, r: seq<Node>)
    requires Linked(s) && MayFollow(s, d) && a < |s| && s[a].depth == d
    requires forall m :: a < m < |s| ==> s[m].depth > d
    requires r == s[a := s[a].(nxtSibl := |s|)]
                  + [Node(s[a].parent, a, NoNode, NoNode, d, name, obj)]
    ensures Linked(r)
  {
    assert SiblingAppend(s, d, obj, name, a, r);
    SiblingKeepsParents(s, d, obj, name, a, r);
    SiblingKeepsNexts(s, d, obj, name, a, r);
    SiblingKeepsChildren(s, d, obj, name, a, r);
  }

  /** Linking a node one level deeper than the last node as its first child
      keeps the links meaningful. */
  lemma ChildStepLinked(s: seq<Node>, d: nat, obj: ObjKind, name: nat, r: seq<Node>)
    requires Linked(s) && |s| > 0 && d == s[|s| - 1].depth + 1
    requires r == s[|s| - 1 := s[|s| - 1].(firstChild := |s|)]
                  + [Node(|s| - 1, NoNode, NoNode, NoNode, d, name, obj)]
    ensures Linked(r)
  {
    var nn := |s|;
    assert ChildOk(s, nn - 1);
    assert forall m :: 0 <= m < nn ==> r[m].depth == s[m].depth && r[m].parent == s[m].parent
                                       && r[m].prvSibl == s[m].prvSibl;
    forall k | 0 <= k < |r| ensures ParentOk(r, k) {
      if k < nn {
        assert ParentOk(s, k);
      }
    }
    forall k | 0 <= k < |r| ensures PrevOk(r, k) {
      if k < nn {
        assert PrevOk(s, k);
      }
    }
    forall k | 0 <= k < |r| ensures NextOk(r, k) {
      if k < nn {
        assert NextOk(s, k);
      } else {
        forall m | 0 <= m < nn ensures r[m].prvSibl != nn {
          assert PrevOk(s, m);
        }
      }
    }
    forall k | 0 <= k < |r| ensures ChildOk(r, k) {
      if k < nn {
        assert ChildOk(s, k);
      } else {
        forall m | 0 <= m < nn ensures r[m].parent != nn {
          assert ParentOk(s, m);
        }
      }
    }
  }

  /** A `visiting` step on a well-formed event stream keeps the links
      meaningful. */
  lemma StepLinked(s: seq<Node>, d: nat, obj: ObjKind, name: nat)
    requires Linked(s) && MayFollow(s, d)
    ensures Linked(Step(s, d, obj, name))
  {
    var nn := |s|;
    var r := Step(s, d, obj, name);
    if nn > 0 {
      var cur := s[nn - 1];
      if cur.depth == d {
        SiblingStepLinked(s, d, obj, name, nn - 1, r);
      } else if cur.depth < d {
        ChildStepLinked(s, d, obj, name, r);
      } else {
        var a := AncestorAt(s, nn - 1, d);
        SiblingStepLinked(s, d, obj, name, a, r);
      }
    }
  }

  /** A node without a previous sibling is its parent's first child. */
  lemma FirstChildIsNext(s: seq<Node>, k: nat)
    requires Linked(s) && 0 < k < |s| && s[k].prvSibl == NoNode
    ensures s[k].parent == k - 1 && s[k - 1].firstChild == k
  {
    assert PrevOk(s, k) && ParentOk(s, k) && ChildOk(s, k - 1);
    var c := s[k - 1].firstChild;
    assert c != NoNode ==> PrevOk(s, c) && ParentOk(s, c);
  }

  /** The next-sibling link of a node's previous sibling leads back to it. */
  lemma PrevSiblingLinksBack(s: seq<Node>, k: nat)
    requires Linked(s) && k < |s| && s[k].prvSibl != NoNode
    ensures 0 <= s[k].prvSibl < k && s[s[k].prvSibl].nxtSibl == k
  {
    var q := s[k].prvSibl;
    assert PrevOk(s, k) && NextOk(s, q);
    var j := s[q].nxtSibl;
    assert j != NoNode ==> PrevOk(s, j);
  }

  /** Following first-child and next-sibling links visits the nodes in event
      order: every node after the first is the first child of the node before
      it (one level deeper), or the next sibling of its previous sibling (at
      most as deep as the node before it). */
  lemma PreorderIsEventOrder(s: seq<Node>, k: nat)
    requires Linked(s) && 0 < k < |s|
    ensures || (s[k].depth == s[k - 1].depth + 1 && s[k - 1].firstChild == k)
            || (s[k].depth <= s[k - 1].depth && 0 <= s[k].prvSibl < k
                && s[s[k].prvSibl].nxtSibl == k)
  {
    assert PrevOk(s, k);
    if s[k].prvSibl == NoNode {
      FirstChildIsNext(s, k);
    } else {
      PrevSiblingLinksBack(s, k);
    }
  }
}
