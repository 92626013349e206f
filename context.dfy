/** `cc_context_t`: the state the report callback updates while a
    consistency check runs — the node array and name arena of the visit tree,
    the first failure reported, and the number of columns that passed
    (tools/vdb-validate/vdb-validate.c:103-110, 112-330). */
module CheckContext {
  import opened RcCodes
  import opened VisitTree
  import opened NameArena
  import opened Aggregate
  import opened Reports

  /** `nodes` and `arena` are the tree and the name arena that visiting the
      objects named `visited` builds. */
  ghost predicate TreeOf(nodes: seq<Node>, arena: seq<char>, visited: seq<string>) {
    && |nodes| == |visited|
    && arena == Arena(visited)
    && (forall k :: 0 <= k < |nodes| ==> nodes[k].name == |Arena(visited[..k])|)
    && (forall k :: 0 <= k < |visited| ==> '\0' !in visited[k])
    && Linked(nodes)
  }

  /** One visit step, with the name appended to the arena, keeps `TreeOf`. */
  lemma StepKeepsTree(s: seq<Node>, arena: seq<char>, visited: seq<string>,
                      depth: nat, objType: ObjKind, name: string)
    requires TreeOf(s, arena, visited) && MayFollow(s, depth) && '\0' !in name
    ensures TreeOf(Step(s, depth, objType, |arena|), arena + name + ['\0'], visited + [name])
  {
    var v := visited + [name];
    var r := Step(s, depth, objType, |arena|);
    StepLinked(s, depth, objType, |arena|);
    assert v[..|v| - 1] == visited;
    forall k | 0 <= k < |r|
      ensures r[k].name == |Arena(v[..k])|
    {
      assert v[..k] == if k < |s| then visited[..k] else visited;
    }
  }

  class CcContext {
    var nodes: array<Node>
    var names: array<char>
    var rc: Rc
    var numColumns: nat
    var nextNode: nat
    var nextName: nat
    /** The names of the objects visited so far, in order. */
    ghost var visited: seq<string>

    /** The first `nextNode` nodes are the linked tree of the visits so far;
        the first `nextName` characters of the arena are their names, each
        ending in NUL, and every node points at its own name. */
    ghost predicate Valid()
      reads this, nodes, names
    {
      && nextNode <= nodes.Length && nextName <= names.Length
      && nextName == |Arena(visited)|
      && TreeOf(nodes[..nextNode], names[..nextName], visited)
    }

    /** The depth of the last node, or -1 before the first visit. */
    function LastDepth(): int
      reads this, nodes
      requires nextNode <= nodes.Length
    {
      if nextNode == 0 then -1 else nodes[nextNode - 1].depth
    }

    /** The fields a report handler leaves alone. */
    twostate predicate TreeKept()
      reads this
    {
      && nodes == old(nodes) && names == old(names)
      && nextNode == old(nextNode) && nextName == old(nextName)
      && visited == old(visited)
    }

    /** `memset(&ctx, 0, sizeof(ctx))` followed by pointing the context at the
        caller's node array and arena. */
    constructor (nodes: array<Node>, names: array<char>)
      ensures Valid()
      ensures this.nodes == nodes && this.names == names
      ensures rc == Ok && numColumns == 0 && visited == []
    {
      this.nodes := nodes;
      this.names := names;
      rc := Ok;
      numColumns := 0;
      nextNode := 0;
      nextName := 0;
      visited := [];
    }

    /** The name of node `k`, read from the arena as a C string, is the
        name of the `k`-th object visited. */
    lemma NodeName(k: nat)
      requires Valid() && k < nextNode
      ensures nodes[k].name < names.Length
      ensures CString(names[..], nodes[k].name) == visited[k]
    {
      var off := nodes[k].name;
      var w := visited[k];
      NameInArena(visited, k);
      assert names[..][off..off + |w|] == names[..nextName][off..off + |w|];
      assert names[..][off + |w|] == names[..nextName][off + |w|];
      CStringReadsCopy(names[..], off, w);
    }

    /** `visiting`: appends the node of an object at depth `depth`, copies its
        name to the arena and links the node into the tree. The check visits
        objects in depth-first order, so a visit is at most one level deeper
        than the one before it; `get_sizes` made room for every object. */
    method Visiting(depth: nat, objType: ObjKind, name: string) returns (r: Rc)
      requires Valid()
      requires nextNode < nodes.Length && nextName + |name| + 1 <= names.Length
      requires MayFollow(nodes[..nextNode], depth) && '\0' !in name
      modifies this, nodes, names
      ensures Valid() && r == Ok
      ensures nodes == old(nodes) && names == old(names)
      ensures rc == old(rc) && numColumns == old(numColumns)
      ensures visited == old(visited) + [name]
      ensures nextNode == old(nextNode) + 1 && nextName == old(nextName) + |name| + 1
      ensures nodes[..nextNode] == Step(old(nodes[..nextNode]), depth, objType, old(nextName))
      ensures forall m :: nextNode <= m < nodes.Length ==> nodes[m] == old(nodes[m])
      ensures names[old(nextName)..nextName] == name + ['\0']
      ensures forall m :: 0 <= m < names.Length && !(old(nextName) <= m < nextName) ==>
                names[m] == old(names[m])
    {
      ghost var s := nodes[..nextNode];
      ghost var prefix := names[..nextName];
      var nn := nextNode;
      var off := nextName;
      AppendNode(depth, objType, off);
      CopyName(off, name);
      assert names[..off + |name| + 1] == prefix + name + ['\0'] by {
        assert names[..off + |name| + 1] == names[..off] + names[off..off + |name| + 1];
      }
      StepKeepsTree(s, prefix, visited, depth, objType, name);
      nextNode := nn + 1;
      nextName := off + |name| + 1;
      visited := visited + [name];
      r := Ok;
    }

    /** The node half of `visiting`: writes the new node after the first
        `nextNode` and links one earlier node to it. Same depth: the previous
        node is its previous sibling; deeper: the previous node is its
        parent; shallower: the walk up the parent links, starting at the
        previous node's parent (lines 295-298), finds its previous sibling. */
    method AppendNode(depth: nat, objType: ObjKind, off: nat)
      requires nextNode < nodes.Length && Linked(nodes[..nextNode])
      requires MayFollow(nodes[..nextNode], depth)
      modifies nodes
      ensures nodes[..nextNode + 1] == Step(old(nodes[..nextNode]), depth, objType, off)
      ensures forall m :: nextNode < m < nodes.Length ==> nodes[m] == old(nodes[m])
    {
      ghost var s := nodes[..nextNode];
      var nn := nextNode;
      var leaf := Node(NoNode, NoNode, NoNode, NoNode, depth, off, objType);
      if nn > 0 {
        var cur := nodes[nn - 1];
        if cur.depth == depth {
          leaf := leaf.(parent := cur.parent, prvSibl := nn - 1);
          nodes[nn - 1] := cur.(nxtSibl := nn);
        } else if cur.depth < depth {
          leaf := leaf.(parent := nn - 1);
          nodes[nn - 1] := cur.(firstChild := nn);
        } else {
          var sibling := FindSibling(depth);
          leaf := leaf.(parent := nodes[sibling].parent, prvSibl := sibling);
          nodes[sibling] := nodes[sibling].(nxtSibl := nn);
        }
      }
      nodes[nn] := leaf;
    }

    /** The walk up the parent links from the last node to the node the new
        node at `depth` follows as its next sibling. */
    method FindSibling(depth: nat) returns (sibling: nat)
      requires 0 < nextNode <= nodes.Length && Linked(nodes[..nextNode])
      requires nodes[nextNode - 1].depth > depth
      ensures sibling == AncestorAt(nodes[..nextNode], nextNode - 1, depth)
    {
      ghost var s := nodes[..nextNode];
      assert ParentOk(s, nextNode - 1);
      sibling := nodes[nextNode - 1].parent;
      while nodes[sibling].depth > depth
        invariant 0 <= sibling < nextNode
        invariant AncestorAt(s, sibling, depth) == AncestorAt(s, nextNode - 1, depth)
        decreases sibling
      {
        assert ParentOk(s, sibling);
        sibling := nodes[sibling].parent;
      }
    }

    /** `strcpy(&names[off], name)`. */
    method CopyName(off: nat, name: string)
      requires off + |name| < names.Length
      modifies names
      ensures forall m :: 0 <= m < names.Length ==>
                names[m] == if off <= m < off + |name| then name[m - off]
                            else if m == off + |name| then '\0'
                            else old(names[m])
      ensures names[..off] == old(names[..off])
      ensures names[off..off + |name| + 1] == name + ['\0']
    {
      var i := 0;
      while i < |name|
        invariant i <= |name|
        invariant forall m :: 0 <= m < names.Length ==>
                    names[m] == (if off <= m < off + i then name[m - off] else old(names[m]))
      {
        names[off + i] := name[i];
        i := i + 1;
      }
      names[off + |name|] := '\0';
    }

    /** `report_index`. */
    method ReportIndex(ev: Event, exhaustive: bool) returns (r: Rc)
      modifies this
      ensures TreeKept()
      ensures var o := Respond(KIndex, ev, exhaustive, false);
              r == o.ret && rc == Latch(old(rc), o.store)
              && numColumns == old(numColumns) + (if o.counted then 1 else 0)
    {
      match ev {
        case Done(code, _) =>
          if code != Ok && rc == Ok {
            rc := code;
          }
          return ReportRtn(code, exhaustive);
        case IndexStep =>
          return Ok;
        case Md5(code) =>
          if code != Ok && rc == Ok {
            rc := code;
          }
          return ReportRtn(code, exhaustive);
        case _ =>
          return Fail(BadEvent);
      }
    }

    /** `report_column`: also counts the columns that passed. */
    method ReportColumn(ev: Event, exhaustive: bool) returns (r: Rc)
      modifies this
      ensures TreeKept()
      ensures var o := Respond(KColumn, ev, exhaustive, false);
              r == o.ret && rc == Latch(old(rc), o.store)
              && numColumns == old(numColumns) + (if o.counted then 1 else 0)
    {
      match ev {
        case Done(code, _) =>
          if code != Ok {
            if rc == Ok {
              rc := code;
            }
          } else {
            numColumns := numColumns + 1;
          }
          return ReportRtn(code, exhaustive);
        case BlobStep =>
          return Ok;
        case Md5(code) =>
          if code != Ok && rc == Ok {
            rc := code;
          }
          return ReportRtn(code, exhaustive);
        case _ =>
          return Fail(BadEvent);
      }
    }

    /** `report_table`: a table that passed but lacks required md5 files
        stops the check without touching the latch. */
    method ReportTable(ev: Event, exhaustive: bool, md5Required: bool) returns (r: Rc)
      modifies this
      ensures TreeKept()
      ensures var o := Respond(KTable, ev, exhaustive, md5Required);
              r == o.ret && rc == Latch(old(rc), o.store)
              && numColumns == old(numColumns) + (if o.counted then 1 else 0)
    {
      match ev {
        case Done(code, mesg) =>
          if code != Ok {
            if rc == Ok {
              rc := code;
            }
          } else if mesg.Some? {
            if mesg.value == MissingMd5Mesg && md5Required {
              return Fail(MissingMd5);
            }
          }
          return ReportRtn(code, exhaustive);
        case Md5(code) =>
          if code != Ok && rc == Ok {
            rc := code;
          }
          return ReportRtn(code, exhaustive);
        case _ =>
          return Fail(BadEvent);
      }
    }

    /** `report_database`: as `report_table`, for a database. */
    method ReportDatabase(ev: Event, exhaustive: bool, md5Required: bool) returns (r: Rc)
      modifies this
      ensures TreeKept()
      ensures var o := Respond(KDatabase, ev, exhaustive, md5Required);
              r == o.ret && rc == Latch(old(rc), o.store)
              && numColumns == old(numColumns) + (if o.counted then 1 else 0)
    {
      match ev {
        case Done(code, mesg) =>
          if code != Ok {
            if rc == Ok {
              rc := code;
            }
          } else if mesg.Some? {
            if mesg.value == MissingMd5Mesg && md5Required {
              return Fail(MissingMd5);
            }
          }
          return ReportRtn(code, exhaustive);
        case Md5(code) =>
          if code != Ok && rc == Ok {
            rc := code;
          }
          return ReportRtn(code, exhaustive);
        case _ =>
          return Fail(BadEvent);
      }
    }

    /** `report`, the callback: a pending cancellation (`quit`, the result of
        `Quitting()`) is returned first; a visit builds the tree; any other
        event goes to the handler for the object's kind. */
    method Report(info: ReportInfo, quit: Rc, exhaustive: bool, md5Required: bool) returns (r: Rc)
      requires Valid()
      requires quit == Ok && info.event.Visit? ==>
                 && nextNode < nodes.Length && nextName + |info.objName| + 1 <= names.Length
                 && MayFollow(nodes[..nextNode], info.event.depth) && '\0' !in info.objName
      modifies this, nodes, names
      ensures Valid() && nodes == old(nodes) && names == old(names)
      ensures quit != Ok ==> r == quit && unchanged(this) && unchanged(nodes) && unchanged(names)
      ensures quit == Ok && info.event.Visit? ==>
                && r == Ok && rc == old(rc) && numColumns == old(numColumns)
                && visited == old(visited) + [info.objName]
                && nextNode == old(nextNode) + 1
                && nextName == old(nextName) + |info.objName| + 1
                && nodes[..nextNode] == Step(old(nodes[..nextNode]), info.event.depth, info.objType, old(nextName))
      ensures quit == Ok && !info.event.Visit? ==>
                && TreeKept() && unchanged(nodes) && unchanged(names)
                && var o := Respond(info.objType, info.event, exhaustive, md5Required);
                && r == o.ret && rc == Latch(old(rc), o.store)
                && numColumns == old(numColumns) + (if o.counted then 1 else 0)
    {
      if quit != Ok {
        return quit;
      }
      if info.event.Visit? {
        r := Visiting(info.event.depth, info.objType, info.objName);
        return;
      }
      match info.objType {
        case KDatabase =>
          r := ReportDatabase(info.event, exhaustive, md5Required);
        case KTable =>
          r := ReportTable(info.event, exhaustive, md5Required);
        case KColumn =>
          r := ReportColumn(info.event, exhaustive);
        case KIndex =>
          r := ReportIndex(info.event, exhaustive);
        case KOtherKind(_) =>
          r := Fail(BadEvent);
      }
    }
  }
}
