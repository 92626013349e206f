/** The structural part of `verify_database_align`: which of the expected
    tables an aligned database has, read from the children of the root of
    the visit tree, and the verdict on that set; then the referential-
    integrity checks it runs (tools/vdb-validate/vdb-validate.c:1320-1427). */
module Classify {
  import opened RcCodes
  import opened VisitTree
  import opened NameArena
  import opened Ids
  import opened RefIntegrity
  import opened Aggregate

  /** The bits of `enum table_bits`. */
  const EvidenceInterval: bv32 := 1
  const EvidenceAlignment: bv32 := 2
  const PrimaryAlignment: bv32 := 4
  const Reference: bv32 := 8
  const Sequence: bv32 := 16
  const SecondaryAlignment: bv32 := 32

  /** The table names an aligned database may hold. */
  const KnownTables: set<string> := {"EVIDENCE_INTERVAL", "EVIDENCE_ALIGNMENT",
    "PRIMARY_ALIGNMENT", "REFERENCE", "SEQUENCE", "SECONDARY_ALIGNMENT"}

  /** The bit of one table, chosen by its first character and then its
      whole name; any other name has none (and only draws a warning). */
  function TableBit(name: string): (b: bv32)
    ensures b == 0 <==> name !in KnownTables
    ensures b == EvidenceInterval <==> name == "EVIDENCE_INTERVAL"
    ensures b == EvidenceAlignment <==> name == "EVIDENCE_ALIGNMENT"
    ensures b == PrimaryAlignment <==> name == "PRIMARY_ALIGNMENT"
    ensures b == Reference <==> name == "REFERENCE"
    ensures b == Sequence <==> name == "SEQUENCE"
    ensures b == SecondaryAlignment <==> name == "SECONDARY_ALIGNMENT"
  {
    if |name| == 0 then 0 as bv32
    else match name[0]
      case 'E' =>
        if name == "EVIDENCE_INTERVAL" then EvidenceInterval
        else if name == "EVIDENCE_ALIGNMENT" then EvidenceAlignment
        else 0
      case 'P' => if name == "PRIMARY_ALIGNMENT" then PrimaryAlignment else 0
      case 'R' => if name == "REFERENCE" then Reference else 0
      case 'S' =>
        if name == "SEQUENCE" then Sequence
        else if name == "SECONDARY_ALIGNMENT" then SecondaryAlignment
        else 0
      case _ => 0
  }

  /** The bits of a list of table names. */
  function BitsOf(tables: seq<string>): bv32 {
    if tables == [] then 0 else TableBit(tables[0]) | BitsOf(tables[1..])
  }

  /** A known table's bit is set exactly when the table is listed. */
  lemma {:induction false} BitsOfNames(tables: seq<string>, x: string)
    requires x in KnownTables
    ensures BitsOf(tables) & TableBit(x) != 0 <==> x in tables
  {
    if tables != [] {
      BitsOfNames(tables[1..], x);
      assert x in tables <==> x == tables[0] || x in tables[1..];
    }
  }

  /** Only known tables set bits, and only the six bits. */
  lemma {:induction false} BitsOfRange(tables: seq<string>)
    ensures BitsOf(tables) & 0xFFFF_FFC0 == 0
    ensures BitsOf(tables) == 0 <==> forall x :: x in tables ==> x !in KnownTables
  {
    if tables != [] {
      BitsOfRange(tables[1..]);
      assert forall x :: x in tables <==> x == tables[0] || x in tables[1..];
    }
  }

  /** The verdict on the set of tables: sequence data alone is fine; otherwise
      REFERENCE and PRIMARY_ALIGNMENT are required, and EVIDENCE_ALIGNMENT
      and EVIDENCE_INTERVAL come together or not at all. */
  function TablesVerdict(tables: bv32): (r: Rc)
    ensures r == Ok || r == Fail(Incomplete)
  {
    if tables == Sequence then Ok
    else if tables & Reference == 0 || tables & PrimaryAlignment == 0 then Fail(Incomplete)
    else if (tables & EvidenceAlignment != 0) != (tables & EvidenceInterval != 0) then Fail(Incomplete)
    else Ok
  }

  /** The verdict in terms of the tables a database lists: it passes exactly
      when SEQUENCE is its only known table, or when it has REFERENCE and
      PRIMARY_ALIGNMENT and has both evidence tables or neither. */
  lemma VerdictOfTables(tables: seq<string>)
    ensures TablesVerdict(BitsOf(tables)) == Ok <==>
              || ("SEQUENCE" in tables && forall x :: x in tables && x in KnownTables ==> x == "SEQUENCE")
              || (&& "REFERENCE" in tables && "PRIMARY_ALIGNMENT" in tables
                  && ("EVIDENCE_ALIGNMENT" in tables <==> "EVIDENCE_INTERVAL" in tables))
  {
    var t := BitsOf(tables);
    BitsOfRange(tables);
    forall x | x in KnownTables
      ensures t & TableBit(x) != 0 <==> x in tables
    {
      BitsOfNames(tables, x);
    }
    assert TableBit("SEQUENCE") == Sequence;
    assert TableBit("REFERENCE") == Reference;
    assert TableBit("PRIMARY_ALIGNMENT") == PrimaryAlignment;
    assert TableBit("EVIDENCE_ALIGNMENT") == EvidenceAlignment;
    assert TableBit("EVIDENCE_INTERVAL") == EvidenceInterval;
    assert TableBit("SECONDARY_ALIGNMENT") == SecondaryAlignment;
  }

  // ----- the walk over the root's children (lines 1324-1382) -----

  /** Every node's name offset lies inside the arena. */
  predicate NamesInside(s: seq<Node>, arena: seq<char>) {
    forall k :: 0 <= k < |s| ==> s[k].name <= |arena|
  }

  /** The table names among the children of node `p` at index `k` or later,
      in order. */
  function ChildTables(s: seq<Node>, arena: seq<char>, p: int, k: nat): seq<string>
    requires NamesInside(s, arena)
    decreases |s| - k
  {
    if k >= |s| then []
    else if s[k].parent == p && s[k].objType == KTable then
      [CString(arena, s[k].name)] + ChildTables(s, arena, p, k + 1)
    else ChildTables(s, arena, p, k + 1)
  }

  /** The bit node `k` contributes: its table's bit, or none for an object
      that is not a table. */
  function NodeBit(s: seq<Node>, arena: seq<char>, k: nat): bv32
    requires NamesInside(s, arena) && k < |s|
  {
    if s[k].objType == KTable then TableBit(CString(arena, s[k].name)) else 0
  }

  /** The bits collected by following next-sibling links from node `k`
      while they are positive. */
  function ChainBits(s: seq<Node>, arena: seq<char>, k: nat): bv32
    requires Linked(s) && NamesInside(s, arena) && k < |s|
    decreases |s| - k
  {
    assert NextOk(s, k);
    var next := s[k].nxtSibl;
    NodeBit(s, arena, k) | (if next > 0 then ChainBits(s, arena, next) else 0)
  }

  /** One link of the chain. */
  lemma ChainStep(s: seq<Node>, arena: seq<char>, k: nat)
    requires Linked(s) && NamesInside(s, arena) && k < |s|
    ensures s[k].nxtSibl > 0 ==> k < s[k].nxtSibl < |s|
    ensures ChainBits(s, arena, k) == NodeBit(s, arena, k)
              | (if s[k].nxtSibl > 0 then ChainBits(s, arena, s[k].nxtSibl) else 0)
  {
    assert NextOk(s, k);
  }

  /** The bits `acc` together with those collected along the chain from
      node `k`, in the order the walk collects them. */
  function ChainFrom(s: seq<Node>, arena: seq<char>, acc: bv32, k: nat): bv32
    requires Linked(s) && NamesInside(s, arena) && k < |s|
    decreases |s| - k
  {
    assert NextOk(s, k);
    var next := s[k].nxtSibl;
    if next > 0 then ChainFrom(s, arena, acc | NodeBit(s, arena, k), next)
    else acc | NodeBit(s, arena, k)
  }

  /** Collecting along the chain onto `acc` adds exactly the chain's bits. */
  lemma {:induction false} ChainFromIsChain(s: seq<Node>, arena: seq<char>, acc: bv32, k: nat)
    requires Linked(s) && NamesInside(s, arena) && k < |s|
    ensures ChainFrom(s, arena, acc, k) == acc | ChainBits(s, arena, k)
    decreases |s| - k
  {
    ChainStep(s, arena, k);
    var next := s[k].nxtSibl;
    if next > 0 {
      ChainFromIsChain(s, arena, acc | NodeBit(s, arena, k), next);
      var b := NodeBit(s, arena, k);
      var rest := ChainBits(s, arena, next);
      assert (acc | b) | rest == acc | (b | rest);
    }
  }

  /** Nodes that are not children of `p` add no tables. */
  lemma {:induction false} SkipNonChildren(s: seq<Node>, arena: seq<char>, p: int, k: nat, j: nat)
    requires NamesInside(s, arena) && k <= j <= |s|
    requires forall m :: k <= m < j ==> s[m].parent != p
    ensures ChildTables(s, arena, p, k) == ChildTables(s, arena, p, j)
    decreases j - k
  {
    if k < j {
      SkipNonChildren(s, arena, p, k + 1, j);
    }
  }

  /** Two children of one parent lie at the same depth. */
  lemma SiblingsSameDepth(s: seq<Node>, a: nat, b: nat)
    requires Linked(s) && a < |s| && b < |s|
    requires s[a].parent == s[b].parent && s[a].parent >= 0
    ensures s[a].depth == s[b].depth
  {
    assert ParentOk(s, a) && ParentOk(s, b);
  }

  /** No child of `p` follows a child without a next sibling. */
  lemma {:induction false} NoChildAfterLast(s: seq<Node>, p: nat, k: nat, m: nat)
    requires Linked(s) && k < m < |s|
    requires s[k].parent == p && s[k].nxtSibl == NoNode
    ensures s[m].parent != p
    decreases m - k
  {
    if s[m].parent == p {
      assert ParentOk(s, k) && PrevOk(s, m);
      var q := s[m].prvSibl;
      if q == NoNode {
        FirstChildIsNext(s, m);
        assert false;
      } else {
        PrevSiblingLinksBack(s, m);
        if q > k {
          NoChildAfterLast(s, p, k, q);
          assert false;
        } else {
          SiblingsSameDepth(s, k, m);
          assert false;
        }
      }
    }
  }

  /** A child of `p` adds its own bit to those of the later children. */
  lemma ChildTablesStep(s: seq<Node>, arena: seq<char>, p: nat, k: nat)
    requires NamesInside(s, arena) && k < |s| && s[k].parent == p
    ensures BitsOf(ChildTables(s, arena, p, k)) == NodeBit(s, arena, k) | BitsOf(ChildTables(s, arena, p, k + 1))
  {
    var t := ChildTables(s, arena, p, k);
    if s[k].objType == KTable {
      assert t[1..] == ChildTables(s, arena, p, k + 1);
    }
  }

  /** No child of `p` lies between a child and its next sibling. */
  lemma NoChildBeforeNext(s: seq<Node>, p: nat, k: nat)
    requires Linked(s) && k < |s| && s[k].parent == p && s[k].nxtSibl > 0
    ensures k < s[k].nxtSibl < |s| && s[s[k].nxtSibl].parent == p
    ensures forall m :: k + 1 <= m < s[k].nxtSibl ==> s[m].parent != p
  {
    assert NextOk(s, k);
    var next := s[k].nxtSibl;
    assert PrevOk(s, next);
    forall m | k + 1 <= m < next
      ensures s[m].parent != p
    {
      if s[m].parent == p {
        SiblingsSameDepth(s, k, m);
      }
    }
  }

  /** No child of `p` follows a child without a next sibling. */
  lemma NoChildAfterEnd(s: seq<Node>, p: nat, k: nat)
    requires Linked(s) && k < |s| && s[k].parent == p && s[k].nxtSibl <= 0
    ensures forall m :: k + 1 <= m < |s| ==> s[m].parent != p
  {
    assert NextOk(s, k);
    forall m | k + 1 <= m < |s|
      ensures s[m].parent != p
    {
      NoChildAfterLast(s, p, k, m);
    }
  }

  /** Following the next-sibling links from a child of `p` collects the
      tables of that child and of all later children of `p`. */
  lemma {:induction false} ChainIsChildren(s: seq<Node>, arena: seq<char>, p: nat, k: nat)
    requires Linked(s) && NamesInside(s, arena) && k < |s| && s[k].parent == p
    ensures ChainBits(s, arena, k) == BitsOf(ChildTables(s, arena, p, k))
    decreases |s| - k
  {
    ChainStep(s, arena, k);
    ChildTablesStep(s, arena, p, k);
    var next := s[k].nxtSibl;
    if next > 0 {
      NoChildBeforeNext(s, p, k);
      SkipNonChildren(s, arena, p, k + 1, next);
      ChainIsChildren(s, arena, p, next);
    } else {
      NoChildAfterEnd(s, p, k);
      SkipNonChildren(s, arena, p, k + 1, |s|);
    }
  }

  /** The tables among the root's children are those on the chain from its
      first child; a root without children has none. */
  lemma RootChildren(s: seq<Node>, arena: seq<char>)
    requires Linked(s) && NamesInside(s, arena) && |s| > 0
    ensures s[0].firstChild == NoNode || 0 < s[0].firstChild < |s|
    ensures s[0].firstChild > 0 ==>
              BitsOf(ChildTables(s, arena, 0, 0)) == ChainBits(s, arena, s[0].firstChild)
    ensures s[0].firstChild == NoNode ==> ChildTables(s, arena, 0, 0) == []
  {
    assert ChildOk(s, 0) && ParentOk(s, 0);
    var c := s[0].firstChild;
    if c > 0 {
      FirstChildIsNext(s, c);
      SkipNonChildren(s, arena, 0, 0, 1);
      ChainIsChildren(s, arena, 0, c);
    } else {
      SkipNonChildren(s, arena, 0, 0, |s|);
    }
  }

  /** The walk of `verify_database_align` over the children of the root:
      the bits of every child that is a known table. A root without
      children yields no bits (see `RootGuardAsWritten`). */
  method ClassifyTables(nodes: array<Node>, names: array<char>, n: nat) returns (tables: bv32)
    requires 0 < n <= nodes.Length && Linked(nodes[..n]) && NamesInside(nodes[..n], names[..])
    ensures tables == BitsOf(ChildTables(nodes[..n], names[..], 0, 0))
  {
    ghost var s := nodes[..n];
    ghost var arena := names[..];
    RootChildren(s, arena);
    tables := 0;
    if nodes[0].firstChild > 0 {
      var tbl := nodes[0].firstChild;
      ghost var all := ChainFrom(s, arena, 0, tbl);
      ChainFromIsChain(s, arena, 0, tbl);
      while true
        invariant 0 < tbl < n
        invariant ChainFrom(s, arena, tables, tbl) == all
        decreases n - tbl
      {
        var thisTable: bv32 := 0;
        if nodes[tbl].objType == KTable {
          thisTable := TableBit(CString(names[..], nodes[tbl].name));
        }
        assert thisTable == NodeBit(s, arena, tbl);
        assert NextOk(s, tbl);
        tables := tables | thisTable;
        var next := nodes[tbl].nxtSibl;
        if next > 0 {
          tbl := next;
        } else {
          break;
        }
      }
    }
  }

  /** The guard `if (nodes[0].firstChild)` as written: it lets a root
      without children through, since "none" is -1. */
  predicate RootGuardAsWritten(s: seq<Node>)
    requires |s| > 0
  {
    s[0].firstChild != 0
  }

  /** A database with no objects under its root passes the guard as written
      and the walk would start at index -1, before the node array. The
      corrected guard `firstChild > 0` used by `ClassifyTables` stops it. */
  lemma EmptyRootPassesGuard()
    ensures var s := [Node(NoNode, NoNode, NoNode, NoNode, 0, 0, KDatabase)];
            && Linked(s) && RootGuardAsWritten(s) && s[0].firstChild == -1
            && !(s[0].firstChild > 0)
  {
    var s := [Node(NoNode, NoNode, NoNode, NoNode, 0, 0, KDatabase)];
    assert ParentOk(s, 0) && PrevOk(s, 0) && NextOk(s, 0) && ChildOk(s, 0);
  }

  // ----- the verdict of `verify_database_align` (lines 1383-1426) -----

  /** The referential-integrity part, run when `ref_int_check` is set: each
      table whose bit is set is opened (PRIMARY_ALIGNMENT, SEQUENCE, then
      REFERENCE), and the first failure to open one is the result;
      otherwise `dbric_align` runs over the tables opened. */
  function IntegrityVerdict(tables: bv32, priOpen: Rc, seqOpen: Rc, refOpen: Rc,
                            exhaustive: bool, seqPriJob: RicJob, refPriJob: RicJob): Rc
  {
    var hasPri := tables & PrimaryAlignment != 0;
    var hasSeq := tables & Sequence != 0;
    var hasRef := tables & Reference != 0;
    if hasPri && priOpen != Ok then priOpen
    else if hasSeq && seqOpen != Ok then seqOpen
    else if hasRef && refOpen != Ok then refOpen
    else FirstError(DbricResults(hasPri, hasSeq, hasRef, exhaustive,
                                 RicAlignVerdict(seqPriJob), RicAlignVerdict(refPriJob)))
  }

  /** The result of `verify_database_align` as written: with
      `ref_int_check` set, the integrity part's result replaces the verdict
      on the tables. */
  function AlignVerdict(tables: bv32, refIntCheck: bool, priOpen: Rc, seqOpen: Rc, refOpen: Rc,
                        exhaustive: bool, seqPriJob: RicJob, refPriJob: RicJob): Rc
  {
    if refIntCheck then IntegrityVerdict(tables, priOpen, seqOpen, refOpen, exhaustive, seqPriJob, refPriJob)
    else TablesVerdict(tables)
  }

  /** `verify_database_align`: classifies the root's children, gives the
      verdict on them, then (with `ref_int_check`) opens the tables present
      and runs `dbric_align`. Opening a table is a library call, given here
      by its result. */
  method VerifyDatabaseAlign(nodes: array<Node>, names: array<char>, n: nat, refIntCheck: bool,
                             priOpen: Rc, seqOpen: Rc, refOpen: Rc,
                             exhaustive: bool, seqPriJob: RicJob, refPriJob: RicJob)
    returns (rc: Rc)
    requires 0 < n <= nodes.Length && Linked(nodes[..n]) && NamesInside(nodes[..n], names[..])
    ensures rc == AlignVerdict(BitsOf(ChildTables(nodes[..n], names[..], 0, 0)), refIntCheck,
                               priOpen, seqOpen, refOpen, exhaustive, seqPriJob, refPriJob)
  {
    var tables := ClassifyTables(nodes, names, n);
    rc := TablesVerdict(tables);
    if refIntCheck {
      var hasPri := tables & PrimaryAlignment != 0;
      var hasSeq := tables & Sequence != 0;
      var hasRef := tables & Reference != 0;
      if hasPri {
        rc := priOpen;
        if rc != Ok {
          return;
        }
      }
      if hasSeq {
        rc := seqOpen;
        if rc != Ok {
          return;
        }
      }
      if hasRef {
        rc := refOpen;
        if rc != Ok {
          return;
        }
      }
      var ranSeqPri, ranRefPri;
      rc, ranSeqPri, ranRefPri := DbricAlign(hasPri, hasSeq, hasRef, exhaustive, seqPriJob, refPriJob);
    }
  }

  /** A check over an empty range of rows, which passes. */
  const NoRows: RicJob := RicJob(Opened(0, 0, (row: int) => ReadFailed(Error(RcRow, RcNotFound)),
                                               (row: int) => ReadFailed(Error(RcRow, RcNotFound))), true)

  /** With `ref_int_check` on (the default), a database with SEQUENCE and
      PRIMARY_ALIGNMENT but no REFERENCE is classified incomplete, and yet
      the result is zero once the tables open and the SEQUENCE check passes:
      the integrity result overwrites the structural finding. */
  lemma IncompleteDroppedByIntegrityCheck()
    ensures var tables := BitsOf(["SEQUENCE", "PRIMARY_ALIGNMENT"]);
            && TablesVerdict(tables) == Fail(Incomplete)
            && AlignVerdict(tables, true, Ok, Ok, Ok, false, NoRows, NoRows) == Ok
  {
    var tables := BitsOf(["SEQUENCE", "PRIMARY_ALIGNMENT"]);
    assert ["SEQUENCE", "PRIMARY_ALIGNMENT"][1..] == ["PRIMARY_ALIGNMENT"];
    assert tables == Sequence | PrimaryAlignment;
    assert Ric(NoRows.setup.a, NoRows.setup.b, 0, 0, Halved(0)) == Ok;
  }

  /** The evidently intended result: the finding on the tables is kept, and
      the integrity part can only add a failure of its own. */
  function AlignVerdictIntended(tables: bv32, refIntCheck: bool, priOpen: Rc, seqOpen: Rc, refOpen: Rc,
                                exhaustive: bool, seqPriJob: RicJob, refPriJob: RicJob): (r: Rc)
    ensures TablesVerdict(tables) != Ok ==> r == TablesVerdict(tables)
    ensures r == Ok <==>
              && TablesVerdict(tables) == Ok
              && (refIntCheck ==> IntegrityVerdict(tables, priOpen, seqOpen, refOpen,
                                                    exhaustive, seqPriJob, refPriJob) == Ok)
  {
    Latch(TablesVerdict(tables),
          if refIntCheck then IntegrityVerdict(tables, priOpen, seqOpen, refOpen, exhaustive, seqPriJob, refPriJob)
          else Ok)
  }

  /** The two agree on every database with the required tables, and
      whenever the integrity check is off. */
  lemma IntendedAgreesWhenComplete(tables: bv32, refIntCheck: bool, priOpen: Rc, seqOpen: Rc, refOpen: Rc,
                                   exhaustive: bool, seqPriJob: RicJob, refPriJob: RicJob)
    requires TablesVerdict(tables) == Ok || !refIntCheck
    ensures AlignVerdictIntended(tables, refIntCheck, priOpen, seqOpen, refOpen, exhaustive, seqPriJob, refPriJob)
         == AlignVerdict(tables, refIntCheck, priOpen, seqOpen, refOpen, exhaustive, seqPriJob, refPriJob)
  {
  }
}
