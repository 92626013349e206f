/** One consistency check of a table or database as `kdbcc` runs it: the
    check delivers its reports to the callback in order and stops at the
    first non-zero answer; the validator's verdict is the check's result or,
    when that is zero, the first failure the handlers latched
    (tools/vdb-validate/vdb-validate.c:333-419). */
module ConsistencyRun {
  import opened RcCodes
  import opened VisitTree
  import opened NameArena
  import opened Aggregate
  import opened Reports
  import opened CheckContext

  /** The names of the objects the reports visit, in order. */
  function VisitNames(reports: seq<ReportInfo>): seq<string>
    decreases |reports|
  {
    if reports == [] then []
    else (if reports[0].event.Visit? then [reports[0].objName] else []) + VisitNames(reports[1..])
  }

  /** The visits among `reports` go at most one level deeper each, starting
      one level below `prev` (-1: no visit yet, so the first is at depth 0),
      and name their objects by NUL-free C strings. */
  predicate WellFormedFrom(prev: int, reports: seq<ReportInfo>)
    decreases |reports|
  {
    if reports == [] then true
    else if reports[0].event.Visit? then
      && reports[0].event.depth <= prev + 1 && '\0' !in reports[0].objName
      && WellFormedFrom(reports[0].event.depth, reports[1..])
    else WellFormedFrom(prev, reports[1..])
  }

  /** The state a run of reports leaves: the first failure latched, the
      columns counted, and the non-zero answer that stopped it (`Ok` if the
      check ran to its end). */
  datatype RunOutcome = RunOutcome(stored: Rc, columns: nat, stop: Rc)

  /** The reports delivered to the callback in order, from a fresh context,
      until one is answered with a non-zero code. */
  function Run(reports: seq<ReportInfo>, exhaustive: bool, md5Required: bool): RunOutcome
    decreases |reports|
  {
    if reports == [] then RunOutcome(Ok, 0, Ok)
    else if reports[0].event.Visit? then Run(reports[1..], exhaustive, md5Required)
    else
      var o := Respond(reports[0].objType, reports[0].event, exhaustive, md5Required);
      var n := if o.counted then 1 else 0;
      if o.ret != Ok then RunOutcome(o.store, n, o.ret)
      else
        var rest := Run(reports[1..], exhaustive, md5Required);
        RunOutcome(Latch(o.store, rest.stored), n + rest.columns, rest.stop)
  }

  /** `kdbcc` once the object is open: the check's own result (`finish` when
      no answer stopped it) and, when that is zero, the latched failure. */
  function KdbccVerdict(reports: seq<ReportInfo>, finish: Rc, exhaustive: bool, md5Required: bool): Rc {
    var o := Run(reports, exhaustive, md5Required);
    var cc := if o.stop != Ok then o.stop else finish;
    Latch(cc, o.stored)
  }

  /** `get_sizes` made room for all the visits: one slot per node and the
      names with their NULs. */
  lemma {:induction false} ArenaSizeOfFront(name: string, rest: seq<string>)
    ensures ArenaSize([name] + rest) == |name| + 1 + ArenaSize(rest)
    decreases |rest|
  {
    var v := [name] + rest;
    if rest != [] {
      var init := rest[..|rest| - 1];
      assert v[..|v| - 1] == [name] + init;
      ArenaSizeOfFront(name, init);
    } else {
      assert v[..|v| - 1] == [];
    }
  }

  /** Where a run stands: the context's latch, column count, the depth of
      its last node, how much of the node array and arena it used, and the
      names visited. */
  datatype Progress = Progress(rc: Rc, columns: nat, lastDepth: int,
                               nodesUsed: nat, namesUsed: nat, visited: seq<string>)

  /** A run that has answered everything before `rest` with zero is on its
      way to the outcome of running all of `reports`, and the node array and
      arena still have room for the rest of the visits. */
  ghost predicate OnTrack(p: Progress, rest: seq<ReportInfo>, reports: seq<ReportInfo>,
                          nodesLen: nat, namesLen: nat, exhaustive: bool, md5Required: bool)
  {
    var outcome := Run(reports, exhaustive, md5Required);
    var tail := Run(rest, exhaustive, md5Required);
    && p.nodesUsed + |VisitNames(rest)| <= nodesLen
    && p.namesUsed + ArenaSize(VisitNames(rest)) <= namesLen
    && WellFormedFrom(p.lastDepth, rest)
    && p.visited + VisitNames(rest) == VisitNames(reports)
    && Latch(p.rc, tail.stored) == outcome.stored
    && p.columns + tail.columns == outcome.columns
    && tail.stop == outcome.stop
  }

  /** A visit keeps a run on track and has the room and depth it needs. */
  lemma VisitOnTrack(p: Progress, rest: seq<ReportInfo>, reports: seq<ReportInfo>,
                     nodesLen: nat, namesLen: nat, exhaustive: bool, md5Required: bool)
    requires rest != [] && rest[0].event.Visit?
    requires OnTrack(p, rest, reports, nodesLen, namesLen, exhaustive, md5Required)
    ensures var v := rest[0];
            && p.nodesUsed < nodesLen && p.namesUsed + |v.objName| + 1 <= namesLen
            && v.event.depth <= p.lastDepth + 1 && '\0' !in v.objName
            && OnTrack(Progress(p.rc, p.columns, v.event.depth, p.nodesUsed + 1,
                                p.namesUsed + |v.objName| + 1, p.visited + [v.objName]),
                       rest[1..], reports, nodesLen, namesLen, exhaustive, md5Required)
  {
    var v := rest[0];
    ArenaSizeOfFront(v.objName, VisitNames(rest[1..]));
    assert VisitNames(rest) == [v.objName] + VisitNames(rest[1..]);
    assert p.visited + [v.objName] + VisitNames(rest[1..]) == p.visited + VisitNames(rest);
  }

  /** A report answered with zero keeps a run on track; one answered
      otherwise ends it with the run's outcome. */
  lemma ReportOnTrack(p: Progress, rest: seq<ReportInfo>, reports: seq<ReportInfo>,
                      nodesLen: nat, namesLen: nat, exhaustive: bool, md5Required: bool)
    requires rest != [] && !rest[0].event.Visit?
    requires OnTrack(p, rest, reports, nodesLen, namesLen, exhaustive, md5Required)
    ensures var o := Respond(rest[0].objType, rest[0].event, exhaustive, md5Required);
            var p' := p.(rc := Latch(p.rc, o.store), columns := p.columns + if o.counted then 1 else 0);
            var outcome := Run(reports, exhaustive, md5Required);
            && (o.ret == Ok ==> OnTrack(p', rest[1..], reports, nodesLen, namesLen, exhaustive, md5Required))
            && (o.ret != Ok ==> o.ret == outcome.stop && p'.rc == outcome.stored && p'.columns == outcome.columns)
  {
    var o := Respond(rest[0].objType, rest[0].event, exhaustive, md5Required);
    var tail := Run(rest[1..], exhaustive, md5Required);
    assert VisitNames(rest) == VisitNames(rest[1..]);
    assert Latch(p.rc, Latch(o.store, tail.stored)) == Latch(Latch(p.rc, o.store), tail.stored);
  }

  /** The callback answering the first of the reports `rest` of a run that
      is on track. */
  method Deliver(ctx: CcContext, rep: ReportInfo, ghost rest: seq<ReportInfo>, ghost reports: seq<ReportInfo>,
                 exhaustive: bool, md5Required: bool) returns (r: Rc)
    requires ctx.Valid() && rest != [] && rest[0] == rep
    requires OnTrack(ProgressOf(ctx), rest, reports, ctx.nodes.Length, ctx.names.Length,
                     exhaustive, md5Required)
    modifies ctx, ctx.nodes, ctx.names
    ensures ctx.Valid() && ctx.nodes == old(ctx.nodes) && ctx.names == old(ctx.names)
    ensures r == Ok ==> OnTrack(ProgressOf(ctx), rest[1..], reports, ctx.nodes.Length,
                                ctx.names.Length, exhaustive, md5Required)
    ensures var outcome := Run(reports, exhaustive, md5Required);
            r != Ok ==> r == outcome.stop && ctx.rc == outcome.stored && ctx.numColumns == outcome.columns
  {
    if rep.event.Visit? {
      r := DeliverVisit(ctx, rep, rest, reports, exhaustive, md5Required);
    } else {
      r := DeliverReport(ctx, rep, rest, reports, exhaustive, md5Required);
    }
  }

  /** `Deliver` for a visit: answered with zero, the run stays on track. */
  method DeliverVisit(ctx: CcContext, rep: ReportInfo, ghost rest: seq<ReportInfo>, ghost reports: seq<ReportInfo>,
                      exhaustive: bool, md5Required: bool) returns (r: Rc)
    requires ctx.Valid() && rest != [] && rest[0] == rep && rep.event.Visit?
    requires OnTrack(ProgressOf(ctx), rest, reports, ctx.nodes.Length, ctx.names.Length,
                     exhaustive, md5Required)
    modifies ctx, ctx.nodes, ctx.names
    ensures ctx.Valid() && ctx.nodes == old(ctx.nodes) && ctx.names == old(ctx.names)
    ensures r == Ok && OnTrack(ProgressOf(ctx), rest[1..], reports, ctx.nodes.Length,
                               ctx.names.Length, exhaustive, md5Required)
  {
    VisitOnTrack(ProgressOf(ctx), rest, reports, ctx.nodes.Length, ctx.names.Length, exhaustive, md5Required);
    assert MayFollow(ctx.nodes[..ctx.nextNode], rep.event.depth);
    r := ctx.Report(rep, Ok, exhaustive, md5Required);
  }

  /** `Deliver` for any other event: the handler's answer keeps the run on
      track or ends it with the run's outcome. */
  method DeliverReport(ctx: CcContext, rep: ReportInfo, ghost rest: seq<ReportInfo>, ghost reports: seq<ReportInfo>,
                       exhaustive: bool, md5Required: bool) returns (r: Rc)
    requires ctx.Valid() && rest != [] && rest[0] == rep && !rep.event.Visit?
    requires OnTrack(ProgressOf(ctx), rest, reports, ctx.nodes.Length, ctx.names.Length,
                     exhaustive, md5Required)
    modifies ctx, ctx.nodes, ctx.names
    ensures ctx.Valid() && ctx.nodes == old(ctx.nodes) && ctx.names == old(ctx.names)
    ensures r == Ok ==> OnTrack(ProgressOf(ctx), rest[1..], reports, ctx.nodes.Length,
                                ctx.names.Length, exhaustive, md5Required)
    ensures var outcome := Run(reports, exhaustive, md5Required);
            r != Ok ==> r == outcome.stop && ctx.rc == outcome.stored && ctx.numColumns == outcome.columns
  {
    ReportOnTrack(ProgressOf(ctx), rest, reports, ctx.nodes.Length, ctx.names.Length, exhaustive, md5Required);
    r := ctx.Report(rep, Ok, exhaustive, md5Required);
  }

  /** Where the run of `ctx` stands. */
  ghost function ProgressOf(ctx: CcContext): Progress
    reads ctx, ctx.nodes
    requires ctx.nextNode <= ctx.nodes.Length
  {
    Progress(ctx.rc, ctx.numColumns, ctx.LastDepth(), ctx.nextNode, ctx.nextName, ctx.visited)
  }

  /** A fresh context is on track for all the reports of a well-formed run
      the node array and arena were sized for. */
  lemma OnTrackAtStart(reports: seq<ReportInfo>, nodesLen: nat, namesLen: nat,
                       exhaustive: bool, md5Required: bool)
    requires WellFormedFrom(-1, reports)
    requires |VisitNames(reports)| <= nodesLen && ArenaSize(VisitNames(reports)) <= namesLen
    ensures OnTrack(Progress(Ok, 0, -1, 0, 0, []), reports, reports, nodesLen, namesLen,
                    exhaustive, md5Required)
  {
    assert [] + VisitNames(reports) == VisitNames(reports);
  }

  /** A run on track with no reports left has reached the outcome of the
      whole run. */
  lemma OnTrackAtEnd(p: Progress, reports: seq<ReportInfo>, nodesLen: nat, namesLen: nat,
                     exhaustive: bool, md5Required: bool)
    requires OnTrack(p, [], reports, nodesLen, namesLen, exhaustive, md5Required)
    ensures var outcome := Run(reports, exhaustive, md5Required);
            p.rc == outcome.stored && p.columns == outcome.columns && outcome.stop == Ok
            && p.visited == VisitNames(reports)
  {
    assert p.visited + [] == p.visited;
  }

  /** `kdbcc`: runs the check with a fresh context over the caller's node
      array and arena, which `get_sizes` sized for the objects visited. */
  method Kdbcc(nodes: array<Node>, names: array<char>, reports: seq<ReportInfo>,
               finish: Rc, exhaustive: bool, md5Required: bool)
    returns (rc: Rc, ctx: CcContext)
    requires WellFormedFrom(-1, reports)
    requires |VisitNames(reports)| <= nodes.Length
    requires ArenaSize(VisitNames(reports)) <= names.Length
    modifies nodes, names
    ensures rc == KdbccVerdict(reports, finish, exhaustive, md5Required)
    ensures ctx.Valid() && ctx.nodes == nodes && ctx.names == names
    ensures ctx.rc == Run(reports, exhaustive, md5Required).stored
    ensures ctx.numColumns == Run(reports, exhaustive, md5Required).columns
    ensures Run(reports, exhaustive, md5Required).stop == Ok ==> ctx.visited == VisitNames(reports)
  {
    ctx := new CcContext(nodes, names);
    ghost var outcome := Run(reports, exhaustive, md5Required);
    assert ProgressOf(ctx) == Progress(Ok, 0, -1, 0, 0, []);
    OnTrackAtStart(reports, nodes.Length, names.Length, exhaustive, md5Required);
    var i := 0;
    var stop := Ok;
    while i < |reports| && stop == Ok
      invariant i <= |reports|
      invariant ctx.Valid() && ctx.nodes == nodes && ctx.names == names
      invariant stop == Ok ==>
                  OnTrack(ProgressOf(ctx), reports[i..], reports, nodes.Length, names.Length,
                          exhaustive, md5Required)
      invariant stop != Ok ==>
                  stop == outcome.stop && ctx.rc == outcome.stored && ctx.numColumns == outcome.columns
      modifies ctx, nodes, names
      decreases |reports| - i
    {
      assert reports[i..][1..] == reports[i + 1..];
      var r := Deliver(ctx, reports[i], reports[i..], reports, exhaustive, md5Required);
      stop := r;
      i := i + 1;
    }
    if stop == Ok {
      assert reports[i..] == [];
      OnTrackAtEnd(ProgressOf(ctx), reports, nodes.Length, names.Length, exhaustive, md5Required);
    }
    rc := if stop != Ok then stop else finish;
    if rc == Ok {
      rc := ctx.rc;
    }
  }

  /** A report the handlers accept without complaint: a visit, or an event
      its object's handler expects that carries no failure and is not a
      table or database missing required md5 files. */
  predicate Clean(r: ReportInfo, md5Required: bool) {
    || r.event.Visit?
    || (&& Accepted(r.objType, r.event)
        && !MissingMd5Path(r.objType, r.event, md5Required)
        && ((r.event.Done? || r.event.Md5?) ==> r.event.code == Ok))
  }

  /** A run latches no failure and is never stopped exactly when every
      report is clean, in either mode. */
  lemma {:induction false} RunPassesIffClean(reports: seq<ReportInfo>, exhaustive: bool, md5Required: bool)
    ensures var o := Run(reports, exhaustive, md5Required);
            o.stored == Ok && o.stop == Ok <==>
              forall k :: 0 <= k < |reports| ==> Clean(reports[k], md5Required)
    decreases |reports|
  {
    if reports != [] {
      RunPassesIffClean(reports[1..], exhaustive, md5Required);
      assert forall k :: 1 <= k < |reports| ==> reports[k] == reports[1..][k - 1];
    }
  }

  /** `kdbcc` passes exactly when the check itself passes and every report
      is clean; so exhaustive mode changes which failure is returned, never
      whether one is. */
  lemma VerdictPassesIffClean(reports: seq<ReportInfo>, finish: Rc, exhaustive: bool, md5Required: bool)
    ensures KdbccVerdict(reports, finish, exhaustive, md5Required) == Ok <==>
              finish == Ok && forall k :: 0 <= k < |reports| ==> Clean(reports[k], md5Required)
    ensures KdbccVerdict(reports, finish, exhaustive, md5Required) == Ok <==>
              KdbccVerdict(reports, finish, !exhaustive, md5Required) == Ok
  {
    RunPassesIffClean(reports, exhaustive, md5Required);
    RunPassesIffClean(reports, !exhaustive, md5Required);
  }

  /** Outside exhaustive mode the first failure a handler latches also stops
      the check, so the check returns that failure. */
  lemma {:induction false} NonExhaustiveStopsAtFirstFailure(reports: seq<ReportInfo>, md5Required: bool)
    ensures var o := Run(reports, false, md5Required);
            o.stored != Ok ==> o.stop == o.stored
    decreases |reports|
  {
    if reports != [] {
      NonExhaustiveStopsAtFirstFailure(reports[1..], md5Required);
    }
  }

  /** In exhaustive mode only a report no handler expects, or missing
      required md5 files, stops the check. */
  lemma {:induction false} ExhaustiveStopsOnlyOnProtocol(reports: seq<ReportInfo>, md5Required: bool)
    ensures var o := Run(reports, true, md5Required);
            o.stop == Ok || o.stop == Fail(BadEvent) || o.stop == Fail(MissingMd5)
    ensures Run(reports, true, md5Required).stop == Ok <==>
              forall k :: 0 <= k < |reports| && !reports[k].event.Visit? ==>
                Accepted(reports[k].objType, reports[k].event)
                && !MissingMd5Path(reports[k].objType, reports[k].event, md5Required)
    decreases |reports|
  {
    if reports != [] {
      ExhaustiveStopsOnlyOnProtocol(reports[1..], md5Required);
      assert forall k :: 1 <= k < |reports| ==> reports[k] == reports[1..][k - 1];
    }
  }

  /** The failures the handlers offer to the latch, in report order. */
  function Offered(reports: seq<ReportInfo>, md5Required: bool): seq<Rc>
    decreases |reports|
  {
    if reports == [] then []
    else if reports[0].event.Visit? then Offered(reports[1..], md5Required)
    else [Respond(reports[0].objType, reports[0].event, true, md5Required).store]
         + Offered(reports[1..], md5Required)
  }

  /** An exhaustive run that nothing stopped latches the first failure any
      handler found: `ctx->rc` is set only while it is still zero. */
  lemma {:induction false} ExhaustiveLatchesFirstFailure(reports: seq<ReportInfo>, md5Required: bool)
    requires Run(reports, true, md5Required).stop == Ok
    ensures Run(reports, true, md5Required).stored == FirstError(Offered(reports, md5Required))
    decreases |reports|
  {
    if reports != [] {
      ExhaustiveLatchesFirstFailure(reports[1..], md5Required);
      if !reports[0].event.Visit? {
        var c := Respond(reports[0].objType, reports[0].event, true, md5Required).store;
        var rest := Offered(reports[1..], md5Required);
        assert ([c] + rest)[1..] == rest;
      }
    }
  }
}
