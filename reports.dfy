/** The events a consistency check reports to the validator's callback and
    how the four handlers `report_index`, `report_column`, `report_table`
    and `report_database` answer them (tools/vdb-validate/vdb-validate.c:
    112-269, 307-330). */
module Reports {
  import opened RcCodes
  import opened VisitTree
  import opened Aggregate

  /** `CCReportInfoBlock.type` with the part of `info` the validator reads. */
  datatype Event =
    | Visit(depth: nat)
    | Done(code: Rc, mesg: Option<string>)
    | Md5(code: Rc)
    | IndexStep
    | BlobStep

  /** One report: the event, the kind of object it is about and its name. */
  datatype ReportInfo = ReportInfo(event: Event, objType: ObjKind, objName: string)

  /** The message by which a check says an object has no md5 files. */
  const MissingMd5Mesg: string := "missing md5 file"

  /** Whether the handler for objects of `kind` expects `ev`: every handler
      takes Done and MD5 events, the index handler also index steps and the
      column handler also blob steps; objects of any other kind have no
      handler. */
  predicate Accepted(kind: ObjKind, ev: Event) {
    match ev
    case Done(_, _) => !kind.KOtherKind?
    case Md5(_) => !kind.KOtherKind?
    case IndexStep => kind == KIndex
    case BlobStep => kind == KColumn
    case Visit(_) => false
  }

  /** A table or database passed its check but says it has no md5 files,
      and md5 files are required. */
  predicate MissingMd5Path(kind: ObjKind, ev: Event, md5Required: bool) {
    && (kind == KTable || kind == KDatabase)
    && ev.Done? && ev.code == Ok && ev.mesg == Some(MissingMd5Mesg)
    && md5Required
  }

  /** What a handler does: the code it offers to the `ctx->rc` latch, whether
      it counts a checked column, and what it returns to the check. */
  datatype Response = Response(store: Rc, counted: bool, ret: Rc)

  /** The answer of the handler for `kind` to `ev`. */
  function Respond(kind: ObjKind, ev: Event, exhaustive: bool, md5Required: bool): (o: Response)
    // a failure is offered to the latch exactly when an expected Done or
    // MD5 event carries one, and it is that failure
    ensures o.store != Ok ==> Accepted(kind, ev) && (ev.Done? || ev.Md5?) && o.store == ev.code
    ensures Accepted(kind, ev) && (ev.Done? || ev.Md5?) ==> o.store == ev.code
    // only a column that passed is counted
    ensures o.counted <==> kind == KColumn && ev.Done? && ev.code == Ok
    // an unexpected event is refused
    ensures !Accepted(kind, ev) ==> o.ret == Fail(BadEvent)
    // missing required md5 files stop the check even in exhaustive mode
    ensures MissingMd5Path(kind, ev, md5Required) ==> o.ret == Fail(MissingMd5)
    // otherwise the check goes on unless it found a failure outside
    // exhaustive mode
    ensures Accepted(kind, ev) && !MissingMd5Path(kind, ev, md5Required) ==>
              o.ret == (if exhaustive then Ok else o.store)
  {
    match ev
    case Done(code, mesg) =>
      if kind.KOtherKind? then Response(Ok, false, Fail(BadEvent))
      else if MissingMd5Path(kind, ev, md5Required) then Response(Ok, false, Fail(MissingMd5))
      else Response(code, kind == KColumn && code == Ok, ReportRtn(code, exhaustive))
    case Md5(code) =>
      if kind.KOtherKind? then Response(Ok, false, Fail(BadEvent))
      else Response(code, false, ReportRtn(code, exhaustive))
    case IndexStep =>
      Response(Ok, false, if kind == KIndex then Ok else Fail(BadEvent))
    case BlobStep =>
      Response(Ok, false, if kind == KColumn then Ok else Fail(BadEvent))
    case Visit(_) =>
      Response(Ok, false, Fail(BadEvent))
  }

  /** In exhaustive mode a handler stops the check only for an event it
      does not expect or for missing required md5 files; otherwise it stops
      it exactly for the failure it found. */
  lemma StopsOnlyOn(kind: ObjKind, ev: Event, exhaustive: bool, md5Required: bool)
    ensures var o := Respond(kind, ev, exhaustive, md5Required);
            exhaustive && o.ret != Ok ==>
              !Accepted(kind, ev) || MissingMd5Path(kind, ev, md5Required)
    ensures var o := Respond(kind, ev, exhaustive, md5Required);
            !exhaustive && Accepted(kind, ev) ==>
              (o.ret != Ok <==> o.store != Ok || MissingMd5Path(kind, ev, md5Required))
  {
  }
}
