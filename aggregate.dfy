/** How the validator combines return codes: the first-error latch of the
    report handlers and of `dbric_align`, `report_rtn`, and the two
    referential-integrity wrappers `ric_align_seq_and_pri` and
    `ric_align_ref_and_align` (tools/vdb-validate/vdb-validate.c). */
module Aggregate {
  import opened RcCodes
  import opened Ids
  import opened RefIntegrity
  import opened RefIntegrityProps

  /** The first failure of a series of results, or `Ok` if none failed. */
  function FirstError(codes: seq<Rc>): (r: Rc)
    ensures r == Ok <==> forall k :: 0 <= k < |codes| ==> codes[k] == Ok
    ensures r != Ok ==> exists k :: 0 <= k < |codes| && codes[k] == r && Passed(codes[..k])
  {
    if codes == [] then Ok
    else if codes[0] != Ok then (assert Passed(codes[..0]); codes[0])
    else
      var r := FirstError(codes[1..]);
      if r != Ok then
        var k :| 0 <= k < |codes[1..]| && codes[1..][k] == r && Passed(codes[1..][..k]);
        assert codes[..k + 1] == [codes[0]] + codes[1..][..k];
        r
      else r
  }

  /** Every result in `codes` is `Ok`. */
  predicate Passed(codes: seq<Rc>) {
    forall k :: 0 <= k < |codes| ==> codes[k] == Ok
  }

  /** `if (ctx->rc == 0) ctx->rc = code`, `if (rc == 0) rc = rc2`: a stored
      failure is never replaced. */
  function Latch(rc: Rc, code: Rc): Rc {
    if rc == Ok then code else rc
  }

  /** The latch applied to a series of results in order. */
  function LatchAll(rc: Rc, codes: seq<Rc>): Rc
    decreases |codes|
  {
    if codes == [] then rc else LatchAll(Latch(rc, codes[0]), codes[1..])
  }

  /** Latching a series of results keeps the first failure: the stored code
      is the first failure of the series when nothing failed before. */
  lemma {:induction false} LatchAllIsFirstError(rc: Rc, codes: seq<Rc>)
    ensures LatchAll(rc, codes) == (if rc != Ok then rc else FirstError(codes))
    decreases |codes|
  {
    if codes != [] {
      LatchAllIsFirstError(Latch(rc, codes[0]), codes[1..]);
    }
  }

  /** `report_rtn`: in exhaustive mode a handler asks the visit to go on
      whatever it found; otherwise it returns what it found. */
  function ReportRtn(rc: Rc, exhaustive: bool): (r: Rc)
    ensures exhaustive ==> r == Ok
    ensures !exhaustive ==> r == rc
  {
    if exhaustive then Ok else rc
  }

  // ----- the referential-integrity wrappers (lines 1138-1281) -----

  /** The outcome of creating and opening the two cursors and reading the
      row range of the A column: the first failure, or the range and the two
      columns. */
  datatype CursorSetup =
    | SetupFailed(err: Error)
    | Opened(startId: int, count: nat, a: Column, b: Column)

  /** One wrapper call: its cursor set-up and whether the buffer of
      `work_chunk(count)` entries could be allocated. */
  datatype RicJob = RicJob(setup: CursorSetup, buffered: bool)

  /** The wrapper's verdict: a set-up failure is returned; an allocation
      failure or `TooBig` from the check is a warned skip (0); every other
      result of the check is returned as it is. */
  function RicAlignVerdict(job: RicJob): Rc {
    match job.setup
    case SetupFailed(e) => Fail(e)
    case Opened(startId, count, a, b) =>
      if !job.buffered then Ok
      else
        var r := Ric(a, b, startId, count, Halved(count));
        if r == Fail(TooBig) then Ok else r
  }

  /** `ric_align_seq_and_pri` and `ric_align_ref_and_align` once their
      cursors are set up: sizes the chunk, runs the check over the buffers and
      turns `TooBig` into a skip. */
  method RicAlign(job: RicJob) returns (rc: Rc)
    ensures rc == RicAlignVerdict(job)
  {
    match job.setup {
      case SetupFailed(e) =>
        return Fail(e);
      case Opened(startId, count, a, b) =>
        var chunk := WorkChunk(count);
        if !job.buffered {
          return Ok;
        }
        var pair := new IdPair[chunk](_ => IdPair(0, 0));
        var scratch := new int[chunk](_ => 0);
        rc := RicAlignGeneric(startId, count, chunk, pair, scratch, a, b);
        if rc == Fail(TooBig) {
          rc := Ok;
        }
    }
  }

  /** A wrapper never reports `TooBig` from the check; it fails exactly when
      the set-up fails or the check fails otherwise. */
  lemma RicAlignOutcomes(job: RicJob)
    ensures job.setup.Opened? ==> RicAlignVerdict(job) != Fail(TooBig)
    ensures job.setup.SetupFailed? ==> RicAlignVerdict(job) == Fail(job.setup.err)
    ensures job.setup.Opened? && job.buffered ==>
              var s := job.setup;
              var r := Ric(s.a, s.b, s.startId, s.count, Halved(s.count));
              (RicAlignVerdict(job) == Ok <==> r == Ok || r == Fail(TooBig))
  {
  }

  /** A wrapper that passed without skipping vouches for every row of its A
      column: it was read cleanly, and a found one holds one key backed by
      the B column. */
  lemma RicAlignSound(job: RicJob, row: int)
    requires job.setup.Opened? && job.buffered && RicAlignVerdict(job) == Ok
    requires var s := job.setup; Ric(s.a, s.b, s.startId, s.count, Halved(s.count)) != Fail(TooBig)
    requires job.setup.startId <= row < job.setup.startId + job.setup.count
    ensures GoodKeyRow(job.setup.a(row))
    ensures job.setup.a(row).Found? ==>
              Backed(job.setup.b, Halved(job.setup.count), job.setup.a(row).elems[0], row)
  {
    var s := job.setup;
    RicSound(s.a, s.b, s.startId, s.count, Halved(s.count), row);
  }

  // ----- dbric_align (lines 1285-1317) -----

  /** The results of the checks `dbric_align` runs, in order. */
  function DbricResults(hasPri: bool, hasSeq: bool, hasRef: bool, exhaustive: bool,
                        seqPri: Rc, refPri: Rc): seq<Rc>
  {
    var first := if hasPri && hasSeq then [seqPri] else [];
    var second := if hasPri && hasRef && (FirstError(first) == Ok || exhaustive) then [refPri] else [];
    first + second
  }

  /** `dbric_align(pri, seq, ref)` with the tables present as the flags say:
      SEQUENCE against PRIMARY_ALIGNMENT when both exist, then REFERENCE
      against PRIMARY_ALIGNMENT when both exist and nothing failed so far (or
      in exhaustive mode); returns the first failure. */
  method DbricAlign(hasPri: bool, hasSeq: bool, hasRef: bool, exhaustive: bool,
                    seqPriJob: RicJob, refPriJob: RicJob)
    returns (rc: Rc, ranSeqPri: bool, ranRefPri: bool)
    ensures ranSeqPri <==> hasPri && hasSeq
    ensures ranRefPri <==> hasPri && hasRef && (exhaustive || !ranSeqPri || RicAlignVerdict(seqPriJob) == Ok)
    ensures rc == FirstError(DbricResults(hasPri, hasSeq, hasRef, exhaustive,
                                          RicAlignVerdict(seqPriJob), RicAlignVerdict(refPriJob)))
  {
    rc := Ok;
    ranSeqPri, ranRefPri := false, false;
    if (rc == Ok || exhaustive) && hasPri && hasSeq {
      var rc2 := RicAlign(seqPriJob);
      ranSeqPri := true;
      if rc == Ok {
        rc := rc2;
      }
    }
    if (rc == Ok || exhaustive) && hasPri && hasRef {
      var rc2 := RicAlign(refPriJob);
      ranRefPri := true;
      if rc == Ok {
        rc := rc2;
      }
    }
  }

  /** The verdict of `dbric_align` does not depend on the exhaustive flag,
      which only decides whether the second check runs after the first
      failed; it passes iff every check that ran passed. */
  lemma DbricVerdictIgnoresExhaustive(hasPri: bool, hasSeq: bool, hasRef: bool, seqPri: Rc, refPri: Rc)
    ensures FirstError(DbricResults(hasPri, hasSeq, hasRef, true, seqPri, refPri))
         == FirstError(DbricResults(hasPri, hasSeq, hasRef, false, seqPri, refPri))
    ensures FirstError(DbricResults(hasPri, hasSeq, hasRef, false, seqPri, refPri)) == Ok <==>
              (hasPri && hasSeq ==> seqPri == Ok) && (hasPri && hasRef ==> refPri == Ok)
  {
    var first := if hasPri && hasSeq then [seqPri] else [];
    var both := first + (if hasPri && hasRef then [refPri] else []);
    if seqPri != Ok && hasPri && hasSeq {
      assert FirstError(both) == seqPri;
      assert FirstError(first) == seqPri;
    }
  }
}
