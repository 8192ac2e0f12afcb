/** The threaded DAQ (SupixDAQ): the reader thread checks each frame read
    from the FIFO and hands it to the pipeline; the writer thread decodes the
    frame at the pipeline's out slot, computes its CDS against the previous
    frame, triggers, and writes out the pre-trigger frames, the current frame
    and the post-trigger frames.

    The output files become an append-only ghost sequence `sink` of records;
    the FIFO contents, the results of reads, and the file-size test are
    parameters. Each method is one atomic call; the interleaving of the two
    threads around the pipeline is treated in module Pipeline. */
module Daq {
  import opened SupixDefs
  import opened PixelCodec
  import opened Pipeline
  import opened ObjectStack
  import opened DaqConfig
  import opened Integrity
  import opened Waiting

  /** DAQ_MODE_t */
  datatype DaqMode = Normal | NoiseMode | Continuous

  /** What the writer sends to its output files. */
  datatype Record =
    | RawFrame(slot: int)     // write_all of the pipeline slot `slot`
    | TreeEntry(frame: int, trig: int, fid: int, npixs: int,
                pixid: seq<int>, adc: seq<int>, cds: seq<int>)  // m_tree->Fill()
    | NewOutfiles             // new_outfiles(): the files are rotated

  /** ERROR_t, with ENoNew for a writer poll that finds no new frame. */
  datatype Status = EOk | EIntegrity | ELastPix | EIsFull | EEof | ELast1st | ERunStop | ENoNew

  /** One decoded frame: a value per pixel, in row-major order. */
  type Frame = s: seq<int> | |s| == NPIXS witness seq(NPIXS, _ => 0)

  /** A local frame id, m_fid. */
  type Fid = x: int | 0 <= x < FID_MAX

  /** The static fid_last of check_integrity: a frame id, or FID_MAX for
      "no previous frame". */
  type FidLast = x: int | 0 <= x <= FID_MAX

  // ---------------------------------------------------------------------
  // The writer's computations, as functions

  /** The capacity of the decoded-frame stacks: pre_trigs + 1, but at least
      2 so that the previous frame is there for the CDS. */
  function StackDepth(preTrigs: int): (d: int)
    ensures d >= 2 && d >= preTrigs + 1
    ensures preTrigs >= 1 ==> d == preTrigs + 1
  {
    if preTrigs + 1 <= 1 then 2 else preTrigs + 1
  }

  /** The ADC samples of a frame, in row-major order. */
  function FrameAdc(words: seq<Word>): (adc: Frame)
    requires |words| == NPIXS
    ensures forall i :: 0 <= i < NPIXS ==> adc[i] == Decode(words[i]).adc
  {
    seq(NPIXS, i requires 0 <= i < NPIXS => Decode(words[i]).adc)
  }

  /** The CDS of a frame: 0 on a first frame, otherwise the ADC minus the
      previous frame's ADC of the same pixel. */
  function FrameCds(words: seq<Word>, last: Frame, first: bool): (cds: Frame)
    requires |words| == NPIXS
    ensures forall i :: 0 <= i < NPIXS ==> cds[i] == if first then 0 else Decode(words[i]).adc - last[i]
  {
    seq(NPIXS, i requires 0 <= i < NPIXS => if first then 0 else Decode(words[i]).adc - last[i])
  }

  /** The object in slot 1 of a stack right after push(): the old top, or
      whatever slot 1 held if the stack was empty. */
  function AfterPushSecond<T>(buf: seq<T>, depth: int): T
    requires |buf| >= 2
  {
    if depth > 0 then buf[0] else buf[1]
  }

  /** The ids of the pixels among the first n that fire on a negative
      pulse (cds below threshold), in row-major order. The id
      (row << 4) + col of pixel (row, col) is its row-major index. */
  function Fired(cds: seq<int>, thr: seq<real>, n: int): (ids: seq<int>)
    requires 0 <= n <= |cds| && n <= |thr|
    ensures |ids| <= n
  {
    if n == 0 then []
    else Fired(cds, thr, n - 1) + (if (cds[n - 1] as real) < thr[n - 1] then [n - 1] else [])
  }

  /** Fired lists exactly the firing pixels, each once, in increasing
      order. */
  lemma {:induction false} FiredMeaning(cds: seq<int>, thr: seq<real>, n: int)
    requires 0 <= n <= |cds| && n <= |thr|
    ensures forall x :: x in Fired(cds, thr, n) <==> 0 <= x < n && (cds[x] as real) < thr[x]
    ensures forall a, b :: 0 <= a < b < |Fired(cds, thr, n)| ==> Fired(cds, thr, n)[a] < Fired(cds, thr, n)[b]
  {
    if n > 0 {
      FiredMeaning(cds, thr, n - 1);
      var p := Fired(cds, thr, n - 1);
      var q := if (cds[n - 1] as real) < thr[n - 1] then [n - 1] else [];
      assert Fired(cds, thr, n) == p + q;
      forall a, b | 0 <= a < b < |p + q|
        ensures (p + q)[a] < (p + q)[b]
      {
        if b >= |p| {
          assert p[a] in p;
        }
      }
    }
  }

  /** The trigger pattern of triged(): TRIG_PERIOD on every trig_period-th
      frame counting from 1, TRIG_CDS when some pixel fired. */
  function TrigPattern(frame: int, period: int, count: int): (t: int)
    requires period > 0
    ensures 0 <= t <= TRIG_PERIOD + TRIG_CDS
    ensures t != 0 <==> (frame + 1) % period == 0 || count > 0
  {
    (if (frame + 1) % period == 0 then TRIG_PERIOD else 0) + (if count > 0 then TRIG_CDS else 0)
  }

  /** The two bits of the pattern are independent flags. */
  lemma TrigBits(frame: int, period: int, count: int)
    requires period > 0
    ensures var t := TrigPattern(frame, period, count);
      && (t % 2 == 1 <==> (frame + 1) % period == 0)
      && (t / 2 == 1 <==> count > 0)
  {
  }

  /** The write-out mode do_trig hands to next_out. */
  function ModeOf(fires: bool, post: int): OutMode {
    if fires then (if post > 0 then T1P1 else T1P0)
    else if post > 0 then T0P1 else T0P0
  }

  /** The number of frames do_trig writes: the pre-trigger frames and the
      current one on a trigger, the current one inside a post-trigger
      window, none otherwise. */
  function WrittenCount(fires: bool, pre: int, post: int): int {
    if fires then pre + 1 else if post > 0 then 1 else 0
  }

  /** Whether do_trig rotates the output files afterwards. */
  predicate Rotates(continuous: bool, mode: OutMode, postAfter: int, oversize: bool) {
    (continuous || (mode == T0P1 && postAfter <= 0)) && oversize
  }

  /** The records of write_out() for the current frame. */
  function CurrentRecords(raw: bool, root: bool, slot: int, frame: int, trig: int, fid: int,
                          npixs: int, pixid: seq<int>, adc: seq<int>, cds: seq<int>): seq<Record>
  {
    (if raw then [RawFrame(slot)] else []) + (if root then [TreeEntry(frame, trig, fid, npixs, pixid, adc, cds)] else [])
  }

  /** The raw records of write_out(n): the slots get_pre_ptr(0 .. n-1). */
  function RawPre(s: PipeState, n: nat): (r: seq<Record>)
    ensures |r| == n && forall i :: 0 <= i < n ==> r[i] == RawFrame(PreSlot(s, i))
  {
    seq(n, i requires 0 <= i < n => RawFrame(PreSlot(s, i)))
  }

  /** The frame id k frames before one with id fid. */
  function FidBack(fid: int, k: int): int {
    (fid - k) % FID_MAX
  }

  /** Stepping forward one frame from k frames back. */
  lemma FidForward(fid: int, k: int, f: int)
    requires f == FidBack(fid, k)
    ensures (f + 1) % FID_MAX == FidBack(fid, k - 1)
  {
    ModAddOne(fid - k, FID_MAX);
  }

  /** The tree records of write_out(n): labelled with the n frame numbers
      and frame ids before the current ones and TRIG_PRE, holding the n
      deepest stack entries, deepest first. */
  function TreePre(frame: int, fid: int, npixs: int, pixid: seq<int>,
                   adcs: seq<Frame>, cdss: seq<Frame>, n: nat): (r: seq<Record>)
    requires n <= |adcs| && n <= |cdss|
    ensures |r| == n
  {
    seq(n, j requires 0 <= j < n =>
      TreeEntry(frame - n + j, TRIG_PRE, FidBack(fid, n - j), npixs, pixid,
                adcs[|adcs| - 1 - j], cdss[|cdss| - 1 - j]))
  }

  /** Stacks filled one frame at a time: entry j holds the data h[f - j]
      of the frame j before frame f. */
  ghost predicate History(c: seq<Frame>, h: seq<Frame>, f: int) {
    |c| <= f + 1 && f < |h| && forall j :: 0 <= j < |c| ==> c[j] == h[f - j]
  }

  /** As written, the replay of write_out(n) over stacks of depth d holds
      the data of frames f - d + 1 .. f - d + n, whatever the labels say:
      the n deepest entries, not the n just below the current frame. */
  lemma TreePreAsWritten(frame: int, fid: int, npixs: int, pixid: seq<int>,
                         adcs: seq<Frame>, cdss: seq<Frame>, h: seq<Frame>, n: nat)
    requires n < |adcs| && |adcs| == |cdss| && History(adcs, h, frame) && History(cdss, h, frame)
    ensures forall j :: 0 <= j < n ==>
      && TreePre(frame, fid, npixs, pixid, adcs, cdss, n)[j].frame == frame - n + j
      && TreePre(frame, fid, npixs, pixid, adcs, cdss, n)[j].adc == h[frame - |adcs| + 1 + j]
      && TreePre(frame, fid, npixs, pixid, adcs, cdss, n)[j].cds == h[frame - |adcs| + 1 + j]
  {
    var r := TreePre(frame, fid, npixs, pixid, adcs, cdss, n);
    forall j | 0 <= j < n
      ensures r[j].adc == h[frame - |adcs| + 1 + j] && r[j].cds == h[frame - |adcs| + 1 + j]
    {
      assert frame - (|adcs| - 1 - j) == frame - |adcs| + 1 + j;
    }
  }

  /** Frames whose every pixel holds the value k. */
  function Flat(k: int): Frame {
    seq(NPIXS, _ => k)
  }

  /** A stack of depth 4 with one pre-trigger frame (pre_trigs = 3, a
      trigger two frames after the end of a post-trigger window): the
      entry labelled frame 3 holds the data of frame 1. */
  lemma ReplayMislabels()
    ensures var h := [Flat(0), Flat(1), Flat(2), Flat(3), Flat(4)];
      var c := [Flat(4), Flat(3), Flat(2), Flat(1)];
      var r := TreePre(4, 4, 0, [], c, c, 1)[0];
      && History(c, h, 4)
      && r.frame == 3 && r.adc == h[1] && r.adc != h[3]
  {
    var h := [Flat(0), Flat(1), Flat(2), Flat(3), Flat(4)];
    var c := [Flat(4), Flat(3), Flat(2), Flat(1)];
    assert Flat(1)[0] != Flat(3)[0];
    assert forall j :: 0 <= j < |c| ==> c[j] == h[4 - j];
  }

  /** The evidently intended replay: the n frames just below the current
      one, oldest first. */
  function TreePreFixed(frame: int, fid: int, npixs: int, pixid: seq<int>,
                        adcs: seq<Frame>, cdss: seq<Frame>, n: nat): (r: seq<Record>)
    requires n < |adcs| && n < |cdss|
    ensures |r| == n
    ensures forall j :: 0 <= j < n ==>
      r[j] == TreeEntry(frame - n + j, TRIG_PRE, FidBack(fid, n - j), npixs, pixid, adcs[n - j], cdss[n - j])
  {
    seq(n, j requires 0 <= j < n =>
      TreeEntry(frame - n + j, TRIG_PRE, FidBack(fid, n - j), npixs, pixid, adcs[n - j], cdss[n - j]))
  }

  /** With the intended replay every entry holds the data of the frame its
      label names, and the replay as written agrees with it exactly when
      the stacks are pre + 1 deep. */
  lemma TreePreFixedMatches(frame: int, fid: int, npixs: int, pixid: seq<int>,
                            adcs: seq<Frame>, cdss: seq<Frame>, h: seq<Frame>, n: nat)
    requires n < |adcs| && |adcs| == |cdss| && History(adcs, h, frame) && History(cdss, h, frame)
    ensures forall j :: 0 <= j < n ==>
      && 0 <= TreePreFixed(frame, fid, npixs, pixid, adcs, cdss, n)[j].frame < |h|
      && TreePreFixed(frame, fid, npixs, pixid, adcs, cdss, n)[j].adc
           == h[TreePreFixed(frame, fid, npixs, pixid, adcs, cdss, n)[j].frame]
      && TreePreFixed(frame, fid, npixs, pixid, adcs, cdss, n)[j].cds
           == h[TreePreFixed(frame, fid, npixs, pixid, adcs, cdss, n)[j].frame]
    ensures |adcs| == n + 1 ==>
      TreePreFixed(frame, fid, npixs, pixid, adcs, cdss, n) == TreePre(frame, fid, npixs, pixid, adcs, cdss, n)
  {
    var p := TreePreFixed(frame, fid, npixs, pixid, adcs, cdss, n);
    forall j | 0 <= j < n
      ensures p[j].adc == h[frame - n + j] && p[j].cds == h[frame - n + j]
    {
      assert frame - (n - j) == frame - n + j;
    }
    if |adcs| == n + 1 {
      var r, q := TreePreFixed(frame, fid, npixs, pixid, adcs, cdss, n), TreePre(frame, fid, npixs, pixid, adcs, cdss, n);
      assert forall j :: 0 <= j < n ==> r[j] == q[j];
    }
  }

  /** The tree records of write_out(n) come one replayed entry at a time. */
  lemma TreePreNext(frame: int, fid: int, npixs: int, pixid: seq<int>,
                    adcs: seq<Frame>, cdss: seq<Frame>, n: nat, i: nat)
    requires i < n <= |adcs| && n <= |cdss|
    ensures TreePre(frame, fid, npixs, pixid, adcs, cdss, n)[..i + 1]
         == TreePre(frame, fid, npixs, pixid, adcs, cdss, n)[..i]
          + [TreeEntry(frame - n + i, TRIG_PRE, FidBack(fid, n - i), npixs, pixid,
                       adcs[|adcs| - 1 - i], cdss[|cdss| - 1 - i])]
  {
    var r := TreePre(frame, fid, npixs, pixid, adcs, cdss, n);
    assert r[..i + 1] == r[..i] + [r[i]];
  }

  /** The records of write_out(n): the raw slots, then the replayed tree
      entries. */
  function PreRecords(raw: bool, root: bool, s: PipeState, frame: int, fid: int, npixs: int,
                      pixid: seq<int>, adcs: seq<Frame>, cdss: seq<Frame>, n: nat): seq<Record>
    requires n <= |adcs| && n <= |cdss|
  {
    (if raw then RawPre(s, n) else []) + (if root then TreePre(frame, fid, npixs, pixid, adcs, cdss, n) else [])
  }

  /** The records do_trig writes for the current frame, before a possible
      rotation: on a trigger the pre-trigger frames (none when there are
      none) and the current one, inside a post-trigger window the current
      one, otherwise nothing. */
  function TrigRecords(fires: bool, post: int, preRecs: seq<Record>, cur: seq<Record>): seq<Record> {
    if fires then preRecs + cur
    else if post > 0 then cur else []
  }

  /** The write-out modes do_trig chooses keep the pre-trigger count at 0
      while a post-trigger window is open. */
  lemma WindowKept(s: PipeState, m: OutMode)
    requires s.post > 0 ==> s.pre == 0
    requires (m == T0P0 ==> s.post == 0) && (m == T0P1 ==> s.post > 0) && m != Noise
    ensures AfterNextOut(s, m).post > 0 ==> AfterNextOut(s, m).pre == 0
  {
  }

  /** The answer of reader_run() for a frame read into a pipeline that
      is not full: a frame failing the integrity check is discarded, a
      first frame waits (in vain, for the reader alone) while the last
      marker is unprocessed, and any other frame is saved. */
  function SaveOutcome(words: seq<Word>, fidLast: int, s: PipeState, status: RunStatus): Status
    requires |words| == NPIXS && 0 <= fidLast <= FID_MAX
  {
    if !CleanFrame(words, fidLast) then EIntegrity
    else if NextInWaits(s, status == RunFirst) then ELast1st
    else EOk
  }

  /** The rewind of m_fid by n frames in write_out(n) is a subtraction
      modulo FID_MAX. */
  lemma FidRewind(fid: int, n: int)
    requires 0 <= fid < FID_MAX && 0 <= n
    ensures (if fid >= n % FID_MAX then fid - n % FID_MAX else FID_MAX + fid - n % FID_MAX) == (fid - n) % FID_MAX
  {
    var nx := n % FID_MAX;
    assert n == (n / FID_MAX) * FID_MAX + nx;
    if fid >= nx {
      DivMod(fid - n, FID_MAX, -(n / FID_MAX), fid - nx);
    } else {
      DivMod(fid - n, FID_MAX, -(n / FID_MAX) - 1, FID_MAX + fid - nx);
    }
  }

  /** The pixel loop of decode_frame(): the ADC and CDS of every pixel in
      row-major order, and the frame id of pixel (0, 0). */
  method DecodePixels(words: seq<Word>, last: Frame, first: bool)
    returns (adc: Frame, cds: Frame, f: Fid)
    requires |words| == NPIXS
    ensures adc == FrameAdc(words) && cds == FrameCds(words, last, first)
    ensures f == Decode(words[0]).fid
  {
    var a: seq<int>, c: seq<int> := [], [];
    f := 0;
    var ir := 0;
    while ir < NROWS
      invariant 0 <= ir <= NROWS
      invariant a == FrameAdc(words)[..ir * NCOLS]
      invariant c == FrameCds(words, last, first)[..ir * NCOLS]
      invariant ir > 0 ==> f == Decode(words[0]).fid
    {
      var ic := 0;
      while ic < NCOLS
        invariant 0 <= ic <= NCOLS
        invariant a == FrameAdc(words)[..ir * NCOLS + ic]
        invariant c == FrameCds(words, last, first)[..ir * NCOLS + ic]
        invariant ir * NCOLS + ic > 0 ==> f == Decode(words[0]).fid
      {
        var p := Decode(words[ir * NCOLS + ic]);
        if ir == 0 && ic == 0 {
          f := p.fid;
        }
        c := c + [if first then 0 else p.adc - last[ir * NCOLS + ic]];
        a := a + [p.adc];
        ic := ic + 1;
      }
      ir := ir + 1;
    }
    assert a == FrameAdc(words);
    assert c == FrameCds(words, last, first);
    adc, cds := a, c;
  }

  /** The pixel loop of trig_cds(): the ids (row << 4) + col of the firing
      pixels go to ids[0 .. count); the entries past the count keep their
      old values. */
  method CollectFired(cds: seq<int>, thr: seq<real>, ids: array<int>) returns (count: int)
    requires |cds| == NPIXS && |thr| == NPIXS && ids.Length == NPIXS
    modifies ids
    ensures count == |Fired(cds, thr, NPIXS)| && 0 <= count <= NPIXS
    ensures ids[..count] == Fired(cds, thr, NPIXS)
    ensures ids[count..] == old(ids[..])[count..]
  {
    count := 0;
    var ir := 0;
    while ir < NROWS
      invariant 0 <= ir <= NROWS
      invariant count == |Fired(cds, thr, ir * NCOLS)|
      invariant ids[..count] == Fired(cds, thr, ir * NCOLS)
      invariant ids[count..] == old(ids[..])[count..]
    {
      var ic := 0;
      while ic < NCOLS
        invariant 0 <= ic <= NCOLS
        invariant count == |Fired(cds, thr, ir * NCOLS + ic)|
        invariant ids[..count] == Fired(cds, thr, ir * NCOLS + ic)
        invariant ids[count..] == old(ids[..])[count..]
      {
        var i := ir * NCOLS + ic;
        assert Fired(cds, thr, i + 1) == Fired(cds, thr, i) + (if (cds[i] as real) < thr[i] then [i] else []);
        if (cds[i] as real) < thr[i] {   // a negative pulse
          ghost var before := ids[..];
          ids[count] := ir * 0x10 + ic;  // (ir << NBITS_COL) + ic
          assert ids[count + 1..] == before[count + 1..];
          assert ids[..count + 1] == ids[..count] + [i];
          count := count + 1;
        }
        ic := ic + 1;
      }
      ir := ir + 1;
    }
  }

  // ---------------------------------------------------------------------
  // The object

  class SupixDaq {
    const pipe: Pipe
    const waiter: Waiter
    const adcStack: OStack<Frame>   // m_pre_adc; its top is m_pixel_adc
    const cdsStack: OStack<Frame>   // m_pre_cds; its top is m_pixel_cds
    const pixid: array<int>         // m_pixid
    const threshold: seq<real>      // m_threshold, one per pixel
    const trigPeriod: int
    const daqMode: DaqMode
    const writeRaw: bool
    const writeRoot: bool
    const maxframe: int             // 0 = no limit
    ghost const timeout0: int       // m_timeout when the run starts

    var frame: int        // m_frame, the global frame number
    var trig: int         // m_trig
    var fid: Fid          // m_fid, the local frame id
    var npixs: int        // m_npixs
    var frame1st: bool    // m_frame_1st
    var wrMode: OutMode   // m_wr_mode
    var fidLast: FidLast  // the static fid_last of check_integrity
    var runStatus: RunStatus
    var ntrigs: int
    var ntrigsPeriod: int
    var ntrigsCds: int
    var nrecords: int
    var nprocs: int
    var nreads: int
    var nsaved: int
    ghost var sink: seq<Record>

    /** The two stacks move together. */
    ghost predicate StacksOk()
      reads adcStack, cdsStack
    {
      && adcStack != cdsStack && adcStack.buf != cdsStack.buf
      && adcStack.Valid() && cdsStack.Valid()
      && adcStack.depthMax == cdsStack.depthMax && adcStack.depth == cdsStack.depth
    }

    /** The pipeline keeps its invariant, no pre-trigger frames are counted
        while a post-trigger window is open, and the waiting statics are in
        range. */
    ghost predicate PipeOk()
      reads pipe, waiter
    {
      && pipe.Valid() && Inv(pipe.State()) && MarkerInv(pipe.State())
      && (pipe.post > 0 ==> pipe.pre == 0)
      && pixid.Length == NPIXS && |threshold| == NPIXS && trigPeriod > 0
      && WaitOk(waiter.State(), timeout0)
    }

    /** What holds inside a writer step: the stacks agree and are as deep
        as the pre-trigger count needs, and the pipeline is sound. */
    ghost predicate Core()
      reads pipe, waiter, adcStack, cdsStack
    {
      StacksOk() && PipeOk() && adcStack.depthMax == StackDepth(pipe.preMax)
    }

    /** What holds between calls: in addition, the stacks hold at least
        `pre` frames, so that after the next push the replay never reaches
        the current frame. */
    ghost predicate Valid()
      reads pipe, waiter, adcStack, cdsStack
    {
      Core() && pipe.pre <= adcStack.depth
    }

    /** SupixDAQ() followed by initialize(): a run without CDS trigger
        factor or with a period of at most 1 is continuous, which disables
        pre- and post-trigger frames. `pipelineMax` is m_pipeline_max
        (10000 unless set_pipeline_max changes it); the pipeline raises a
        capacity not above the pre-trigger count. The uninitialised stack
        buffers are taken to hold zero frames. */
    constructor (mode: DaqMode, preTrigs: int, postTrigs: int, period: int, trigCdsX: real,
                 thr: seq<real>, raw: bool, root: bool, maxFrames: int,
                 timewait: int, timeout: int, pipelineMax: int)
      requires preTrigs >= 0 && postTrigs >= 0 && period > 0 && |thr| == NPIXS
      requires timewait >= 1 && timeout >= 0
      ensures Valid()
      ensures daqMode == (if trigCdsX < 1.0 || period <= 1 then Continuous else mode)
      ensures pipe.State() == Initial(pipelineMax,
                                      if daqMode == Continuous then 0 else preTrigs,
                                      if daqMode == Continuous then 0 else postTrigs)
      ensures adcStack.depthMax == StackDepth(pipe.preMax) && adcStack.depth == 0
      ensures frame == 0 && trig == 0 && fid == 0 && npixs == 0 && frame1st && wrMode == T0P0
      ensures fidLast == FID_MAX && runStatus == RunFirst
      ensures ntrigs == ntrigsPeriod == ntrigsCds == nrecords == nprocs == nreads == nsaved == 0
      ensures sink == []
    {
      var m := if trigCdsX < 1.0 || period <= 1 then Continuous else mode;
      var pre := if m == Continuous then 0 else preTrigs;
      var post := if m == Continuous then 0 else postTrigs;
      daqMode := m;
      threshold := thr;
      trigPeriod := period;
      writeRaw, writeRoot := raw, root;
      maxframe := maxFrames;
      timeout0 := timeout;
      pipe := new Pipe(pipelineMax, pre, post);
      waiter := new Waiter(timewait, timeout);
      var zero: Frame := seq(NPIXS, _ => 0);
      adcStack := new OStack(StackDepth(pre), zero);
      cdsStack := new OStack(StackDepth(pre), zero);
      pixid := new int[NPIXS];
      frame, trig, fid, npixs := 0, 0, 0, 0;
      frame1st, wrMode, fidLast, runStatus := true, T0P0, FID_MAX, RunFirst;
      ntrigs, ntrigsPeriod, ntrigsCds, nrecords, nprocs, nreads, nsaved := 0, 0, 0, 0, 0, 0, 0;
      sink := [];
      new;
      InitialWaiting(timewait, timeout);
    }

    /** alt_run_status(x) */
    method AltRunStatus(x: RunStatus)
      modifies this`runStatus
      ensures runStatus == x
    {
      runStatus := x;
    }

    /** is_run_stop() */
    method IsRunStop() returns (yes: bool)
      ensures yes <==> runStatus == RunStop
    {
      yes := runStatus == RunStop;
    }

    // -------------------------------------------------------------------
    // Writer

    /** The two push() calls of decode_frame(). */
    method PushBoth()
      requires Valid()
      modifies adcStack, adcStack.buf, cdsStack, cdsStack.buf
      ensures Core()
      ensures adcStack.depth == if old(adcStack.depth) == adcStack.depthMax then old(adcStack.depth) else old(adcStack.depth) + 1
      ensures pipe.pre < adcStack.depth
      ensures adcStack.Contents() == [old(adcStack.buf[0])] + old(adcStack.Contents())[..adcStack.depth - 1]
      ensures cdsStack.Contents() == [old(cdsStack.buf[0])] + old(cdsStack.Contents())[..cdsStack.depth - 1]
      ensures adcStack.buf[1] == AfterPushSecond(old(adcStack.buf[..]), old(adcStack.depth))
    {
      var _ := adcStack.Push();
      var _ := cdsStack.Push();
    }

    /** The writes through get_top() of decode_frame(). */
    method SetTops(adc: Frame, cds: Frame)
      requires Core() && adcStack.depth > 0
      modifies adcStack.buf, cdsStack.buf
      ensures Core()
      ensures adcStack.Contents() == [adc] + old(adcStack.Contents())[1..]
      ensures cdsStack.Contents() == [cds] + old(cdsStack.Contents())[1..]
    {
      adcStack.SetTop(adc);
      cdsStack.SetTop(cds);
    }

    /** decode_frame(): push both stacks, then decode the frame at the out
        slot pixel by pixel into the new tops, with the frame id of pixel
        (0, 0) as m_fid. */
    method DecodeFrame(words: seq<Word>)
      requires Valid() && |words| == NPIXS
      modifies this`fid, adcStack, adcStack.buf, cdsStack, cdsStack.buf
      ensures Core()
      ensures adcStack.depth == if old(adcStack.depth) == adcStack.depthMax then old(adcStack.depth) else old(adcStack.depth) + 1
      ensures pipe.pre < adcStack.depth
      ensures adcStack.Contents() == [FrameAdc(words)] + old(adcStack.Contents())[..adcStack.depth - 1]
      ensures cdsStack.Contents() ==
        [FrameCds(words, AfterPushSecond(old(adcStack.buf[..]), old(adcStack.depth)), frame1st)]
        + old(cdsStack.Contents())[..cdsStack.depth - 1]
      ensures fid == Decode(words[0]).fid
    {
      PushBoth();
      var last := adcStack.Get(1);   // m_pixel_last: slot 1 of the ADC stack
      var adc, cds, f := DecodePixels(words, last, frame1st);
      fid := f;
      SetTops(adc, cds);
    }

    /** trig_cds(): collect the ids of the pixels whose CDS is below their
        threshold into pixid[0 .. count); m_npixs is set to the count even
        when it is 0, and the entries past the count keep their old ids. */
    method TrigCds() returns (count: int)
      requires Core() && adcStack.depth > 0
      modifies this`npixs, pixid
      ensures count == |Fired(cdsStack.buf[0], threshold, NPIXS)| && 0 <= count <= NPIXS
      ensures pixid[..count] == Fired(cdsStack.buf[0], threshold, NPIXS)
      ensures pixid[count..] == old(pixid[..])[count..]
      ensures npixs == count
    {
      var cds := cdsStack.Get(0);   // m_pixel_cds: the top of the CDS stack
      count := CollectFired(cds, threshold, pixid);
      npixs := count;
    }

    /** triged(): the trigger pattern of the current frame, with the run
        counters of periodic, CDS and all triggers. */
    method Triged() returns (t: int)
      requires Core() && adcStack.depth > 0
      modifies this`trig, this`npixs, this`ntrigsPeriod, this`ntrigsCds, this`ntrigs, pixid
      ensures var count := |Fired(cdsStack.buf[0], threshold, NPIXS)|;
        && t == trig == TrigPattern(frame, trigPeriod, count)
        && npixs == count
        && pixid[..count] == Fired(cdsStack.buf[0], threshold, NPIXS)
        && pixid[count..] == old(pixid[..])[count..]
        && ntrigsPeriod == old(ntrigsPeriod) + (if (frame + 1) % trigPeriod == 0 then 1 else 0)
        && ntrigsCds == old(ntrigsCds) + (if count > 0 then 1 else 0)
        && ntrigs == old(ntrigs) + (if t != 0 then 1 else 0)
    {
      trig := 0;
      if (frame + 1) % trigPeriod == 0 {
        trig := trig + TRIG_PERIOD;   // m_trig |= TRIG_PERIOD, on 0
        ntrigsPeriod := ntrigsPeriod + 1;
      }
      var n := TrigCds();
      if n > 0 {
        trig := trig + TRIG_CDS;      // the bit is still clear
        ntrigsCds := ntrigsCds + 1;
      }
      if trig != 0 {
        ntrigs := ntrigs + 1;
      }
      t := trig;
    }

    /** write_out(): the current frame, as the raw slot at `out` and as a
        tree entry of the current members. */
    method WriteOut()
      requires Core() && adcStack.depth > 0
      modifies this`sink
      ensures sink == old(sink) + CurrentRecords(writeRaw, writeRoot, pipe.outPos, frame, trig, fid,
                                                 npixs, pixid[..], adcStack.buf[0], cdsStack.buf[0])
    {
      if writeRaw {
        var slot := pipe.GetOutPtr();
        sink := sink + [RawFrame(slot)];
      }
      if writeRoot {
        sink := sink + [TreeEntry(frame, trig, fid, npixs, pixid[..], adcStack.buf[0], cdsStack.buf[0])];
      }
    }

    /** The raw half of write_out(n): the slots get_pre_ptr(0 .. n-1). */
    method WriteRawPre(n: int)
      requires Core() && 0 <= n <= pipe.pre
      modifies this`sink
      ensures sink == old(sink) + RawPre(pipe.State(), n)
    {
      var i := 0;
      while i < n
        invariant 0 <= i <= n
        invariant sink == old(sink) + RawPre(pipe.State(), i)
      {
        var slot := pipe.GetPrePtr(i);
        sink := sink + [RawFrame(slot)];
        i := i + 1;
      }
    }

    /** The two bubble() calls of write_out(n), with k of the deepest
        entries of stacks that held a and c already replayed: the next
        deepest entries come to the tops. */
    method BubbleBoth(ghost a: seq<Frame>, ghost c: seq<Frame>, ghost k: nat)
      requires Core() && k < |a| && |a| == |c|
      requires adcStack.Contents() == a[..|a| - k] && cdsStack.Contents() == c[..|c| - k]
      modifies adcStack.buf, cdsStack.buf
      ensures Core() && adcStack.depth == old(adcStack.depth)
      ensures adcStack.Contents() == [a[|a| - 1 - k]] + a[..|a| - 1 - k]
      ensures cdsStack.Contents() == [c[|c| - 1 - k]] + c[..|c| - 1 - k]
    {
      BubbleDeepest(a, k);
      BubbleDeepest(c, k);
      var _ := adcStack.Bubble();
      var _ := cdsStack.Bubble();
    }

    /** The two pop() calls of write_out(n). */
    method PopBoth()
      requires Core() && adcStack.depth > 0
      modifies adcStack, adcStack.buf, cdsStack, cdsStack.buf
      ensures Core() && adcStack.depth == old(adcStack.depth) - 1
      ensures adcStack.Contents() == old(adcStack.Contents())[1..]
      ensures cdsStack.Contents() == old(cdsStack.Contents())[1..]
    {
      var _ := adcStack.Pop();
      var _ := cdsStack.Pop();
    }

    /** One replay step of write_out(n): bubble both stacks, fill a tree
        entry from the new tops, which are the next deepest entries, and
        pop both stacks. */
    method ReplayOne(ghost a: seq<Frame>, ghost c: seq<Frame>, ghost k: nat)
      requires Core() && k < |a| && |a| == |c|
      requires adcStack.Contents() == a[..|a| - k] && cdsStack.Contents() == c[..|c| - k]
      modifies this`sink, adcStack, adcStack.buf, cdsStack, cdsStack.buf
      ensures Core() && adcStack.depth == old(adcStack.depth) - 1
      ensures sink == old(sink) + [TreeEntry(frame, trig, fid, npixs, pixid[..], a[|a| - 1 - k], c[|c| - 1 - k])]
      ensures adcStack.Contents() == a[..|a| - 1 - k] && cdsStack.Contents() == c[..|c| - 1 - k]
    {
      BubbleBoth(a, c, k);
      assert adcStack.buf[0] == adcStack.Contents()[0] && cdsStack.buf[0] == cdsStack.Contents()[0];
      sink := sink + [TreeEntry(frame, trig, fid, npixs, pixid[..], adcStack.buf[0], cdsStack.buf[0])];
      ghost var sink1 := sink;
      PopBoth();
      assert sink == sink1;
    }

    /** One pass of the loop of write_out(n), from i to i + 1 replayed
        entries of stacks that held a0 and c0, for a current frame f0 with
        frame id fid0. */
    method ReplayStep(ghost a0: seq<Frame>, ghost c0: seq<Frame>, ghost f0: int, ghost fid0: int,
                      ghost n: nat, ghost i: nat, ghost sink0: seq<Record>)
      requires Core() && i < n <= |a0| == |c0| && adcStack.depth == |a0| - i
      requires adcStack.Contents() == a0[..|a0| - i] && cdsStack.Contents() == c0[..|c0| - i]
      requires frame == f0 - n + i && fid == FidBack(fid0, n - i) && trig == TRIG_PRE
      requires sink == sink0 + TreePre(f0, fid0, npixs, pixid[..], a0, c0, n)[..i]
      modifies this`frame, this`fid, this`sink, adcStack, adcStack.buf, cdsStack, cdsStack.buf
      ensures Core() && adcStack.depth == |a0| - (i + 1)
      ensures adcStack.Contents() == a0[..|a0| - (i + 1)] && cdsStack.Contents() == c0[..|c0| - (i + 1)]
      ensures frame == f0 - n + (i + 1) && fid == FidBack(fid0, n - (i + 1)) && trig == TRIG_PRE
      ensures sink == sink0 + TreePre(f0, fid0, npixs, pixid[..], a0, c0, n)[..i + 1]
    {
      TreePreNext(f0, fid0, npixs, pixid[..], a0, c0, n, i);
      ReplayOne(a0, c0, i);
      frame := frame + 1;
      FidForward(fid0, n - i, fid);
      fid := (fid + 1) % FID_MAX;
    }

    /** The loop of write_out(n): n replay passes over stacks that held a0
        and c0, starting at the labels n frames before frame f0 with frame
        id fid0. */
    method ReplayLoop(n: int, ghost a0: seq<Frame>, ghost c0: seq<Frame>, ghost f0: int, ghost fid0: int)
      requires Core() && 0 <= n <= |a0| == |c0| && adcStack.depth == |a0|
      requires adcStack.Contents() == a0 && cdsStack.Contents() == c0
      requires frame == f0 - n && fid == FidBack(fid0, n) && trig == TRIG_PRE
      modifies this`frame, this`fid, this`sink, adcStack, adcStack.buf, cdsStack, cdsStack.buf
      ensures Core() && adcStack.depth == |a0| - n
      ensures adcStack.Contents() == a0[..|a0| - n] && cdsStack.Contents() == c0[..|c0| - n]
      ensures frame == f0 && fid == FidBack(fid0, 0) && trig == TRIG_PRE
      ensures sink == old(sink) + TreePre(f0, fid0, npixs, pixid[..], a0, c0, n)
    {
      ghost var sink0 := sink;
      assert a0[..|a0| - 0] == a0 && c0[..|c0| - 0] == c0;
      var i := 0;
      while i < n
        invariant 0 <= i <= n
        invariant Core() && adcStack.depth == |a0| - i
        invariant adcStack.Contents() == a0[..|a0| - i] && cdsStack.Contents() == c0[..|c0| - i]
        invariant frame == f0 - n + i && fid == FidBack(fid0, n - i) && trig == TRIG_PRE
        invariant sink == sink0 + TreePre(f0, fid0, npixs, pixid[..], a0, c0, n)[..i]
      {
        ReplayStep(a0, c0, f0, fid0, n, i, sink0);
        i := i + 1;
      }
      assert TreePre(f0, fid0, npixs, pixid[..], a0, c0, n)[..n] == TreePre(f0, fid0, npixs, pixid[..], a0, c0, n);
    }

    /** The tree half of write_out(n): n entries replayed from the stacks by
        bubble, fill and pop, labelled with the n preceding frame numbers
        and frame ids and TRIG_PRE; the replay leaves the entries above the
        n deepest ones. The frame number, frame id and trigger pattern are
        restored. */
    method ReplayPre(n: int)
      requires Core() && 0 <= n < adcStack.depth
      modifies this`frame, this`fid, this`trig, this`sink, adcStack, adcStack.buf, cdsStack, cdsStack.buf
      ensures Core()
      ensures frame == old(frame) && fid == old(fid) && trig == old(trig)
      ensures sink == old(sink) + TreePre(frame, fid, npixs, pixid[..], old(adcStack.Contents()), old(cdsStack.Contents()), n)
      ensures adcStack.depth == old(adcStack.depth) - n
      ensures adcStack.Contents() == old(adcStack.Contents())[..adcStack.depth]
      ensures cdsStack.Contents() == old(cdsStack.Contents())[..cdsStack.depth]
    {
      var trigSave := trig;
      trig := TRIG_PRE;   // a pseudo-trigger marking the replay
      frame := frame - n;
      var nx := n % FID_MAX;
      FidRewind(fid, n);
      ghost var fid0 := fid;
      fid := if fid >= nx then fid - nx else FID_MAX + fid - nx;
      ReplayLoop(n, adcStack.Contents(), cdsStack.Contents(), frame + n, fid0);
      ModSmall(fid0, FID_MAX);
      trig := trigSave;
    }

    /** write_out(n): the raw slots of the n pre-trigger frames, then the
        replayed tree entries. */
    method WriteOutPre(n: int)
      requires Core() && 0 <= n <= pipe.pre && n < adcStack.depth
      modifies this`frame, this`fid, this`trig, this`sink, adcStack, adcStack.buf, cdsStack, cdsStack.buf
      ensures Core()
      ensures frame == old(frame) && fid == old(fid) && trig == old(trig)
      ensures sink == old(sink) + PreRecords(writeRaw, writeRoot, pipe.State(), frame, fid, npixs, pixid[..],
                                             old(adcStack.Contents()), old(cdsStack.Contents()), n)
      ensures adcStack.depth == if writeRoot then old(adcStack.depth) - n else old(adcStack.depth)
      ensures adcStack.Contents() == old(adcStack.Contents())[..adcStack.depth]
      ensures cdsStack.Contents() == old(cdsStack.Contents())[..cdsStack.depth]
    {
      ghost var a0, c0 := adcStack.Contents(), cdsStack.Contents();
      if writeRaw {
        WriteRawPre(n);
      }
      if writeRoot {
        ReplayPre(n);
      }
      AppendAssoc(old(sink), if writeRaw then RawPre(pipe.State(), n) else [],
                  if writeRoot then TreePre(frame, fid, npixs, pixid[..], a0, c0, n) else []);
    }

    /** The trigger branch of do_trig(): write out the pre-trigger frames
        when there are any and the current frame, and choose T1P1 inside a
        post-trigger window, T1P0 otherwise. */
    method WriteTriggered() returns (nWr: int)
      requires Core() && pipe.pre < adcStack.depth
      modifies this`frame, this`fid, this`trig, this`sink, this`wrMode, adcStack, adcStack.buf, cdsStack, cdsStack.buf
      ensures Core()
      ensures frame == old(frame) && fid == old(fid) && trig == old(trig)
      ensures nWr == WrittenCount(true, pipe.pre, pipe.post) && wrMode == ModeOf(true, pipe.post)
      ensures sink == old(sink)
        + PreRecords(writeRaw, writeRoot, pipe.State(), frame, fid, npixs, pixid[..],
                     old(adcStack.Contents()), old(cdsStack.Contents()), pipe.pre)
        + CurrentRecords(writeRaw, writeRoot, pipe.outPos, frame, trig, fid, npixs, pixid[..],
                         old(adcStack.buf[0]), old(cdsStack.buf[0]))
      ensures adcStack.depth == old(adcStack.depth) - (if writeRoot then pipe.pre else 0)
      ensures adcStack.Contents() == old(adcStack.Contents())[..adcStack.depth]
      ensures cdsStack.Contents() == old(cdsStack.Contents())[..cdsStack.depth]
    {
      nWr := WritePre();
      WriteOut();
      nWr := nWr + 1;
      var post := pipe.IsPost();
      if post {
        wrMode := T1P1;
      } else {
        wrMode := T1P0;
      }
    }

    /** The pre-trigger part of the trigger branch: write_out(pre) when
        pipe.pre frames precede the current one; the tops of the stacks
        stay. */
    method WritePre() returns (nWr: int)
      requires Core() && pipe.pre < adcStack.depth
      modifies this`frame, this`fid, this`trig, this`sink, adcStack, adcStack.buf, cdsStack, cdsStack.buf
      ensures Core() && nWr == pipe.pre
      ensures frame == old(frame) && fid == old(fid) && trig == old(trig)
      ensures sink == old(sink)
        + PreRecords(writeRaw, writeRoot, pipe.State(), frame, fid, npixs, pixid[..],
                     old(adcStack.Contents()), old(cdsStack.Contents()), pipe.pre)
      ensures adcStack.depth == old(adcStack.depth) - (if writeRoot then pipe.pre else 0)
      ensures adcStack.Contents() == old(adcStack.Contents())[..adcStack.depth]
      ensures cdsStack.Contents() == old(cdsStack.Contents())[..cdsStack.depth]
      ensures adcStack.buf[0] == old(adcStack.buf[0]) && cdsStack.buf[0] == old(cdsStack.buf[0])
    {
      nWr := 0;
      var pre := pipe.GetPre();
      if pre > 0 {
        WriteOutPre(pre);
        nWr := nWr + pre;
      }
      assert adcStack.buf[0] == adcStack.Contents()[0] == old(adcStack.Contents())[0] == old(adcStack.buf[0]);
      assert cdsStack.buf[0] == cdsStack.Contents()[0] == old(cdsStack.Contents())[0] == old(cdsStack.buf[0]);
    }

    /** The no-trigger branch of do_trig(): inside a post-trigger window
        write out the current frame with T0P1, otherwise skip it with
        T0P0. */
    method WriteUntriggered() returns (nWr: int)
      requires Core() && adcStack.depth > 0
      modifies this`sink, this`wrMode
      ensures nWr == WrittenCount(false, pipe.pre, pipe.post) && wrMode == ModeOf(false, pipe.post)
      ensures sink == old(sink) + TrigRecords(false, pipe.post, [],
                                              CurrentRecords(writeRaw, writeRoot, pipe.outPos, frame, trig, fid,
                                                             npixs, pixid[..], adcStack.buf[0], cdsStack.buf[0]))
    {
      nWr := 0;
      var post := pipe.IsPost();
      if post {
        wrMode := T0P1;
        WriteOut();
        nWr := nWr + 1;
      } else {
        wrMode := T0P0;
      }
    }

    /** The end of do_trig(): count the records, move the pipeline on with
        the chosen mode, and rotate the output files when a continuous run
        or a completed post-trigger window left them oversized. The file
        sizes are summarised by `oversize`. */
    method FinishTrig(nWr: int, oversize: bool)
      requires Core() && pipe.saved > 0 && pipe.first != pipe.outPos
      requires wrMode == T0P1 ==> pipe.post > 0
      requires wrMode == T0P0 ==> pipe.post == 0
      requires wrMode != Noise
      modifies this`nrecords, this`sink, pipe
      ensures PipeOk()
      ensures nrecords == old(nrecords) + nWr
      ensures pipe.State() == AfterNextOut(old(pipe.State()), wrMode)
      ensures sink == old(sink) + (if Rotates(daqMode == Continuous, wrMode, pipe.post, oversize) then [NewOutfiles] else [])
    {
      nrecords := nrecords + nWr;
      NextOutInv(pipe.State(), wrMode);
      WindowKept(pipe.State(), wrMode);
      pipe.NextOut(wrMode);
      var post := pipe.IsPost();
      if (daqMode == Continuous || (wrMode == T0P1 && !post)) && oversize {
        sink := sink + [NewOutfiles];   // new_outfiles()
      }
    }

    /** The part of do_trig() after triged(): write out what the trigger
        state asks for and move the pipeline on; `fires` says whether the
        frame counts as triggered. */
    method WriteFrame(fires: bool, oversize: bool)
      requires Core() && pipe.pre < adcStack.depth && pipe.saved > 0 && pipe.first != pipe.outPos
      modifies this`nrecords, this`wrMode, this`frame, this`fid, this`trig, this`sink, pipe
      modifies adcStack, adcStack.buf, cdsStack, cdsStack.buf
      ensures Valid()
      ensures frame == old(frame) && fid == old(fid) && trig == old(trig)
      ensures wrMode == ModeOf(fires, old(pipe.post))
      ensures nrecords == old(nrecords) + WrittenCount(fires, old(pipe.pre), old(pipe.post))
      ensures pipe.State() == AfterNextOut(old(pipe.State()), wrMode)
      ensures sink == old(sink)
        + TrigRecords(fires, old(pipe.post),
            PreRecords(writeRaw, writeRoot, old(pipe.State()), frame, fid, npixs, pixid[..],
                       old(adcStack.Contents()), old(cdsStack.Contents()), old(pipe.pre)),
            CurrentRecords(writeRaw, writeRoot, old(pipe.outPos), frame, trig, fid, npixs, pixid[..],
                           old(adcStack.buf[0]), old(cdsStack.buf[0])))
        + (if Rotates(daqMode == Continuous, wrMode, pipe.post, oversize) then [NewOutfiles] else [])
      ensures adcStack.depth == old(adcStack.depth) - (if fires && writeRoot then old(pipe.pre) else 0)
    {
      var nWr;
      if fires {
        nWr := WriteTriggered();
      } else {
        nWr := WriteUntriggered();
      }
      FinishTrig(nWr, oversize);
    }

    /** do_trig(): trigger on the current frame, write out what the trigger
        state asks for, and move the pipeline on. A continuous run treats
        every frame as triggered. */
    method DoTrig(oversize: bool)
      requires Core() && pipe.pre < adcStack.depth && pipe.saved > 0 && pipe.first != pipe.outPos
      modifies this`trig, this`npixs, this`ntrigsPeriod, this`ntrigsCds, this`ntrigs, pixid
      modifies this`nrecords, this`wrMode, this`frame, this`fid, this`sink, pipe
      modifies adcStack, adcStack.buf, cdsStack, cdsStack.buf
      ensures Valid()
      ensures var count := |Fired(old(cdsStack.buf[0]), threshold, NPIXS)|;
        && trig == TrigPattern(frame, trigPeriod, count)
        && npixs == count && pixid[..count] == Fired(old(cdsStack.buf[0]), threshold, NPIXS)
        && ntrigs == old(ntrigs) + (if trig != 0 then 1 else 0)
      ensures frame == old(frame) && fid == old(fid)
      ensures var fires := daqMode == Continuous || trig != 0;
        && wrMode == ModeOf(fires, old(pipe.post))
        && nrecords == old(nrecords) + WrittenCount(fires, old(pipe.pre), old(pipe.post))
        && pipe.State() == AfterNextOut(old(pipe.State()), wrMode)
        && sink == old(sink)
          + TrigRecords(fires, old(pipe.post),
              PreRecords(writeRaw, writeRoot, old(pipe.State()), frame, fid, npixs, pixid[..],
                         old(adcStack.Contents()), old(cdsStack.Contents()), old(pipe.pre)),
              CurrentRecords(writeRaw, writeRoot, old(pipe.outPos), frame, trig, fid, npixs, pixid[..],
                             old(adcStack.buf[0]), old(cdsStack.buf[0])))
          + (if Rotates(daqMode == Continuous, wrMode, pipe.post, oversize) then [NewOutfiles] else [])
        && adcStack.depth == old(adcStack.depth) - (if fires && writeRoot then old(pipe.pre) else 0)
    {
      var t := Triged();
      WriteFrame(daqMode == Continuous || t > 0, oversize);
    }

    /** The is_new() poll of writer_run(). The writer thread alone cannot
        make a frame arrive, so one poll is modelled: without a new frame
        the call answers ERunStop once the run is stopped and ENoNew (sleep
        and poll again) otherwise, and changes nothing; with one it
        processes the frame `words` at the out slot. */
    method WriterRun(words: seq<Word>, oversize: bool) returns (st: Status)
      requires Valid() && |words| == NPIXS
      modifies this`trig, this`npixs, this`ntrigsPeriod, this`ntrigsCds, this`ntrigs, pixid
      modifies this`nrecords, this`wrMode, this`frame, this`fid, this`sink, this`frame1st, this`nprocs, pipe
      modifies adcStack, adcStack.buf, cdsStack, cdsStack.buf
      ensures Valid()
      ensures !New(old(pipe.State())) ==>
        && st == (if runStatus == RunStop then ERunStop else ENoNew)
        && pipe.State() == old(pipe.State()) && sink == old(sink)
        && frame == old(frame) && nprocs == old(nprocs) && adcStack.depth == old(adcStack.depth)
      ensures New(old(pipe.State())) ==>
        && st == EOk
        && frame == old(frame) + 1 && nprocs == old(nprocs) + 1
        && frame1st == FirstIsOut(old(pipe.State()))
        && fid == Decode(words[0]).fid
        && trig == TrigPattern(old(frame), trigPeriod,
             |Fired(FrameCds(words, AfterPushSecond(old(adcStack.buf[..]), old(adcStack.depth)), frame1st), threshold, NPIXS)|)
        && wrMode == ModeOf(daqMode == Continuous || trig != 0, AfterIsFirst(old(pipe.State())).post)
        && pipe.State() == AfterNextOut(AfterIsFirst(old(pipe.State())), wrMode)
    {
      var isNew := pipe.IsNew();
      if !isNew {
        var stop := IsRunStop();
        if stop {
          return ERunStop;
        }
        return ENoNew;   // usleep(m_timewait), then poll again
      }
      ProcessFrame(words, oversize);
      st := EOk;
    }

    /** The body of writer_run() once a new frame is there: reset the
        first-frame state, decode the frame `words` at the out slot,
        trigger and write out, and count the frame. */
    method ProcessFrame(words: seq<Word>, oversize: bool)
      requires Valid() && |words| == NPIXS && pipe.saved > 0
      modifies this`trig, this`npixs, this`ntrigsPeriod, this`ntrigsCds, this`ntrigs, pixid
      modifies this`nrecords, this`wrMode, this`frame, this`fid, this`sink, this`frame1st, this`nprocs, pipe
      modifies adcStack, adcStack.buf, cdsStack, cdsStack.buf
      ensures Valid()
      ensures frame == old(frame) + 1 && nprocs == old(nprocs) + 1
      ensures frame1st == FirstIsOut(old(pipe.State()))
      ensures fid == Decode(words[0]).fid
      ensures trig == TrigPattern(old(frame), trigPeriod,
        |Fired(FrameCds(words, AfterPushSecond(old(adcStack.buf[..]), old(adcStack.depth)), frame1st), threshold, NPIXS)|)
      ensures wrMode == ModeOf(daqMode == Continuous || trig != 0, AfterIsFirst(old(pipe.State())).post)
      ensures pipe.State() == AfterNextOut(AfterIsFirst(old(pipe.State())), wrMode)
    {
      StartFrame();
      DecodeAndTrig(words, oversize);
      frame := frame + 1;
      nprocs := nprocs + 1;
    }

    /** The decoding and the trigger decision of a writer step, after
        is_first(). */
    method DecodeAndTrig(words: seq<Word>, oversize: bool)
      requires Valid() && |words| == NPIXS && pipe.saved > 0 && pipe.first != pipe.outPos
      modifies this`trig, this`npixs, this`ntrigsPeriod, this`ntrigsCds, this`ntrigs, pixid
      modifies this`nrecords, this`wrMode, this`frame, this`fid, this`sink, pipe
      modifies adcStack, adcStack.buf, cdsStack, cdsStack.buf
      ensures Valid() && frame == old(frame)
      ensures fid == Decode(words[0]).fid
      ensures trig == TrigPattern(frame, trigPeriod,
        |Fired(FrameCds(words, AfterPushSecond(old(adcStack.buf[..]), old(adcStack.depth)), frame1st), threshold, NPIXS)|)
      ensures wrMode == ModeOf(daqMode == Continuous || trig != 0, old(pipe.post))
      ensures pipe.State() == AfterNextOut(old(pipe.State()), wrMode)
    {
      ghost var cds := FrameCds(words, AfterPushSecond(adcStack.buf[..], adcStack.depth), frame1st);
      DecodeFrame(words);
      assert cdsStack.buf[0] == cdsStack.Contents()[0] == cds;
      DoTrig(oversize);
    }

    /** The is_first() step of writer_run(): a frame that starts a new
        sequence clears the marker and both window counts and is decoded as
        a first frame (CDS 0); the next frame is not. */
    method StartFrame()
      requires Valid() && pipe.saved > 0
      modifies this`frame1st, pipe
      ensures Valid() && pipe.saved > 0 && pipe.first != pipe.outPos
      ensures frame1st == FirstIsOut(old(pipe.State()))
      ensures pipe.State() == AfterIsFirst(old(pipe.State()))
    {
      StepInv(pipe.State(), IsFirstOp);
      var yes := pipe.IsFirst();
      if yes {
        frame1st := true;
      } else if frame1st {
        frame1st := false;
      }
    }

    // -------------------------------------------------------------------
    // Reader

    /** The is_full() loop of reader_run(): wait while the pipeline is
        full. The reader thread alone cannot empty the pipeline, so the
        loop ends only when wait_timeout gives up, which it does after a
        bounded number of calls. */
    method WaitNotFull() returns (ok: bool)
      requires PipeOk()
      modifies waiter
      ensures PipeOk()
      ensures ok <==> !Full(pipe.State())
    {
      var full := pipe.IsFull();
      while full
        invariant PipeOk() && (full <==> Full(pipe.State()))
        decreases if Waiting.Waiting(waiter.State(), timeout0) then Rank(waiter.State(), timeout0) else 0
      {
        WaitStep(waiter.State(), timeout0, runStatus == RunStop);
        var expired := waiter.WaitTimeout(runStatus == RunStop);
        if expired {
          return false;
        }
        RankPositive(waiter.State(), timeout0);
        full := pipe.IsFull();
      }
      ok := true;
    }

    /** The next_in() loop of reader_run(): wait while the last first frame
        is still unprocessed. The reader thread alone cannot clear the
        marker, so a wait ends only when wait_timeout gives up. */
    method WaitNextIn(yes: bool) returns (ok: bool)
      requires PipeOk() && !Full(pipe.State())
      modifies pipe, waiter
      ensures PipeOk()
      ensures ok <==> !NextInWaits(old(pipe.State()), yes)
      ensures pipe.State() == AfterNextIn(old(pipe.State()), yes)
    {
      StepInv(pipe.State(), NextInOp(yes));
      var wait := pipe.NextIn(yes);
      while wait
        invariant PipeOk() && pipe.State() == AfterNextIn(old(pipe.State()), yes)
        invariant wait == NextInWaits(old(pipe.State()), yes)
        decreases if Waiting.Waiting(waiter.State(), timeout0) then Rank(waiter.State(), timeout0) else 0
      {
        WaitStep(waiter.State(), timeout0, runStatus == RunStop);
        var expired := waiter.WaitTimeout(runStatus == RunStop);
        if expired {
          return false;
        }
        RankPositive(waiter.State(), timeout0);
        wait := pipe.NextIn(yes);
      }
      ok := true;
    }

    /** reader_run(): one frame from the FIFO into the pipeline. `located`
        is the answer of locate_last_pixel() (asked for only while the run
        is in RUN_FIRST), `readBytes` that of read_fifo() into the in slot,
        and `words` the frame read. */
    method ReaderRun(located: int, readBytes: int, words: seq<Word>) returns (st: Status)
      requires Valid() && |words| == NPIXS
      modifies this`runStatus, this`nreads, this`nsaved, this`fidLast, pipe, waiter
      ensures Valid()
      ensures old(runStatus) == RunFirst && located < 0 ==>
        st == ELastPix && runStatus == RunStop && pipe.State() == old(pipe.State()) && nreads == old(nreads)
      ensures !(old(runStatus) == RunFirst && located < 0) && Full(old(pipe.State())) ==>
        st == EIsFull && runStatus == RunStop && pipe.State() == old(pipe.State()) && nreads == old(nreads)
      ensures !(old(runStatus) == RunFirst && located < 0) && !Full(old(pipe.State())) && readBytes == 0 ==>
        st == EEof && runStatus == RunStop && pipe.State() == old(pipe.State()) && nreads == old(nreads)
      ensures !(old(runStatus) == RunFirst && located < 0) && !Full(old(pipe.State())) && readBytes != 0 ==>
        && nreads == old(nreads) + 1 && st == SaveOutcome(words, old(fidLast), old(pipe.State()), old(runStatus))
        && (!CleanFrame(words, old(fidLast)) ==>
              runStatus == RunFirst && fidLast == FID_MAX && pipe.State() == old(pipe.State()) && nsaved == old(nsaved))
        && (CleanFrame(words, old(fidLast)) ==>
              fidLast == FrameFid(words) && pipe.State() == AfterNextIn(old(pipe.State()), old(runStatus) == RunFirst))
        && (st == ELast1st ==> runStatus == RunStop && nsaved == old(nsaved))
        && (st == EOk ==>
              && nsaved == old(nsaved) + 1
              && runStatus == (if maxframe > 0 && nreads == maxframe then RunStop
                               else if old(runStatus) == RunFirst then RunStart
                               else old(runStatus)))
      ensures st in {ELastPix, EIsFull, EEof} ==> nsaved == old(nsaved) && fidLast == old(fidLast)
    {
      if runStatus == RunFirst {
        if located < 0 {
          AltRunStatus(RunStop);
          return ELastPix;
        }
      }
      var notFull := WaitNotFull();
      if !notFull {
        AltRunStatus(RunStop);
        return EIsFull;
      }
      if readBytes == 0 {   // end of file
        AltRunStatus(RunStop);
        return EEof;
      }
      nreads := nreads + 1;
      st := SaveFrame(words);
    }

    /** The end of reader_run() for a frame read: check its integrity
        (a bad frame sends the run back to RUN_FIRST), then account for it
        in the pipeline, waiting while a first frame is asked for and the
        last one is unprocessed, and stop the run after maxframe reads. */
    method SaveFrame(words: seq<Word>) returns (st: Status)
      requires Valid() && |words| == NPIXS && !Full(pipe.State())
      modifies this`runStatus, this`nsaved, this`fidLast, pipe, waiter
      ensures Valid()
      ensures st == SaveOutcome(words, old(fidLast), old(pipe.State()), old(runStatus))
      ensures !CleanFrame(words, old(fidLast)) ==>
        runStatus == RunFirst && fidLast == FID_MAX && pipe.State() == old(pipe.State()) && nsaved == old(nsaved)
      ensures CleanFrame(words, old(fidLast)) ==>
        && fidLast == FrameFid(words)
        && pipe.State() == AfterNextIn(old(pipe.State()), old(runStatus) == RunFirst)
      ensures st == ELast1st ==> runStatus == RunStop && nsaved == old(nsaved)
      ensures st == EOk ==>
        && nsaved == old(nsaved) + 1
        && runStatus == (if maxframe > 0 && nreads == maxframe then RunStop
                         else if old(runStatus) == RunFirst then RunStart
                         else old(runStatus))
    {
      var rv, fl := CheckIntegrity(words, fidLast);
      fidLast := fl;
      if rv > 0 {
        AltRunStatus(RunFirst);   // locate the last pixel again
        return EIntegrity;
      }
      var yes := runStatus == RunFirst;
      var ok := WaitNextIn(yes);
      if !ok {
        AltRunStatus(RunStop);
        return ELast1st;
      }
      if yes {
        AltRunStatus(RunStart);
      }
      nsaved := nsaved + 1;
      if maxframe > 0 && nreads == maxframe {
        AltRunStatus(RunStop);
      }
      st := EOk;
    }
  }
}
