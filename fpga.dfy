/** The older single-process FPGA reader (SupixFPGA.cxx). One cyclic
    pipeline of `size` = pre_trigs + 1 frame slots holds the ADC and CDS
    values of the last frames; every frame read goes through the integrity
    check and the CDS trigger, and a trigger records the pre-trigger frames
    still in the pipeline, the triggered frame and the post-trigger frames
    after it. Recording a frame (the ROOT tree and the raw file) is an
    append to the ghost sequence `records`. */
module FpgaDaq {
  import opened SupixDefs
  import opened PixelCodec
  import Integrity

  // ---------------------------------------------------------------------
  // check_integrity (SupixFPGA.cxx:1351-1410)

  /** The frame-id distance of check_integrity: fid - seen, plus 16 when
      negative. */
  function FidStep(fid: int, seen: int): (d: int)
    ensures 0 <= fid < FID_MAX && 0 <= seen < FID_MAX ==>
      0 <= d < FID_MAX && (d == 1 <==> fid == (seen + 1) % FID_MAX)
  {
    var d := fid - seen;
    if d < 0 then d + FID_MAX else d
  }

  /** The bits check_integrity returns for pixel (ir, ic) reading p, when
      the frame id seen last (the static frame_this) is `seen`. In the
      first frame the statics are reset to p's frame id before the
      comparison, so no frame-id bit can be set; the static frame_last only
      feeds the log line. */
  function PixelFlags(seen: int, first: bool, ir: int, ic: int, p: Pixel): (f: int)
    ensures 0 <= f < 16
    ensures f == 0 <==>
      && p.col == ic && p.row == ir + 1
      && (first || p.fid == seen || (ir == 0 && ic == 0 && FidStep(p.fid, seen) == 1))
  {
    var change := !first && p.fid != seen;
    (if change && !(ir == 0 && ic == 0) then Integrity.WRONG_FSAME else 0)
    + (if change && FidStep(p.fid, seen) != 1 then Integrity.WRONG_FCONS else 0)
    + (if p.col != ic then Integrity.WRONG_COL else 0)
    + (if p.row != ir + 1 then Integrity.WRONG_ROW else 0)
  }

  /** A frame through the mask decoder, word by word. */
  function Pixels(words: seq<Word>): (px: seq<Pixel>)
    ensures |px| == |words|
  {
    if |words| == 0 then [] else [DecodeMasked(words[0])] + Pixels(words[1..])
  }

  /** Pixel k of the decoded frame is word k through the mask decoder. */
  lemma {:induction false} PixelsAt(words: seq<Word>, k: int)
    requires 0 <= k < |words|
    ensures Pixels(words)[k] == DecodeMasked(words[k])
    decreases k
  {
    if k > 0 {
      PixelsAt(words[1..], k - 1);
    }
  }

  /** Word k of a frame through the mask decoder. */
  function WordAt(words: seq<Word>, k: int): Pixel
    requires 0 <= k < |words|
  {
    Pixels(words)[k]
  }

  /** The frame id check_integrity has seen when it reaches pixel k: the
      previous pixel's, or `seen0` at the start of the frame. */
  function Seen(words: seq<Word>, seen0: int, k: int): int
    requires 0 <= k <= |words|
  {
    if k == 0 then seen0 else WordAt(words, k - 1).fid
  }

  /** The bits check_integrity returns for pixel k of a frame. */
  function Flags(words: seq<Word>, seen0: int, first: bool, k: int): int
    requires |words| == NPIXS && 0 <= k < NPIXS
  {
    PixelFlags(Seen(words, seen0, k), first, k / NCOLS, k % NCOLS, WordAt(words, k))
  }

  /** No pixel before n is flagged. */
  predicate CleanUpTo(words: seq<Word>, seen0: int, first: bool, n: int)
    requires |words| == NPIXS && 0 <= n <= NPIXS
  {
    forall k :: 0 <= k < n ==> Flags(words, seen0, first, k) == 0
  }

  /** The first flagged pixel at or after i, or NPIXS when there is none. */
  function FirstBad(words: seq<Word>, seen0: int, first: bool, i: int): (s: int)
    requires |words| == NPIXS && 0 <= i <= NPIXS
    ensures i <= s <= NPIXS
    ensures forall k :: i <= k < s ==> Flags(words, seen0, first, k) == 0
    ensures s < NPIXS ==> Flags(words, seen0, first, s) != 0
    decreases NPIXS - i
  {
    if i == NPIXS then NPIXS
    else if Flags(words, seen0, first, i) != 0 then i
    else FirstBad(words, seen0, first, i + 1)
  }

  /** The pixels before s pass and pixel s does not: s is the first bad one. */
  lemma FirstBadAt(words: seq<Word>, seen0: int, first: bool, s: int)
    requires |words| == NPIXS && 0 <= s < NPIXS
    requires CleanUpTo(words, seen0, first, s) && Flags(words, seen0, first, s) != 0
    ensures FirstBad(words, seen0, first, 0) == s
  {
  }

  /** Pixel s is the first one flagged. */
  predicate FirstFlagged(words: seq<Word>, seen0: int, first: bool, s: int)
    requires |words| == NPIXS
  {
    0 <= s < NPIXS && CleanUpTo(words, seen0, first, s) && Flags(words, seen0, first, s) != 0
  }

  /** The first flagged pixel is the one FirstBad finds, and a frame is
      clean exactly when FirstBad runs to the end. */
  lemma FirstFlaggedIsFirstBad(words: seq<Word>, seen0: int, first: bool, s: int)
    requires |words| == NPIXS
    ensures FirstFlagged(words, seen0, first, s) <==> s == FirstBad(words, seen0, first, 0) < NPIXS
    ensures CleanUpTo(words, seen0, first, NPIXS) <==> FirstBad(words, seen0, first, 0) == NPIXS
  {
    var b := FirstBad(words, seen0, first, 0);
    if FirstFlagged(words, seen0, first, s) {
      FirstBadAt(words, seen0, first, s);
    }
    if b < NPIXS {
      assert Flags(words, seen0, first, b) != 0;
    }
  }

  /** Column and row of every word match its position. */
  predicate Placed(words: seq<Word>)
    requires |words| == NPIXS
  {
    forall k :: 0 <= k < NPIXS ==> WordAt(words, k).col == k % NCOLS && WordAt(words, k).row == k / NCOLS + 1
  }

  /** Every word of the frame repeats the first word's frame id. */
  predicate OneFid(words: seq<Word>)
    requires |words| == NPIXS
  {
    forall k :: 0 <= k < NPIXS ==> WordAt(words, k).fid == WordAt(words, 0).fid
  }

  /** Equal neighbours all the way from word 0 to word n. */
  lemma {:induction false} ChainFid(words: seq<Word>, n: int)
    requires |words| == NPIXS && 0 <= n < NPIXS
    requires forall k :: 1 <= k <= n ==> WordAt(words, k).fid == WordAt(words, k - 1).fid
    ensures forall k :: 0 <= k <= n ==> WordAt(words, k).fid == WordAt(words, 0).fid
  {
    if n > 0 {
      ChainFid(words, n - 1);
      assert WordAt(words, n).fid == WordAt(words, n - 1).fid;
    }
  }

  /** Only pixel 0 sits at row 0, column 0 of the frame. */
  lemma Origin(k: int)
    requires 0 <= k
    ensures k / NCOLS == 0 && k % NCOLS == 0 <==> k == 0
  {
  }

  /** A frame after the first passes check_integrity iff every word sits at
      its row and column, all words carry one frame id, and that id is the
      id seen last or the one after it: an unchanged frame id across
      frames is never flagged. In the first frame only rows and columns are
      checked. */
  lemma FrameCleanIff(words: seq<Word>, seen0: int, first: bool)
    requires |words| == NPIXS && (!first ==> 0 <= seen0 < FID_MAX)
    ensures first ==> (CleanUpTo(words, seen0, first, NPIXS) <==> Placed(words))
    ensures !first ==>
      (CleanUpTo(words, seen0, first, NPIXS) <==>
        Placed(words) && OneFid(words)
        && (WordAt(words, 0).fid == seen0 || WordAt(words, 0).fid == (seen0 + 1) % FID_MAX))
  {
    var f0 := WordAt(words, 0).fid;
    if CleanUpTo(words, seen0, first, NPIXS) {
      forall k | 0 <= k < NPIXS
        ensures WordAt(words, k).col == k % NCOLS && WordAt(words, k).row == k / NCOLS + 1
      {
        assert Flags(words, seen0, first, k) == 0;
      }
      if !first {
        forall k | 1 <= k <= NPIXS - 1
          ensures WordAt(words, k).fid == WordAt(words, k - 1).fid
        {
          assert Flags(words, seen0, first, k) == 0;
          Origin(k);
        }
        ChainFid(words, NPIXS - 1);
        assert Flags(words, seen0, first, 0) == 0;
      }
    }
    if Placed(words) && (!first ==> OneFid(words) && (f0 == seen0 || f0 == (seen0 + 1) % FID_MAX)) {
      forall k | 0 <= k < NPIXS
        ensures Flags(words, seen0, first, k) == 0
      {
        if !first && k > 0 {
          assert WordAt(words, k - 1).fid == f0;
        }
      }
    }
  }

  // The first frame as written and as evidently intended

  /** Frames for the first-frame case: pixel k at its row and column with
      frame id 2, except pixel 5, which carries frame id 3. */
  function MixedFrame(): (w: seq<Word>)
    ensures |w| == NPIXS
  {
    seq<Word>(NPIXS, k requires 0 <= k < NPIXS =>
      Encode(Pixel(if k == 5 then 3 else 2, k / NCOLS + 1, k % NCOLS, 0)))
  }

  /** Each word of MixedFrame decodes to the pixel it was built from. */
  lemma MixedFrameWord(k: int)
    requires 0 <= k < NPIXS
    ensures WordAt(MixedFrame(), k) == Pixel(if k == 5 then 3 else 2, k / NCOLS + 1, k % NCOLS, 0)
  {
    var p := Pixel(if k == 5 then 3 else 2, k / NCOLS + 1, k % NCOLS, 0);
    DecodeEncode(p);
    DecodersAgree(Encode(p));
    PixelsAt(MixedFrame(), k);
  }

  /** As written, the first frame after a resynchronisation passes the check
      although its frame id changes at pixel 5. */
  lemma FirstFrameMixedFidPasses(seen0: int)
    ensures CleanUpTo(MixedFrame(), seen0, true, NPIXS)
    ensures WordAt(MixedFrame(), 5).fid != WordAt(MixedFrame(), 0).fid
  {
    var w := MixedFrame();
    forall k | 0 <= k < NPIXS
      ensures WordAt(w, k).col == k % NCOLS && WordAt(w, k).row == k / NCOLS + 1
    {
      MixedFrameWord(k);
    }
    FrameCleanIff(w, seen0, true);
    MixedFrameWord(0);
    MixedFrameWord(5);
  }

  /** The evidently intended check: the statics are initialised once, at
      pixel 0 of the first frame, so a change of frame id inside the first
      frame is flagged; only the consecutive-id bit is waived in the first
      frame, as the `!m_frame_1st` guard of that bit says. */
  function FlagsFixed(words: seq<Word>, seen0: int, first: bool, k: int): (f: int)
    requires |words| == NPIXS && 0 <= k < NPIXS
    ensures 0 <= f < 16
  {
    var p := WordAt(words, k);
    var seen := if k == 0 && first then p.fid else Seen(words, seen0, k);
    var change := p.fid != seen;
    (if change && !(k / NCOLS == 0 && k % NCOLS == 0) then Integrity.WRONG_FSAME else 0)
    + (if change && !first && FidStep(p.fid, seen) != 1 then Integrity.WRONG_FCONS else 0)
    + (if p.col != k % NCOLS then Integrity.WRONG_COL else 0)
    + (if p.row != k / NCOLS + 1 then Integrity.WRONG_ROW else 0)
  }

  /** With the intended check a first frame passes iff its words are placed
      and carry one frame id, and later frames are judged as before. */
  lemma FixedFrameCleanIff(words: seq<Word>, seen0: int, first: bool)
    requires |words| == NPIXS && (!first ==> 0 <= seen0 < FID_MAX)
    ensures first ==>
      ((forall k :: 0 <= k < NPIXS ==> FlagsFixed(words, seen0, first, k) == 0) <==> Placed(words) && OneFid(words))
    ensures !first ==> forall k :: 0 <= k < NPIXS ==> FlagsFixed(words, seen0, first, k) == Flags(words, seen0, first, k)
  {
    if first {
      if forall k :: 0 <= k < NPIXS ==> FlagsFixed(words, seen0, first, k) == 0 {
        forall k | 0 <= k < NPIXS
          ensures WordAt(words, k).col == k % NCOLS && WordAt(words, k).row == k / NCOLS + 1
        {
          assert FlagsFixed(words, seen0, first, k) == 0;
        }
        forall k | 1 <= k <= NPIXS - 1
          ensures WordAt(words, k).fid == WordAt(words, k - 1).fid
        {
          assert FlagsFixed(words, seen0, first, k) == 0;
          Origin(k);
        }
        ChainFid(words, NPIXS - 1);
      }
      if Placed(words) && OneFid(words) {
        forall k | 0 <= k < NPIXS
          ensures FlagsFixed(words, seen0, first, k) == 0
        {
          if k > 0 {
            assert WordAt(words, k - 1).fid == WordAt(words, 0).fid;
          }
        }
      }
    } else {
      forall k | 0 <= k < NPIXS
        ensures FlagsFixed(words, seen0, first, k) == Flags(words, seen0, first, k)
      {
        Origin(k);
      }
    }
  }

  /** The intended check rejects the mixed first frame at pixel 5. */
  lemma FixedRejectsMixedFirstFrame(seen0: int)
    ensures FlagsFixed(MixedFrame(), seen0, true, 5) != 0
  {
    MixedFrameWord(4);
    MixedFrameWord(5);
  }

  // ---------------------------------------------------------------------
  // CDS trigger (SupixFPGA.cxx:1078-1135)

  /** The CDS of pixel k: its ADC minus the pixel's last ADC. */
  function Cds(words: seq<Word>, last: seq<int>, k: int): int
    requires |words| == NPIXS && |last| == NPIXS && 0 <= k < NPIXS
  {
    WordAt(words, k).adc - last[k]
  }

  /** Pixel k fires when its CDS reaches its threshold. */
  predicate Fires(words: seq<Word>, last: seq<int>, thr: seq<real>, k: int)
    requires |words| == NPIXS && |last| == NPIXS && |thr| == NPIXS && 0 <= k < NPIXS
  {
    Cds(words, last, k) as real >= thr[k]
  }

  /** The number of firing pixels before n. */
  function CountFired(words: seq<Word>, last: seq<int>, thr: seq<real>, n: int): (c: int)
    requires |words| == NPIXS && |last| == NPIXS && |thr| == NPIXS && 0 <= n <= NPIXS
    ensures 0 <= c <= n
  {
    if n == 0 then 0
    else CountFired(words, last, thr, n - 1) + (if Fires(words, last, thr, n - 1) then 1 else 0)
  }

  /** The count is positive iff some pixel before n fires. */
  lemma {:induction false} CountFiredPositive(words: seq<Word>, last: seq<int>, thr: seq<real>, n: int)
    requires |words| == NPIXS && |last| == NPIXS && |thr| == NPIXS && 0 <= n <= NPIXS
    ensures CountFired(words, last, thr, n) > 0 <==> exists k :: 0 <= k < n && Fires(words, last, thr, k)
  {
    if n > 0 {
      CountFiredPositive(words, last, thr, n - 1);
    }
  }

  /** The trigger pattern of a frame: TRIG_PERIOD when the frame number is
      a multiple of the period, TRIG_CDS when some pixel fired. */
  function TrigPattern(frame: int, period: int, fired: int): (t: int)
    requires 0 < period
    ensures 0 <= t <= TRIG_PERIOD + TRIG_CDS
    ensures t % 2 == 1 <==> frame % period == 0
    ensures t / 2 == 1 <==> fired > 0
  {
    (if frame % period == 0 then TRIG_PERIOD else 0) + (if fired > 0 then TRIG_CDS else 0)
  }

  // ---------------------------------------------------------------------
  // Triggered recording (SupixFPGA.cxx:1007-1073, 1139-1178)

  /** One recorded frame: the pipeline slot it comes from and the frame
      number and trigger pattern recorded with it. */
  datatype FpgaRecord = FpgaRecord(slot: int, frame: int, trig: int)

  /** The slot j frames before slot inow: inow - j, plus size when
      negative. */
  function Slot(inow: int, j: int, size: int): int {
    if inow - j < 0 then inow - j + size else inow - j
  }

  /** The number of pre-trigger frames replayed: min(pre_trigs, saved). */
  function PreCount(pre: int, saved: int): (k: int)
    ensures k <= pre && k <= saved && (k == pre || k == saved)
  {
    if saved < pre then saved else pre
  }

  /** What record_pre_trigs records for k pre-trigger frames: frames
      frame - k .. frame from slots inow - k .. inow, the replayed ones
      with trigger pattern 0 and the current one with its own. */
  function PreRecords(inow: int, size: int, frame: int, trig: int, k: nat): (r: seq<FpgaRecord>)
    ensures |r| == k + 1
    ensures forall i :: 0 <= i <= k ==>
      r[i] == FpgaRecord(Slot(inow, k - i, size), frame - (k - i), if k - i > 0 then 0 else trig)
  {
    seq(k + 1, i requires 0 <= i <= k =>
      FpgaRecord(Slot(inow, k - i, size), frame - (k - i), if k - i > 0 then 0 else trig))
  }

  /** The slot arithmetic of record_pre_trigs: every slot is (inow - j) mod
      size, the k + 1 slots are distinct, the frame numbers are consecutive
      up to the current frame, and only the current frame keeps its
      trigger pattern. */
  lemma PreRecordsShape(inow: int, size: int, frame: int, trig: int, k: nat)
    requires 0 <= inow < size && k < size
    ensures var r := PreRecords(inow, size, frame, trig, k);
      && (forall i :: 0 <= i <= k ==> 0 <= r[i].slot < size && r[i].slot == (inow - (k - i)) % size)
      && (forall i, j :: 0 <= i < j <= k ==> r[i].slot != r[j].slot && r[i].frame < r[j].frame)
      && (forall i :: 0 <= i <= k ==> r[i].frame == frame - k + i)
      && (forall i :: 0 <= i < k ==> r[i].trig == 0)
      && r[k] == FpgaRecord(inow, frame, trig)
  {
    forall j | 0 <= j <= k
      ensures Slot(inow, j, size) == (inow - j) % size
    {
      if inow - j < 0 {
        ModShift(inow - j, size);
        ModSmall(inow - j + size, size);
      } else {
        ModSmall(inow - j, size);
      }
    }
  }

  /** saved after the branch table of do_trigger. */
  function SavedAfter(trig: int, post: int, saved: int): int {
    if trig != 0 then (if post > 0 then saved else 0)
    else if post > 0 then saved else saved + 1
  }

  /** post_trigs after the branch table: a new trigger opens a window of
      postRun frames, a frame inside a window without a trigger closes one
      frame of it, and a trigger inside a window keeps it open. */
  function PostAfter(trig: int, post: int, postRun: int): int {
    if trig != 0 then (if post > 0 then post else postRun)
    else if post > 0 then post - 1 else post
  }

  /** The frames the branch table records. */
  function TriggerRecords(trig: int, post: int, inow: int, size: int, frame: int, k: nat): seq<FpgaRecord> {
    if post > 0 then [FpgaRecord(inow, frame, trig)]
    else if trig != 0 then PreRecords(inow, size, frame, trig, k)
    else []
  }

  /** The pipeline bookkeeping of the reader: current slot, frames saved
      since the last record, post-trigger frames still to record, frame
      number, trigger pattern, and the records written so far. */
  datatype Pipe = Pipe(inow: int, saved: int, post: int, frame: int, trig: int,
                       records: seq<FpgaRecord>)

  /** The bookkeeping after the branch table of do_trigger for a passed
      frame with trigger pattern t, and the move to the next slot. */
  function Take(p: Pipe, t: int, pre: int, postRun: int, size: int): Pipe
    requires 0 <= p.saved && 0 <= pre && 0 < size
  {
    Pipe((p.inow + 1) % size, SavedAfter(t, p.post, p.saved), PostAfter(t, p.post, postRun),
         p.frame + 1, t,
         p.records + TriggerRecords(t, p.post, p.inow, size, p.frame, PreCount(pre, p.saved)))
  }

  /** The bookkeeping the reader keeps between frames. */
  ghost predicate PipeOk(p: Pipe, postRun: int) {
    && 0 <= p.saved <= p.frame && 0 <= p.post <= postRun && (p.post > 0 ==> p.saved == 0)
    && RecordsOk(p.records, p.frame, p.saved)
  }

  /** Records in strictly increasing frame order, all older than the last
      `saved` frames before `frame`. */
  ghost predicate RecordsOk(records: seq<FpgaRecord>, frame: int, saved: int) {
    && (forall i, j :: 0 <= i < j < |records| ==> records[i].frame < records[j].frame)
    && (forall i :: 0 <= i < |records| ==> records[i].frame < frame - saved)
  }

  /** Every frame is recorded at most once, in order: the branch table
      keeps the records increasing, and the frames it skips are those the
      next trigger replays. */
  lemma TriggerKeepsOrder(records: seq<FpgaRecord>, frame: int, saved: int, post: int, trig: int,
                          inow: int, size: int, pre: int)
    requires RecordsOk(records, frame, saved) && 0 <= saved && 0 <= post && 0 <= pre
    requires post > 0 ==> saved == 0
    ensures RecordsOk(records + TriggerRecords(trig, post, inow, size, frame, PreCount(pre, saved)),
                      frame + 1, SavedAfter(trig, post, saved))
  {
    var k := PreCount(pre, saved);
    var n := TriggerRecords(trig, post, inow, size, frame, k);
    var all := records + n;
    assert forall i :: 0 <= i < |n| ==> frame - k <= n[i].frame <= frame;
    assert forall i, j :: 0 <= i < j < |n| ==> n[i].frame < n[j].frame;
    forall i, j | 0 <= i < j < |all|
      ensures all[i].frame < all[j].frame
    {
      if j >= |records| && i < |records| {
        assert all[j] == n[j - |records|];
      }
    }
  }

  /** Take keeps the bookkeeping consistent: records stay in increasing
      frame order, each frame recorded at most once, and a post-trigger
      window never overlaps unrecorded saved frames; the slot moves on
      cyclically and the frame number by one. */
  lemma TakeKeepsPipeOk(p: Pipe, t: int, pre: int, postRun: int, size: int)
    requires PipeOk(p, postRun) && 0 <= pre && 0 < size && 0 <= postRun
    ensures var q := Take(p, t, pre, postRun, size);
      && PipeOk(q, postRun) && q.frame == p.frame + 1 && q.trig == t
      && (0 <= p.inow < size ==> 0 <= q.inow < size)
      && |q.records| >= |p.records|
  {
    TriggerKeepsOrder(p.records, p.frame, p.saved, p.post, t, p.inow, size, pre);
  }

  /** The pipeline slots hold the frames they are meant to: slot inow - j
      holds frame - j for every j < size not before the first frame. */
  ghost predicate SlotsHold(sf: seq<int>, inow: int, frame: int, size: int)
    requires 0 <= inow < size == |sf|
  {
    forall j :: 1 <= j < size && j <= frame ==> sf[Slot(inow, j, size)] == frame - j
  }

  /** Overwriting the current slot leaves the older slots' frames alone. */
  lemma SlotOverwrite(sf: seq<int>, inow: int, frame: int, size: int, v: int)
    requires 0 <= inow < size == |sf| && SlotsHold(sf, inow, frame, size)
    ensures SlotsHold(sf[inow := v], inow, frame, size)
  {
    forall j | 1 <= j < size && j <= frame
      ensures sf[inow := v][Slot(inow, j, size)] == frame - j
    {
      assert Slot(inow, j, size) != inow;
    }
  }

  /** Moving to the next slot and frame keeps the slots' frames as meant,
      once the current slot holds the current frame. */
  lemma SlotAdvance(sf: seq<int>, inow: int, frame: int, size: int)
    requires 0 <= inow < size == |sf| && SlotsHold(sf, inow, frame, size) && sf[inow] == frame
    ensures 0 <= (inow + 1) % size < size
    ensures SlotsHold(sf, (inow + 1) % size, frame + 1, size)
  {
    var next := (inow + 1) % size;
    if inow + 1 < size {
      ModSmall(inow + 1, size);
    } else {
      DivMod(inow + 1, size, 1, 0);
    }
    forall j | 1 <= j < size && j <= frame + 1
      ensures sf[Slot(next, j, size)] == frame + 1 - j
    {
      assert Slot(next, j, size) == Slot(inow, j - 1, size);
    }
  }

  /** Every frame the branch table records comes from the slot holding
      that frame. */
  lemma RecordsHoldFrames(sf: seq<int>, inow: int, frame: int, size: int, saved: int,
                          post: int, trig: int, pre: int)
    requires 0 <= inow < size == |sf| && SlotsHold(sf, inow, frame, size) && sf[inow] == frame
    requires 0 <= saved <= frame && 0 <= pre < size
    ensures var n := TriggerRecords(trig, post, inow, size, frame, PreCount(pre, saved));
      forall i :: 0 <= i < |n| ==> 0 <= n[i].slot < size && sf[n[i].slot] == n[i].frame
  {
    var k := PreCount(pre, saved);
    if post <= 0 && trig != 0 {
      var r := PreRecords(inow, size, frame, trig, k);
      forall i | 0 <= i <= k
        ensures 0 <= r[i].slot < size && sf[r[i].slot] == r[i].frame
      {
        if k - i > 0 {
          assert sf[Slot(inow, k - i, size)] == frame - (k - i);
        }
      }
    }
  }

  // ---------------------------------------------------------------------
  // locate_last_pixel (SupixFPGA.cxx:776-823)

  /** A word with the last pixel's address, through the mask decoder. */
  predicate LastPixelWord(w: Word) {
    Address(DecodeMasked(w)) == LAST_PIXEL_ADDR
  }

  /** The first word at or after i, among the first NPIXS, that carries the
      last pixel's address, or NPIXS. */
  function FirstSentinel(stream: seq<Word>, i: int): (k: int)
    requires 0 <= i <= NPIXS <= |stream|
    ensures i <= k <= NPIXS
    ensures forall j :: i <= j < k ==> !LastPixelWord(stream[j])
    ensures k < NPIXS ==> LastPixelWord(stream[k])
    decreases NPIXS - i
  {
    if i == NPIXS then NPIXS
    else if LastPixelWord(stream[i]) then i
    else FirstSentinel(stream, i + 1)
  }

  /** locate_last_pixel over the words the FIFO delivers, one read of 4
      bytes per word: true iff the last pixel's address is among the first
      NROWS * NCOLS words, and the words read, which stop right after it.
      The word read NROWS * NCOLS + 1 is not examined. */
  method LocateLastPixel(stream: seq<Word>) returns (yes: bool, count: int)
    requires |stream| > NROWS * NCOLS
    ensures yes <==> FirstSentinel(stream, 0) < NPIXS
    ensures count == if yes then FirstSentinel(stream, 0) + 1 else NPIXS + 1
  {
    yes := false;
    count := 0;
    while true
      invariant 0 <= count <= NPIXS && !yes
      invariant forall j :: 0 <= j < count ==> !LastPixelWord(stream[j])
      decreases NPIXS + 1 - count
    {
      count := count + 1;
      var p := DecodeMasked(stream[count - 1]);
      var addr := p.row * 0x10 + p.col;
      if count > NROWS * NCOLS {
        break;
      }
      if addr == LAST_PIXEL_ADDR {
        yes := true;
        break;
      }
    }
    if !yes {
      assert FirstSentinel(stream, 0) >= NPIXS;
    }
  }

  /** Entering a well-formed stream s words into a frame, the search stops
      at the end of that frame, so the next word read starts a frame. */
  lemma LocateAligns(s: nat)
    requires s < NPIXS
    ensures var k := FirstSentinel(Integrity.Window(s, NPIXS + 1), 0);
      k == NPIXS - 1 - s && (s + k + 1) % NPIXS == 0
  {
    var w := Integrity.Window(s, NPIXS + 1);
    var v := Integrity.Window(s, NPIXS);
    Integrity.SentinelInWindow(s);
    forall j | 0 <= j <= NPIXS - 1 - s
      ensures LastPixelWord(w[j]) == Integrity.IsSentinel(v[j])
    {
      DecodersAgree(w[j]);
    }
    assert LastPixelWord(w[NPIXS - 1 - s]);
    DivMod(NPIXS, NPIXS, 1, 0);
  }

  // ---------------------------------------------------------------------
  // The reader

  /** The contents of a pipeline buffer, one sequence per slot. */
  function Rows(a: array2<int>): (r: seq<seq<int>>)
    reads a
    ensures |r| == a.Length0
    ensures forall j :: 0 <= j < a.Length0 ==>
      |r[j]| == a.Length1 && forall k :: 0 <= k < a.Length1 ==> r[j][k] == a[j, k]
  {
    seq(a.Length0, j requires 0 <= j < a.Length0 reads a =>
      seq(a.Length1, k requires 0 <= k < a.Length1 reads a => a[j, k]))
  }

  class SupixFpga {
    const preTrigs: int        // m_runinfo.pre_trigs
    const postTrigsRun: int    // m_runinfo.post_trigs
    const trigPeriod: int      // m_runinfo.trig_period
    const thr: seq<real>       // m_runinfo.trig_cds, row-major
    const size: int            // m_pipeline.size
    const pixelAdc: array2<int>  // m_pipeline.pixel_adc, one row per slot
    const pixelCds: array2<int>  // m_pipeline.pixel_cds
    const pixelLast: array<int>  // m_pixel_last, row-major
    var inow: int              // m_pipeline.inow
    var saved: int             // m_pipeline.saved
    var postTrigs: int         // m_pipeline.post_trigs
    var frame: int             // m_frame
    var trig: int              // m_trig
    var frame1st: bool         // m_frame_1st
    var frameThis: int         // the static frame_this of check_integrity
    var nrecords: int          // m_runinfo.nrecords
    var ntrigs: int            // m_runinfo.ntrigs
    var nreads: int            // m_runinfo.nreads
    ghost var records: seq<FpgaRecord>
    ghost var slotFrame: seq<int>  // the frame whose data each slot holds

    ghost predicate Valid()
      reads this`inow, this`saved, this`postTrigs, this`frame, this`nrecords, this`records, this`slotFrame
    {
      && 0 <= preTrigs && 0 <= postTrigsRun && 0 < trigPeriod && |thr| == NPIXS
      && size == preTrigs + 1
      && pixelAdc.Length0 == size && pixelAdc.Length1 == NPIXS
      && pixelCds.Length0 == size && pixelCds.Length1 == NPIXS
      && pixelAdc != pixelCds && pixelLast.Length == NPIXS
      && 0 <= inow < size && 0 <= saved <= frame
      && 0 <= postTrigs <= postTrigsRun && (postTrigs > 0 ==> saved == 0)
      && nrecords == |records| && RecordsOk(records, frame, saved)
      && |slotFrame| == size && SlotsHold(slotFrame, inow, frame, size)
    }

    /** The bookkeeping fields as one value. */
    ghost function Tallied(): Pipe
      reads this`inow, this`saved, this`postTrigs, this`frame, this`trig, this`records
    {
      Pipe(inow, saved, postTrigs, frame, trig, records)
    }

    /** The records from the n-th on come from slots that hold their
        frames. */
    ghost predicate HeldFrom(n: int)
      reads this`records, this`slotFrame
    {
      forall i :: 0 <= n <= i < |records| ==>
        0 <= records[i].slot < |slotFrame| && slotFrame[records[i].slot] == records[i].frame
    }

    /** The pixel arrays after pixels 0 .. s-1 of `words` were stored in
        slot `slot` over the contents a0, c0 (per slot) and l0: ADC, CDS
        against the last ADC, and the new last ADC; nothing else differs. */
    ghost predicate StoredUpTo(words: seq<Word>, s: int, slot: int,
                               a0: seq<seq<int>>, c0: seq<seq<int>>, l0: seq<int>)
      requires pixelAdc.Length1 == NPIXS && pixelCds.Length1 == NPIXS && pixelLast.Length == NPIXS
      requires pixelAdc.Length0 == pixelCds.Length0
      reads pixelAdc, pixelCds, pixelLast
    {
      && |words| == NPIXS && 0 <= s <= NPIXS && 0 <= slot < pixelAdc.Length0
      && |a0| == pixelAdc.Length0 && |c0| == pixelAdc.Length0 && |l0| == NPIXS
      && (forall j :: 0 <= j < |a0| ==> |a0[j]| == NPIXS && |c0[j]| == NPIXS)
      && (forall k :: 0 <= k < NPIXS ==>
           && pixelAdc[slot, k] == (if k < s then WordAt(words, k).adc else a0[slot][k])
           && pixelCds[slot, k] == (if k < s then Cds(words, l0, k) else c0[slot][k])
           && pixelLast[k] == (if k < s then WordAt(words, k).adc else l0[k]))
      && (forall j, k :: 0 <= j < pixelAdc.Length0 && j != slot && 0 <= k < NPIXS ==>
           pixelAdc[j, k] == a0[j][k] && pixelCds[j, k] == c0[j][k])
    }

    /** initialize(): zeroed last ADCs and an empty pipeline of
        pre_trigs + 1 slots; the run starts at frame 0 with the first
        frame still to come. */
    constructor (pre: int, post: int, period: int, thresholds: seq<real>)
      requires 0 <= pre && 0 <= post && 0 < period && |thresholds| == NPIXS
      ensures Valid() && fresh(pixelAdc) && fresh(pixelCds) && fresh(pixelLast)
      ensures preTrigs == pre && postTrigsRun == post && trigPeriod == period && thr == thresholds
      ensures inow == 0 && saved == 0 && postTrigs == 0 && frame == 0 && frame1st
      ensures records == [] && nrecords == 0 && ntrigs == 0 && nreads == 0
      ensures forall k :: 0 <= k < NPIXS ==> pixelLast[k] == 0
    {
      preTrigs, postTrigsRun, trigPeriod, thr := pre, post, period, thresholds;
      size := pre + 1;
      pixelAdc := new int[pre + 1, NPIXS];
      pixelCds := new int[pre + 1, NPIXS];
      pixelLast := new int[NPIXS](_ => 0);
      inow, saved, postTrigs, frame, trig := 0, 0, 0, 0, 0;
      frame1st := true;
      frameThis := -1;
      nrecords, ntrigs, nreads := 0, 0, 0;
      records := [];
      slotFrame := seq(pre + 1, _ => -1);
    }

    /** check_integrity(ir, ic, frame, row, col) */
    method CheckIntegrity(ir: int, ic: int, p: Pixel) returns (retval: int)
      modifies this`frameThis
      ensures retval == PixelFlags(old(frameThis), frame1st, ir, ic, p)
      ensures frameThis == p.fid
    {
      retval := 0;
      if frame1st {
        frameThis := p.fid;
      }
      if p.fid != frameThis {
        var frameLast := frameThis;
        frameThis := p.fid;
        if !(ir == 0 && ic == 0) {
          retval := retval + Integrity.WRONG_FSAME;
        }
        var diff := frameThis - frameLast;
        if diff < 0 {
          diff := diff + FID_MAX;
        }
        if !frame1st && diff != 1 {
          retval := retval + Integrity.WRONG_FCONS;
        }
      }
      if p.col != ic {
        retval := retval + Integrity.WRONG_COL;
      }
      if p.row != ir + 1 {
        retval := retval + Integrity.WRONG_ROW;
      }
    }

    /** One pass of the pixel loop of trig_cds: check pixel i = (ir, ic);
        when it passes, store its ADC and CDS in the current slot and its
        ADC as the last one, and say whether it reaches its threshold. */
    method StorePixel(words: seq<Word>, i: int, ir: int, ic: int,
                      ghost a0: seq<seq<int>>, ghost c0: seq<seq<int>>, ghost l0: seq<int>)
      returns (status: int, hit: bool)
      requires Valid() && |words| == NPIXS
      requires 0 <= ir < NROWS && 0 <= ic < NCOLS && i == ir * NCOLS + ic
      requires StoredUpTo(words, i, inow, a0, c0, l0)
      modifies this`frameThis, pixelAdc, pixelCds, pixelLast
      ensures i < NPIXS
      ensures status == PixelFlags(old(frameThis), frame1st, ir, ic, WordAt(words, i))
      ensures frameThis == WordAt(words, i).fid
      ensures hit == (status == 0 && Fires(words, l0, thr, i))
      ensures StoredUpTo(words, if status == 0 then i + 1 else i, inow, a0, c0, l0)
    {
      var p := DecodeMasked(words[i]);
      PixelsAt(words, i);
      status := CheckIntegrity(ir, ic, p);
      if status != 0 {
        hit := false;
        return;
      }
      var cds := p.adc - pixelLast[i];
      pixelCds[inow, i] := cds;
      pixelAdc[inow, i] := p.adc;
      pixelLast[i] := p.adc;
      hit := cds as real >= thr[i];
    }

    /** The state of trig_cds after the pixels before i passed: no pixel
        flagged, the last frame id seen, the count of firing pixels, and
        the stored pixels. */
    ghost predicate Scanned(words: seq<Word>, i: int, count: int, seen0: int,
                            a0: seq<seq<int>>, c0: seq<seq<int>>, l0: seq<int>)
      requires Valid()
      reads this, pixelAdc, pixelCds, pixelLast
    {
      && |words| == NPIXS && 0 <= i <= NPIXS && |l0| == NPIXS
      && CleanUpTo(words, seen0, frame1st, i) && frameThis == Seen(words, seen0, i)
      && count == CountFired(words, l0, thr, i)
      && StoredUpTo(words, i, inow, a0, c0, l0)
    }

    /** The state of trig_cds when it gives up: the first flagged pixel,
        its frame id seen, and the pixels before it stored. */
    ghost predicate Failed(words: seq<Word>, seen0: int, a0: seq<seq<int>>, c0: seq<seq<int>>, l0: seq<int>)
      requires Valid()
      reads this, pixelAdc, pixelCds, pixelLast
    {
      && |words| == NPIXS
      && exists s :: FirstFlagged(words, seen0, frame1st, s)
           && frameThis == WordAt(words, s).fid && StoredUpTo(words, s, inow, a0, c0, l0)
    }

    /** One pixel of the column loop: -1 when pixel i fails, otherwise the
        count with pixel i added. */
    method ScanPixel(words: seq<Word>, i: int, count0: int, ghost seen0: int,
                     ghost a0: seq<seq<int>>, ghost c0: seq<seq<int>>, ghost l0: seq<int>)
      returns (count: int)
      requires Valid() && |words| == NPIXS && 0 <= i < NPIXS
      requires Scanned(words, i, count0, seen0, a0, c0, l0)
      modifies this`frameThis, pixelAdc, pixelCds, pixelLast
      ensures Valid()
      ensures count == -1 ==> Failed(words, seen0, a0, c0, l0)
      ensures count != -1 ==> Scanned(words, i + 1, count, seen0, a0, c0, l0)
    {
      var ir, ic := i / NCOLS, i % NCOLS;
      var status, hit := StorePixel(words, i, ir, ic, a0, c0, l0);
      if status != 0 {
        assert FirstFlagged(words, seen0, frame1st, i);
        return -1;
      }
      count := count0;
      if hit {
        count := count + 1;
      }
    }

    /** The column loop of trig_cds for row ir: -1 when a pixel of the row
        fails, otherwise the count so far. */
    method TrigRow(words: seq<Word>, ir: int, count0: int, ghost seen0: int,
                   ghost a0: seq<seq<int>>, ghost c0: seq<seq<int>>, ghost l0: seq<int>)
      returns (count: int)
      requires Valid() && |words| == NPIXS && 0 <= ir < NROWS
      requires Scanned(words, ir * NCOLS, count0, seen0, a0, c0, l0)
      modifies this`frameThis, pixelAdc, pixelCds, pixelLast
      ensures Valid()
      ensures count == -1 ==> Failed(words, seen0, a0, c0, l0)
      ensures count != -1 ==> Scanned(words, (ir + 1) * NCOLS, count, seen0, a0, c0, l0)
    {
      count := count0;
      var i := ir * NCOLS;
      var ic := 0;
      while ic < NCOLS
        invariant 0 <= ic <= NCOLS && i == ir * NCOLS + ic
        invariant Valid() && Scanned(words, i, count, seen0, a0, c0, l0)
      {
        count := ScanPixel(words, i, count, seen0, a0, c0, l0);
        if count == -1 {
          return;
        }
        i := i + 1;
        ic := ic + 1;
      }
    }

    /** trig_cds(): -1 at the first pixel failing the integrity check,
        otherwise the number of pixels whose CDS reaches its threshold; the
        pixels before the failing one are stored all the same. */
    method TrigCds(words: seq<Word>) returns (rv: int)
      requires Valid() && |words| == NPIXS
      modifies this`frameThis, pixelAdc, pixelCds, pixelLast
      ensures Valid()
      ensures rv < 0 <==> !CleanUpTo(words, old(frameThis), frame1st, NPIXS)
      ensures rv < 0 ==>
        rv == -1 && Failed(words, old(frameThis), old(Rows(pixelAdc)), old(Rows(pixelCds)), old(pixelLast[..]))
      ensures rv >= 0 ==>
        && rv == CountFired(words, old(pixelLast[..]), thr, NPIXS)
        && frameThis == WordAt(words, NPIXS - 1).fid
        && StoredUpTo(words, NPIXS, inow, old(Rows(pixelAdc)), old(Rows(pixelCds)), old(pixelLast[..]))
    {
      ghost var seen0 := frameThis;
      ghost var last0 := pixelLast[..];
      ghost var a0, c0 := Rows(pixelAdc), Rows(pixelCds);
      var count := 0;
      var ir := 0;
      while ir < NROWS
        invariant 0 <= ir <= NROWS
        invariant Valid() && Scanned(words, ir * NCOLS, count, seen0, a0, c0, last0)
      {
        count := TrigRow(words, ir, count, seen0, a0, c0, last0);
        if count == -1 {
          return -1;
        }
        ir := ir + 1;
      }
      rv := count;
    }

    /** record_frame(ith): the frame in slot ith goes to the tree and the
        raw file with the current frame number and trigger pattern. */
    method RecordFrame(ith: int)
      modifies this`records, this`nrecords
      ensures records == old(records) + [FpgaRecord(ith, frame, trig)]
      ensures nrecords == old(nrecords) + 1
    {
      records := records + [FpgaRecord(ith, frame, trig)];
      nrecords := nrecords + 1;
    }

    /** record_pre_trigs(): the min(pre_trigs, saved) frames before the
        current one and the current one, oldest first; the frame number and
        trigger pattern are rewritten per record and end at their entry
        values. */
    method RecordPreTrigs() returns (nrec: int)
      requires 0 <= saved && 0 <= preTrigs
      modifies this`frame, this`trig, this`records, this`nrecords
      ensures frame == old(frame) && trig == old(trig)
      ensures nrec == PreCount(preTrigs, saved) + 1
      ensures records == old(records) + PreRecords(inow, size, frame, trig, PreCount(preTrigs, saved))
      ensures nrecords == old(nrecords) + nrec
    {
      nrec := 0;
      var pre := preTrigs;
      if saved < pre {
        pre := saved;
      }
      ghost var k := pre;
      var f, t := frame, trig;
      ghost var want := PreRecords(inow, size, f, t, k);
      while pre >= 0
        invariant -1 <= pre <= k && nrec == k - pre
        invariant records == old(records) + want[..k - pre]
        invariant nrecords == old(nrecords) + nrec
        invariant pre == k ==> frame == f && trig == t
        invariant pre < k ==> frame == f - (pre + 1) && trig == (if pre + 1 > 0 then 0 else t)
      {
        nrec := nrec + 1;
        var ith := inow - pre;
        if ith < 0 {
          ith := ith + size;
        }
        frame := f - pre;
        if pre > 0 {
          trig := 0;
        } else {
          trig := t;
        }
        RecordFrame(ith);
        assert want[..k - pre + 1] == want[..k - pre] + [want[k - pre]];
        pre := pre - 1;
      }
      assert want[..k + 1] == want;
    }

    /** The branch table of do_trigger and the move to the next slot and
        frame, once the trigger pattern t of a passed frame is known and the
        current slot holds it. */
    method TakeData(t: int)
      requires Valid() && slotFrame[inow] == frame
      modifies this`postTrigs, this`saved, this`inow, this`frame, this`trig, this`records, this`nrecords
      ensures Valid()
      ensures Tallied() == Take(old(Tallied()), t, preTrigs, postTrigsRun, size)
      ensures HeldFrom(|old(records)|)
    {
      ghost var r0 := records;
      TriggerKeepsOrder(records, frame, saved, postTrigs, t, inow, size, preTrigs);
      RecordsHoldFrames(slotFrame, inow, frame, size, saved, postTrigs, t, preTrigs);
      SlotAdvance(slotFrame, inow, frame, size);
      trig := t;
      if t != 0 {
        if postTrigs > 0 {
          RecordFrame(inow);
        } else {
          postTrigs := postTrigsRun;
          var n := RecordPreTrigs();
          saved := 0;
        }
      } else {
        if postTrigs > 0 {
          RecordFrame(inow);
          postTrigs := postTrigs - 1;
        } else {
          saved := saved + 1;
        }
      }
      inow := (inow + 1) % size;
      frame := frame + 1;
    }

    /** The current slot now holds frame v (-1: no whole frame). */
    method MarkSlot(v: int)
      requires Valid()
      modifies this`slotFrame
      ensures Valid() && slotFrame == old(slotFrame)[inow := v]
    {
      SlotOverwrite(slotFrame, inow, frame, size, v);
      slotFrame := slotFrame[inow := v];
    }

    /** trig_cds() on the current slot; the slot now holds the frame, or
        no whole frame when the check failed. */
    method CheckFrame(words: seq<Word>) returns (retval: int)
      requires Valid() && |words| == NPIXS
      modifies this`frameThis, this`slotFrame, pixelAdc, pixelCds, pixelLast
      ensures Valid()
      ensures retval < 0 <==> !CleanUpTo(words, old(frameThis), frame1st, NPIXS)
      ensures retval < 0 ==>
        && retval == -1 && slotFrame[inow] == -1
        && Failed(words, old(frameThis), old(Rows(pixelAdc)), old(Rows(pixelCds)), old(pixelLast[..]))
      ensures retval >= 0 ==>
        && retval == CountFired(words, old(pixelLast[..]), thr, NPIXS) && slotFrame[inow] == frame
        && StoredUpTo(words, NPIXS, inow, old(Rows(pixelAdc)), old(Rows(pixelCds)), old(pixelLast[..]))
    {
      retval := TrigCds(words);
      MarkSlot(if retval < 0 then -1 else frame);
    }

    /** do_trigger(): the trigger pattern of the frame in `words`, or -1
        when it fails the integrity check; a failed frame moves neither
        the slot nor the frame number. */
    method DoTrigger(words: seq<Word>) returns (rv: int)
      requires Valid() && |words| == NPIXS
      modifies this`frameThis, this`postTrigs, this`saved, this`inow, this`frame, this`trig,
        this`records, this`nrecords, this`slotFrame, pixelAdc, pixelCds, pixelLast
      ensures Valid()
      ensures rv < 0 <==> !CleanUpTo(words, old(frameThis), frame1st, NPIXS)
      ensures rv < 0 ==>
        && rv == -1 && Tallied() == old(Tallied())
        && Failed(words, old(frameThis), old(Rows(pixelAdc)), old(Rows(pixelCds)), old(pixelLast[..]))
      ensures rv >= 0 ==>
        && rv == TrigPattern(old(frame), trigPeriod, CountFired(words, old(pixelLast[..]), thr, NPIXS))
        && Tallied() == Take(old(Tallied()), rv, preTrigs, postTrigsRun, size)
        && StoredUpTo(words, NPIXS, old(inow), old(Rows(pixelAdc)), old(Rows(pixelCds)), old(pixelLast[..]))
      ensures HeldFrom(|old(records)|)
    {
      var t := 0;
      if frame % trigPeriod == 0 {
        t := t + TRIG_PERIOD;
      }
      var retval := CheckFrame(words);
      if retval < 0 {
        return retval;
      }
      if retval != 0 {
        t := t + TRIG_CDS;
      }
      TakeData(t);
      rv := t;
    }

    /** One frame of the read loop: a failed frame ends the loop; a passed
        one is counted, and with it the first frame is over. */
    method ReadStep(words: seq<Word>) returns (status: int)
      requires Valid() && |words| == NPIXS
      modifies this`frameThis, this`postTrigs, this`saved, this`inow, this`frame, this`trig,
        this`records, this`nrecords, this`slotFrame, this`frame1st, this`ntrigs, this`nreads,
        pixelAdc, pixelCds, pixelLast
      ensures Valid()
      ensures status < 0 <==> !CleanUpTo(words, old(frameThis), old(frame1st), NPIXS)
      ensures status < 0 ==>
        && Tallied() == old(Tallied())
        && frame1st == old(frame1st) && ntrigs == old(ntrigs) && nreads == old(nreads)
      ensures status >= 0 ==>
        && status == TrigPattern(old(frame), trigPeriod, CountFired(words, old(pixelLast[..]), thr, NPIXS))
        && Tallied() == Take(old(Tallied()), status, preTrigs, postTrigsRun, size)
        && !frame1st && nreads == old(nreads) + 1
        && ntrigs == old(ntrigs) + (if status != 0 then 1 else 0)
    {
      status := DoTrigger(words);
      if status < 0 {
        return;
      }
      CountFrame(status);
    }

    /** The counters of a passed frame with trigger pattern t. */
    method CountFrame(t: int)
      modifies this`ntrigs, this`frame1st, this`nreads
      ensures ntrigs == old(ntrigs) + (if t != 0 then 1 else 0)
      ensures !frame1st && nreads == old(nreads) + 1
    {
      if t != 0 {
        ntrigs := ntrigs + 1;
      }
      if frame1st {
        frame1st := false;
      }
      nreads := nreads + 1;
    }

    /** The resynchronisation of start_run before each read loop: search
        for the last pixel, then treat the next frame as a first frame. */
    method Resync(stream: seq<Word>) returns (yes: bool, count: int)
      requires |stream| > NROWS * NCOLS
      modifies this`frame1st
      ensures frame1st
      ensures yes <==> FirstSentinel(stream, 0) < NPIXS
      ensures count == if yes then FirstSentinel(stream, 0) + 1 else NPIXS + 1
    {
      yes, count := LocateLastPixel(stream);
      frame1st := true;
    }
  }
}
