/** Frame checks of the threaded DAQ (SupixDAQ.cxx): the per-frame integrity
    check of the reader and the search for the last pixel that
    re-synchronises the reader with the FIFO stream. */
module Integrity {
  import opened SupixDefs
  import opened PixelCodec

  // check_integrity result bits
  const WRONG_COL: int := 0x1
  const WRONG_ROW: int := 0x2
  const WRONG_FSAME: int := 0x4   // not the same frame id within a frame
  const WRONG_FCONS: int := 0x8   // frame id not consecutive to the last frame

  /** The frame-id distance in check_integrity: fid - last taken cyclically
      in 1 .. 16, so 16 means "the same id again". */
  function FidDiff(fid: int, last: int): (d: int)
    requires 0 <= fid < FID_MAX && 0 <= last < FID_MAX
    ensures 1 <= d <= FID_MAX
    ensures d == 1 <==> fid == (last + 1) % FID_MAX
    ensures d == FID_MAX <==> fid == last
  {
    if fid > last then fid - last else FID_MAX + fid - last
  }

  /** The frame id of the first word, which every other word must repeat. */
  function FrameFid(frame: seq<Word>): int
    requires |frame| == NPIXS
  {
    Decode(frame[0]).fid
  }

  /** What a well-formed word i of a frame looks like: column i mod 16,
      row i / 16 + 1 (rows count from 1), the frame's id, and that id one
      past the last good frame's id unless there is no last good frame
      (fidLast == 16). */
  predicate WordOk(frame: seq<Word>, fidLast: int, i: int)
    requires |frame| == NPIXS && 0 <= i < NPIXS
  {
    var p := Decode(frame[i]);
    && p.col == i % NCOLS
    && p.row == i / NCOLS + 1
    && (i == 0 || p.fid == FrameFid(frame))
    && (fidLast == FID_MAX || p.fid == (fidLast + 1) % FID_MAX)
  }

  /** The bits check_integrity sets for word i (the bits are distinct, so
      the source's `|=` is a sum here). */
  function WordFlags(frame: seq<Word>, fidLast: int, i: int): (f: int)
    requires |frame| == NPIXS && 0 <= i < NPIXS && 0 <= fidLast <= FID_MAX
    ensures 0 <= f < 16
    ensures f == 0 <==> WordOk(frame, fidLast, i)
  {
    var p := Decode(frame[i]);
    (if i > 0 && p.fid != FrameFid(frame) then WRONG_FSAME else 0)
    + (if i / NCOLS + 1 != p.row then WRONG_ROW else 0)
    + (if i % NCOLS != p.col then WRONG_COL else 0)
    + (if fidLast < FID_MAX && FidDiff(p.fid, fidLast) != 1 then WRONG_FCONS else 0)
  }

  /** Each bit of a word's flags reports one fault of that word. */
  lemma FlagBits(frame: seq<Word>, fidLast: int, i: int)
    requires |frame| == NPIXS && 0 <= i < NPIXS && 0 <= fidLast <= FID_MAX
    ensures var f := WordFlags(frame, fidLast, i);
      && (f % 2 == 1 <==> Decode(frame[i]).col != i % NCOLS)
      && ((f / 2) % 2 == 1 <==> Decode(frame[i]).row != i / NCOLS + 1)
      && ((f / 4) % 2 == 1 <==> i > 0 && Decode(frame[i]).fid != FrameFid(frame))
      && (f / 8 == 1 <==> fidLast < FID_MAX && Decode(frame[i]).fid != (fidLast + 1) % FID_MAX)
  {
  }

  /** The scan from word i on: the flags of the first bad word, or 0. */
  function ScanFrom(frame: seq<Word>, fidLast: int, i: int): (r: int)
    requires |frame| == NPIXS && 0 <= i <= NPIXS && 0 <= fidLast <= FID_MAX
    ensures 0 <= r < 16
    decreases NPIXS - i
  {
    if i == NPIXS then 0
    else if WordFlags(frame, fidLast, i) != 0 then WordFlags(frame, fidLast, i)
    else ScanFrom(frame, fidLast, i + 1)
  }

  /** A frame check_integrity accepts. */
  predicate CleanFrame(frame: seq<Word>, fidLast: int)
    requires |frame| == NPIXS
  {
    forall i :: 0 <= i < NPIXS ==> WordOk(frame, fidLast, i)
  }

  /** The scan finds nothing exactly when every remaining word is good. */
  lemma {:induction false} ScanZeroIff(frame: seq<Word>, fidLast: int, i: int)
    requires |frame| == NPIXS && 0 <= i <= NPIXS && 0 <= fidLast <= FID_MAX
    ensures ScanFrom(frame, fidLast, i) == 0 <==> forall j :: i <= j < NPIXS ==> WordOk(frame, fidLast, j)
    decreases NPIXS - i
  {
    if i < NPIXS {
      ScanZeroIff(frame, fidLast, i + 1);
    }
  }

  /** A frame is clean iff every word sits at its own row and column, all
      words carry one frame id, and that id follows the last good one (or
      there is none). */
  lemma CleanFrameIff(frame: seq<Word>, fidLast: int)
    requires |frame| == NPIXS && 0 <= fidLast <= FID_MAX
    ensures CleanFrame(frame, fidLast) <==>
      (forall i :: 0 <= i < NPIXS ==>
        Decode(frame[i]).col == i % NCOLS && Decode(frame[i]).row == i / NCOLS + 1 &&
        Decode(frame[i]).fid == FrameFid(frame))
      && (fidLast == FID_MAX || FrameFid(frame) == (fidLast + 1) % FID_MAX)
  {
    var f0 := FrameFid(frame);
    if CleanFrame(frame, fidLast) {
      assert WordOk(frame, fidLast, 0);
      forall i | 0 <= i < NPIXS
        ensures Decode(frame[i]).col == i % NCOLS && Decode(frame[i]).row == i / NCOLS + 1
        ensures Decode(frame[i]).fid == f0
      {
        assert WordOk(frame, fidLast, i);
      }
    }
    if (forall i :: 0 <= i < NPIXS ==>
          Decode(frame[i]).col == i % NCOLS && Decode(frame[i]).row == i / NCOLS + 1 &&
          Decode(frame[i]).fid == f0)
       && (fidLast == FID_MAX || f0 == (fidLast + 1) % FID_MAX)
    {
      forall i | 0 <= i < NPIXS
        ensures WordOk(frame, fidLast, i)
      {
      }
    }
  }

  /** A nonzero result is the flags of the first bad word; all words
      before it are good. */
  lemma {:induction false} FirstBadWord(frame: seq<Word>, fidLast: int, i: int) returns (k: int)
    requires |frame| == NPIXS && 0 <= i <= NPIXS && 0 <= fidLast <= FID_MAX
    requires ScanFrom(frame, fidLast, i) != 0
    ensures i <= k < NPIXS && ScanFrom(frame, fidLast, i) == WordFlags(frame, fidLast, k)
    ensures !WordOk(frame, fidLast, k)
    ensures forall j :: i <= j < k ==> WordOk(frame, fidLast, j)
    decreases NPIXS - i
  {
    if WordFlags(frame, fidLast, i) != 0 {
      k := i;
    } else {
      k := FirstBadWord(frame, fidLast, i + 1);
    }
  }

  /** The body of the pixel loop of check_integrity for word (ir, ic),
      with the frame id `fidNow` taken from word (0, 0). */
  method CheckWord(frame: seq<Word>, fidLast: int, ir: int, ic: int, fidNow: int) returns (rv: int)
    requires |frame| == NPIXS && 0 <= fidLast <= FID_MAX
    requires 0 <= ir < NROWS && 0 <= ic < NCOLS && fidNow == FrameFid(frame)
    ensures rv == WordFlags(frame, fidLast, ir * NCOLS + ic)
  {
    var i := ir * NCOLS + ic;
    DivMod(i, NCOLS, ir, ic);
    var p := Decode(frame[i]);
    rv := 0;
    if !(ir == 0 && ic == 0) && p.fid != fidNow {
      rv := rv + WRONG_FSAME;
    }
    if ir + 1 != p.row { rv := rv + WRONG_ROW; }
    if ic != p.col { rv := rv + WRONG_COL; }
    if fidLast < FID_MAX {
      var diff := FidDiff(p.fid, fidLast);
      if diff != 1 { rv := rv + WRONG_FCONS; }
    }
  }

  /** check_integrity, with the static fid_last passed in and out: the
      nested row/column scan stops at the first word with a nonzero flag.
      A good frame makes its id the last good id; a bad one resets it to 16,
      so the next frame is not checked for consecutiveness. */
  method CheckIntegrity(frame: seq<Word>, fidLast: int) returns (rv: int, fidLastOut: int)
    requires |frame| == NPIXS && 0 <= fidLast <= FID_MAX
    ensures rv == ScanFrom(frame, fidLast, 0) && 0 <= rv < 16
    ensures rv == 0 <==> CleanFrame(frame, fidLast)
    ensures fidLastOut == if rv == 0 then FrameFid(frame) else FID_MAX
    ensures 0 <= fidLastOut <= FID_MAX
  {
    rv := 0;
    var fidNow := 0;
    var ir := 0;
    while ir < NROWS
      invariant 0 <= ir <= NROWS && rv == 0
      invariant ScanFrom(frame, fidLast, 0) == ScanFrom(frame, fidLast, ir * NCOLS)
      invariant ir > 0 ==> fidNow == FrameFid(frame)
    {
      var ic := 0;
      while ic < NCOLS
        invariant 0 <= ic <= NCOLS && rv == 0
        invariant ScanFrom(frame, fidLast, 0) == ScanFrom(frame, fidLast, ir * NCOLS + ic)
        invariant ir * NCOLS + ic > 0 ==> fidNow == FrameFid(frame)
      {
        var i := ir * NCOLS + ic;
        var p := Decode(frame[i]);
        if ir == 0 && ic == 0 {
          fidNow := p.fid;
        }
        rv := CheckWord(frame, fidLast, ir, ic, fidNow);
        if rv != 0 {
          break;
        }
        ic := ic + 1;
      }
      if rv != 0 {
        break;
      }
      ir := ir + 1;
    }
    ScanZeroIff(frame, fidLast, 0);
    if rv == 0 {
      fidLastOut := fidNow;
    } else {
      fidLastOut := FID_MAX;
    }
  }

  // ---------------------------------------------------------------------
  // Re-synchronisation with the FIFO stream

  /** A word whose pixel address (row << 4) + col is the last pixel's. */
  predicate IsSentinel(w: Word) {
    Address(Decode(w)) == LAST_PIXEL_ADDR
  }

  /** read_fifo maps a request of 0 bytes to a whole frame: it never asks
      read_all for nothing, it honours every other size, and a request of
      at most a frame stays a nonempty request of at most a frame. */
  function ReadRequest(nbyte: int): (n: int)
    ensures n != 0
    ensures nbyte != 0 ==> n == nbyte
    ensures nbyte == 0 ==> n == FRAMESIZE
    ensures 0 <= nbyte <= FRAMESIZE ==> 0 < n <= FRAMESIZE
  {
    if nbyte == 0 then FRAMESIZE else nbyte
  }

  /** The bytes locate_last_pixel reads after finding the sentinel at word k
      of the first frame read: 4 * (NPIXS - k - 1), through read_fifo. */
  function LocateForward(k: int): int {
    ReadRequest(4 * (NPIXS - k - 1))
  }

  /** For a sentinel inside the frame the forward read is a whole number of
      words, between one word and a frame, and skips the NPIXS - 1 - k
      words after the sentinel modulo a frame; a sentinel in the last word
      makes read_fifo read a whole further frame. */
  lemma LocateForwardWords(k: int)
    requires 0 <= k < NPIXS
    ensures 0 < LocateForward(k) <= FRAMESIZE && LocateForward(k) % 4 == 0
    ensures (LocateForward(k) / 4) % NPIXS == NPIXS - 1 - k
    ensures LocateForward(k) == FRAMESIZE <==> k == NPIXS - 1
  {
    if k < NPIXS - 1 {
      assert LocateForward(k) == 4 * (NPIXS - k - 1);
    } else {
      assert LocateForward(k) == FRAMESIZE;
    }
  }

  /** locate_last_pixel for a first read that returned `rv1` bytes into a
      buffer now holding `words`; the run status after that read and the
      result `rv2` of the second read are parameters. Answers the value the
      source returns, the index the search stopped at, and the size of the
      second read request (0 when it makes none). Without a sentinel it
      answers the first read's count, not -1. */
  method LocateLastPixel(words: seq<Word>, rv1: int, stopped: bool, rv2: int)
    returns (rv: int, npix: int, forward: int)
    requires |words| == NPIXS
    ensures stopped ==> rv == rv1 && forward == 0
    ensures !stopped ==> 0 <= npix <= NPIXS
    ensures !stopped ==> forall j :: 0 <= j < npix ==> !IsSentinel(words[j])
    ensures !stopped && npix < NPIXS ==> IsSentinel(words[npix])
    ensures !stopped && npix < NPIXS ==> forward == LocateForward(npix) && 0 < forward <= FRAMESIZE && rv == rv2
    ensures !stopped && npix == NPIXS ==> forward == 0 && rv == rv1
  {
    rv := rv1;
    npix := 0;
    forward := 0;
    if stopped {
      return;
    }
    while npix < NPIXS
      invariant 0 <= npix <= NPIXS
      invariant forall j :: 0 <= j < npix ==> !IsSentinel(words[j])
    {
      var p := Decode(words[npix]);
      if p.row * 0x10 + p.col == LAST_PIXEL_ADDR {
        break;
      }
      npix := npix + 1;
    }
    if npix < NPIXS {
      forward := ReadRequest(4 * (NPIXS - npix - 1));
      rv := rv2;
    }
  }

  // ---------------------------------------------------------------------
  // The forward count against a well-formed stream

  /** Word p of a well-formed FIFO stream: pixel p mod 1024 of frame
      p / 1024, with consecutive frame ids. */
  function StreamWord(p: nat): Word {
    var q := Pixel((p / NPIXS) % FID_MAX, (p % NPIXS) / NCOLS + 1, p % NCOLS, 0);
    Encode(q)
  }

  /** The words of stream positions s .. s + n - 1. */
  function Window(s: nat, n: nat): (w: seq<Word>)
    ensures |w| == n
  {
    seq<Word>(n, i requires 0 <= i < n => StreamWord(s + i))
  }

  /** In a well-formed stream only the last word of a frame is a
      sentinel. */
  lemma StreamSentinel(p: nat)
    ensures IsSentinel(StreamWord(p)) <==> p % NPIXS == NPIXS - 1
  {
    var r := p % NPIXS;
    var q := Pixel((p / NPIXS) % FID_MAX, r / NCOLS + 1, p % NCOLS, 0);
    DecodeEncode(q);
    assert r % NCOLS == p % NCOLS by {
      DivMod(p, NCOLS, (p / NPIXS) * 64 + r / NCOLS, r % NCOLS);
    }
    assert Address(q) == r + NCOLS by {
      assert r == (r / NCOLS) * NCOLS + r % NCOLS;
    }
  }

  /** Reading a frame that starts s words into a stream frame, the search
      stops at word NPIXS - 1 - s. */
  lemma SentinelInWindow(s: nat)
    requires s < NPIXS
    ensures forall j :: 0 <= j < NPIXS - 1 - s ==> !IsSentinel(Window(s, NPIXS)[j])
    ensures IsSentinel(Window(s, NPIXS)[NPIXS - 1 - s])
  {
    forall j | 0 <= j < NPIXS - 1 - s
      ensures !IsSentinel(Window(s, NPIXS)[j])
    {
      StreamSentinel(s + j);
      ModSmall(s + j, NPIXS);
    }
    StreamSentinel(NPIXS - 1);
    ModSmall(NPIXS - 1, NPIXS);
  }

  /** As written: starting s words into a frame, the reader ends up 2*s
      words (mod 1024) into a frame after locate_last_pixel, so it is on a
      frame boundary only for s = 0 and s = 512. */
  lemma LocateAsWrittenOffset(s: nat)
    requires s < NPIXS
    ensures (s + NPIXS + LocateForward(NPIXS - 1 - s) / 4) % NPIXS == (2 * s) % NPIXS
  {
    if s == 0 {
      DivMod(2 * NPIXS, NPIXS, 2, 0);
    } else {
      DivMod(2 * s + NPIXS, NPIXS, 1 + (2 * s) / NPIXS, (2 * s) % NPIXS);
    }
  }

  /** A stream entered one word into a frame is left two words into a frame. */
  lemma LocateMisaligns()
    ensures LocateForward(NPIXS - 1 - 1) == 4
    ensures (1 + NPIXS + LocateForward(NPIXS - 1 - 1) / 4) % NPIXS == 2
  {
    LocateAsWrittenOffset(1);
  }

  /** The evidently intended forward count: the k + 1 words of the next
      frame that the first read did not reach. */
  function LocateForwardFixed(k: int): int {
    4 * (k + 1)
  }

  /** With the intended count the reader lands on a frame boundary from any
      starting offset. */
  lemma LocateFixedAligns(s: nat)
    requires s < NPIXS
    ensures 0 < LocateForwardFixed(NPIXS - 1 - s) <= FRAMESIZE
    ensures (s + NPIXS + LocateForwardFixed(NPIXS - 1 - s) / 4) % NPIXS == 0
  {
    DivMod(2 * NPIXS, NPIXS, 2, 0);
  }
}
