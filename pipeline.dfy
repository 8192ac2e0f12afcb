/** The cyclic frame pipeline shared by the reader thread (RD) and the
    writer thread (WR): pipeline_t in pipeline.h and pipeline.cxx.

    The read-write lock of the source only serialises the calls, so each
    method of `Pipe` is one atomic step; arbitrary interleavings of reader
    and writer steps are modelled by `Run` over a sequence of `Op`s. The
    frame bytes live outside the lock; a slot is named by its index
    (the source returns `buffer + index * framesize`). */
module Pipeline {

  import opened SupixDefs

  /** OUT_MODE_t: T = a trigger fired on this frame, P = a post-trigger
      window is open. */
  datatype OutMode = T0P0 | T1P0 | T0P1 | T1P1 | Noise

  /** The counters of a pipeline together with its fixed capacities. */
  datatype PipeState = PipeState(
    inPos: int,    // _in: next slot the reader fills
    outPos: int,   // _out: slot the writer processes
    saved: int,    // _saved: frames filled and not yet processed
    pre: int,      // _pre: processed frames kept for pre-trigger replay
    post: int,     // _post: post-trigger frames still to write
    first: int,    // _first: -1, or the slot of the first frame after a gap
    max: int,      // _max_
    preMax: int,   // _pre_max
    postMax: int)  // _post_max

  // ---------------------------------------------------------------------
  // The operations, as functions of the state

  /** The state the constructor pipeline_t(fs, mx, prmx, pomx) builds. */
  function Initial(mx: int, prmx: int, pomx: int): PipeState {
    PipeState(0, 0, 0, 0, 0, -1, if mx <= prmx then 1 + prmx else mx, prmx, pomx)
  }

  /** `x++; if (x == max) x = 0;` */
  function Inc(x: int, max: int): int {
    if x + 1 == max then 0 else x + 1
  }

  /** is_full() */
  predicate Full(s: PipeState) {
    s.saved + s.pre == s.max
  }

  /** is_new() */
  predicate New(s: PipeState) {
    s.saved > 0
  }

  /** The answer of next_in(isFirst): true means "wait, the last first frame
      is not yet processed by the writer". */
  predicate NextInWaits(s: PipeState, isFirst: bool) {
    isFirst && s.first >= 0
  }

  /** The state after next_in(isFirst). */
  function AfterNextIn(s: PipeState, isFirst: bool): PipeState {
    if NextInWaits(s, isFirst) then s
    else s.(first := if isFirst then s.inPos else s.first,
            inPos := Inc(s.inPos, s.max),
            saved := s.saved + 1)
  }

  /** The answer of is_first(). */
  predicate FirstIsOut(s: PipeState) {
    s.first == s.outPos
  }

  /** The state after reset_first(). */
  function AfterResetFirst(s: PipeState): PipeState {
    s.(first := -1, post := 0, pre := 0)
  }

  /** The state after is_first(). */
  function AfterIsFirst(s: PipeState): PipeState {
    if FirstIsOut(s) then s.(first := -1, post := 0, pre := 0) else s
  }

  /** The state after next_out(mode). */
  function AfterNextOut(s: PipeState, mode: OutMode): PipeState {
    var saved := s.saved - 1;
    var outPos := if saved == 0 && s.outPos == s.inPos then s.outPos else Inc(s.outPos, s.max);
    var s1 := s.(saved := saved, outPos := outPos);
    match mode
    case T0P0 => s1.(pre := if s1.pre < s1.preMax then s1.pre + 1 else s1.pre)
    case T1P0 => s1.(pre := 0, post := s1.postMax)
    case T0P1 => s1.(post := s1.post - 1)
    case _ => s1
  }

  /** The slot get_pre_ptr(n) addresses. */
  function PreSlot(s: PipeState, n: int): int {
    var p := s.outPos - s.pre + n;
    if p < 0 then p + s.max else p
  }

  // ---------------------------------------------------------------------
  // Invariants

  /** What every operation keeps, whatever the callers do. */
  predicate Wf(s: PipeState) {
    && 0 <= s.preMax < s.max
    && 0 <= s.postMax
    && 0 <= s.inPos < s.max
    && 0 <= s.outPos < s.max
    && 0 <= s.pre <= s.preMax
    && (s.first == -1 || 0 <= s.first < s.max)
  }

  /** What the operations keep under the callers' wait discipline: the
      counters are in range and the filled frames run from `outPos` to
      `inPos`. */
  predicate Inv(s: PipeState) {
    && Wf(s)
    && 0 <= s.saved
    && s.saved + s.pre <= s.max
    && 0 <= s.post <= s.postMax
    && (s.outPos + s.saved) % s.max == s.inPos
  }

  /** A set first-frame marker always names a frame still waiting to be
      processed, so the writer meets it before it moves past it. */
  predicate MarkerInv(s: PipeState)
    requires Wf(s)
  {
    s.first == -1 || (s.first - s.outPos) % s.max < s.saved
  }

  // ---------------------------------------------------------------------
  // Interleavings of atomic calls

  /** One locked call of either thread. */
  datatype Op =
    | IsFullOp | NextInOp(isFirst: bool)                      // reader
    | IsNewOp | IsFirstOp | ResetFirstOp | NextOutOp(mode: OutMode) // writer

  predicate IsReaderOp(op: Op) {
    op.IsFullOp? || op.NextInOp?
  }

  function Apply(s: PipeState, op: Op): PipeState {
    match op
    case IsFullOp => s
    case NextInOp(f) => AfterNextIn(s, f)
    case IsNewOp => s
    case IsFirstOp => AfterIsFirst(s)
    case ResetFirstOp => AfterResetFirst(s)
    case NextOutOp(m) => AfterNextOut(s, m)
  }

  /** The callers' wait discipline (SupixDAQ.cxx reader_run/writer_run):
      the reader calls next_in only once is_full() said false; the writer
      calls next_out only after is_new() said true and is_first() cleared a
      marker at `outPos`, and chooses T0P1 only when is_post() said true. */
  predicate Allowed(s: PipeState, op: Op) {
    match op
    case NextInOp(_) => !Full(s)
    case NextOutOp(m) => s.saved > 0 && s.first != s.outPos && (m == T0P1 ==> s.post > 0)
    case _ => true
  }

  function Run(s: PipeState, ops: seq<Op>): PipeState
    decreases |ops|
  {
    if ops == [] then s else Run(Apply(s, ops[0]), ops[1..])
  }

  predicate AllAllowed(s: PipeState, ops: seq<Op>)
    decreases |ops|
  {
    ops == [] || (Allowed(s, ops[0]) && AllAllowed(Apply(s, ops[0]), ops[1..]))
  }

  // ---------------------------------------------------------------------
  // Properties

  /** The constructor forces room for the pre-trigger frames and starts
      empty with no marker. */
  lemma InitialInv(mx: int, prmx: int, pomx: int)
    requires 0 <= prmx && 0 <= pomx
    ensures Initial(mx, prmx, pomx).max >= prmx + 1
    ensures Inv(Initial(mx, prmx, pomx)) && MarkerInv(Initial(mx, prmx, pomx))
  {
  }

  /** Every operation keeps the structural bounds, whoever calls it. */
  lemma WfKept(s: PipeState, op: Op)
    requires Wf(s)
    ensures Wf(Apply(s, op))
  {
  }

  /** The cyclic increment is addition modulo the capacity. */
  lemma IncIsMod(x: int, max: int)
    requires 0 <= x < max
    ensures Inc(x, max) == (x + 1) % max
  {
    if x + 1 < max {
      ModSmall(x + 1, max);
    } else {
      ModSmall(0, max);
      ModShift(0, max);
    }
  }

  /** inPos is outPos + saved, wrapped at most once. */
  lemma InPosValue(s: PipeState)
    requires Inv(s)
    ensures s.inPos == s.outPos + s.saved || s.inPos == s.outPos + s.saved - s.max
  {
    var d := s.outPos + s.saved;
    if d < s.max {
      ModSmall(d, s.max);
    } else {
      DivMod(d, s.max, 1, d - s.max);
    }
  }

  /** With an occupied count below the capacity, the distance from outPos to
      inPos is the number of saved frames. */
  lemma DistanceIsSaved(s: PipeState)
    requires Inv(s) && s.saved < s.max
    ensures (s.inPos - s.outPos) % s.max == s.saved
  {
    InPosValue(s);
    ModSmall(s.saved, s.max);
    if s.inPos != s.outPos + s.saved {
      ModShift(s.saved - s.max, s.max);
    }
  }

  /** One allowed call keeps the invariant and the marker invariant. */
  lemma StepInv(s: PipeState, op: Op)
    requires Inv(s) && MarkerInv(s) && Allowed(s, op)
    ensures Inv(Apply(s, op)) && MarkerInv(Apply(s, op))
  {
    var t := Apply(s, op);
    match op
    case NextInOp(f) =>
      if !NextInWaits(s, f) {
        IncIsMod(s.inPos, s.max);
        ModAddOne(s.outPos + s.saved, s.max);
        if f {
          DistanceIsSaved(s);
        }
      }
    case NextOutOp(m) =>
      NextOutInv(s, m);
    case _ =>
  }

  lemma NextOutInv(s: PipeState, m: OutMode)
    requires Inv(s) && MarkerInv(s) && Allowed(s, NextOutOp(m))
    ensures Inv(AfterNextOut(s, m)) && MarkerInv(AfterNextOut(s, m))
  {
    var t := AfterNextOut(s, m);
    var saved := s.saved - 1;
    if saved == 0 && s.outPos == s.inPos {
      // (outPos + 1) % max == outPos forces a single-slot pipeline
      if s.outPos + 1 < s.max {
        ModSmall(s.outPos + 1, s.max);
      } else {
        DivMod(s.outPos + 1, s.max, 1, 0);
      }
      assert s.max == 1;
    } else {
      IncIsMod(s.outPos, s.max);
      ModSum(s.outPos + 1, saved, s.max);
    }
    if s.first != -1 {
      MarkerStep(s);
    }
  }

  /** next_out moves the writer one slot closer to a marker it has not
      reached. */
  lemma MarkerStep(s: PipeState)
    requires Inv(s) && MarkerInv(s) && s.saved > 0 && s.first != s.outPos && s.first != -1
    ensures var d := (s.first - s.outPos) % s.max;
      0 < d < s.saved && (s.first - Inc(s.outPos, s.max)) % s.max == d - 1
  {
    var d := (s.first - s.outPos) % s.max;
    var diff := s.first - s.outPos;
    if diff >= 0 {
      ModSmall(diff, s.max);
    } else {
      ModShift(diff, s.max);
      ModSmall(diff + s.max, s.max);
    }
    assert d != 0;
    var o := Inc(s.outPos, s.max);
    if o == 0 {
      assert s.outPos == s.max - 1;
      ModSmall(s.first, s.max);
      assert diff < 0 && d == diff + s.max;
    } else {
      var diff2 := s.first - o;
      if diff2 >= 0 {
        ModSmall(diff2, s.max);
      } else {
        ModShift(diff2, s.max);
        ModSmall(diff2 + s.max, s.max);
      }
    }
  }

  /** Under the wait discipline, any interleaving of reader and writer calls
      keeps the invariant, starting from the constructor's state. */
  lemma {:induction false} RunInv(s: PipeState, ops: seq<Op>)
    requires Inv(s) && MarkerInv(s) && AllAllowed(s, ops)
    ensures Inv(Run(s, ops)) && MarkerInv(Run(s, ops))
    decreases |ops|
  {
    if ops != [] {
      StepInv(s, ops[0]);
      RunInv(Apply(s, ops[0]), ops[1..]);
    }
  }

  /** is_full() and is_new() are stable for the thread that asked: writer
      calls never fill a pipeline the reader saw non-full, and reader calls
      never empty a pipeline the writer saw non-empty, nor change the
      post-window count the writer bases its mode on. */
  lemma Stability(s: PipeState, op: Op)
    requires Inv(s) && Allowed(s, op)
    ensures !IsReaderOp(op) && !Full(s) ==> !Full(Apply(s, op))
    ensures IsReaderOp(op) && New(s) ==> New(Apply(s, op))
    ensures IsReaderOp(op) ==> Apply(s, op).post == s.post && Apply(s, op).outPos == s.outPos
  {
  }

  /** A marker the reader sets never lands on the slot the writer holds,
      so after is_first() the writer can call next_out without meeting an
      unprocessed marker at outPos. */
  lemma ReaderNeverMarksOut(s: PipeState, f: bool)
    requires Inv(s) && !Full(s) && s.saved > 0 && s.first != s.outPos
    ensures AfterNextIn(s, f).first != AfterNextIn(s, f).outPos
  {
    if f && s.first < 0 {
      DistanceIsSaved(s);
      if s.inPos == s.outPos {
        ModSmall(0, s.max);
      }
    }
  }

  /** reset_first() clears exactly the marker and the two window counts,
      like the taken branch of is_first(), and is idempotent. */
  lemma ResetFirstEffect(s: PipeState)
    ensures var t := AfterResetFirst(s);
      t.first == -1 && t.pre == 0 && t.post == 0 &&
      t.inPos == s.inPos && t.outPos == s.outPos && t.saved == s.saved &&
      t.max == s.max && t.preMax == s.preMax && t.postMax == s.postMax
    ensures AfterResetFirst(AfterResetFirst(s)) == AfterResetFirst(s)
    ensures FirstIsOut(s) ==> AfterIsFirst(s) == AfterResetFirst(s)
    ensures !FirstIsOut(s) ==> AfterIsFirst(s) == s
  {
  }

  /** next_out never touches inPos or the marker, and applies the mode table
      to the window counts. */
  lemma NextOutTable(s: PipeState, m: OutMode)
    ensures var t := AfterNextOut(s, m);
      t.inPos == s.inPos && t.first == s.first && t.saved == s.saved - 1 &&
      (m == T0P0 ==> t.pre == (if s.pre < s.preMax then s.pre + 1 else s.pre) && t.post == s.post) &&
      (m == T1P0 ==> t.pre == 0 && t.post == s.postMax) &&
      (m == T0P1 ==> t.pre == s.pre && t.post == s.post - 1) &&
      (m == T1P1 || m == Noise ==> t.pre == s.pre && t.post == s.post)
  {
  }

  /** The slots get_pre_ptr(0 .. pre-1) address are the `pre` slots just
      before outPos, oldest first; none of them is the slot the reader fills
      next while the pipeline is not full. */
  lemma PreSlots(s: PipeState, n: int)
    requires Inv(s) && 0 <= n < s.pre
    ensures 0 <= PreSlot(s, n) < s.max
    ensures PreSlot(s, n) == (s.outPos - (s.pre - n)) % s.max
    ensures n + 1 < s.pre ==> PreSlot(s, n + 1) == Inc(PreSlot(s, n), s.max)
    ensures n + 1 == s.pre ==> Inc(PreSlot(s, n), s.max) == s.outPos
    ensures !Full(s) ==> PreSlot(s, n) != s.inPos
  {
    var p := s.outPos - s.pre + n;
    if p < 0 {
      ModShift(p, s.max);
      ModSmall(p + s.max, s.max);
    } else {
      ModSmall(p, s.max);
    }
    InPosValue(s);
  }

  /** While the writer holds a frame and the pipeline is not full, the
      reader's slot differs from the writer's. */
  lemma SlotsDisjoint(s: PipeState)
    requires Inv(s) && s.saved > 0 && !Full(s)
    ensures s.inPos != s.outPos
  {
    DistanceIsSaved(s);
    ModSmall(0, s.max);
  }

  // ---------------------------------------------------------------------
  // Modular arithmetic helpers

  lemma ModAddOne(x: int, m: int)
    requires 0 < m
    ensures (x + 1) % m == (x % m + 1) % m
  {
    var q, r := x / m, x % m;
    if r + 1 < m {
      DivMod(x + 1, m, q, r + 1);
      ModSmall(r + 1, m);
    } else {
      DivMod(x + 1, m, q + 1, 0);
      DivMod(r + 1, m, 1, 0);
    }
  }

  lemma ModSum(a: int, b: int, m: int)
    requires 0 < m
    ensures (a % m + b) % m == (a + b) % m
  {
    var q, r := a / m, a % m;
    var q2, r2 := (r + b) / m, (r + b) % m;
    assert a + b == (q + q2) * m + r2;
    DivMod(a + b, m, q + q2, r2);
  }

  // ---------------------------------------------------------------------
  // The object

  /** pipeline_t: the six counters change only through next_in, is_first,
      reset_first and next_out; the capacities are fixed at construction. */
  class Pipe {
    var inPos: int
    var outPos: int
    var saved: int
    var pre: int
    var post: int
    var first: int
    const max: int
    const preMax: int
    const postMax: int

    function State(): PipeState
      reads this
    {
      PipeState(inPos, outPos, saved, pre, post, first, max, preMax, postMax)
    }

    ghost predicate Valid()
      reads this
    {
      Wf(State())
    }

    /** pipeline_t(fs, mx, prmx, pomx): a capacity not above the pre-trigger
        count is raised to prmx + 1. */
    constructor (mx: int, prmx: int, pomx: int)
      requires 0 <= prmx && 0 <= pomx
      ensures State() == Initial(mx, prmx, pomx)
      ensures Valid() && Inv(State()) && MarkerInv(State())
    {
      max := if mx <= prmx then 1 + prmx else mx;
      preMax, postMax := prmx, pomx;
      inPos, outPos, saved, pre, post := 0, 0, 0, 0, 0;
      first := -1;
    }

    /** RD: is the pipeline full? */
    method IsFull() returns (yes: bool)
      ensures yes <==> saved + pre == max
    {
      yes := saved + pre == max;
    }

    /** WR: is a new frame available? */
    method IsNew() returns (yes: bool)
      ensures yes <==> saved > 0
    {
      yes := saved > 0;
    }

    /** WR: is outPos inside an open post-trigger window? */
    method IsPost() returns (yes: bool)
      ensures yes <==> post > 0
    {
      yes := post > 0;
    }

    /** WR: the number of frames kept for pre-trigger replay. */
    method GetPre() returns (n: int)
      requires Valid()
      ensures n == pre && 0 <= n <= preMax
    {
      n := pre;
    }

    /** RD: account for the frame just filled at inPos; answers true (and
        changes nothing) when a first frame is asked for while the last
        marker is still unprocessed. */
    method NextIn(isFirst: bool) returns (wait: bool)
      requires Valid()
      modifies this
      ensures Valid()
      ensures wait == NextInWaits(old(State()), isFirst)
      ensures State() == AfterNextIn(old(State()), isFirst)
    {
      wait := false;
      if isFirst {
        if first >= 0 {
          wait := true;
        } else {
          first := inPos;
        }
      }
      if !wait {
        inPos := inPos + 1;
        if inPos == max { inPos := 0; }
        saved := saved + 1;
      }
    }

    /** WR: is outPos the first frame after a gap? If so, the marker and
        both window counts are cleared. */
    method IsFirst() returns (yes: bool)
      requires Valid()
      modifies this
      ensures Valid()
      ensures yes == FirstIsOut(old(State()))
      ensures State() == AfterIsFirst(old(State()))
    {
      yes := first == outPos;
      if yes {
        first := -1;
        post := 0;
        pre := 0;
      }
    }

    /** WR: reset the write-out status (pipeline.cxx). */
    method ResetFirst()
      requires Valid()
      modifies this
      ensures Valid()
      ensures State() == AfterResetFirst(old(State()))
    {
      first := -1;
      post := 0;
      pre := 0;
    }

    /** WR: release the processed frame and update the window counts
        according to the write-out mode. */
    method NextOut(mode: OutMode)
      requires Valid()
      modifies this
      ensures Valid()
      ensures State() == AfterNextOut(old(State()), mode)
    {
      saved := saved - 1;
      if !(saved == 0 && outPos == inPos) {
        outPos := outPos + 1;
        if outPos == max { outPos := 0; }
      }
      match mode {
        case T0P0 =>
          if pre < preMax { pre := pre + 1; }
        case T1P0 =>
          pre := 0;
          post := postMax;
        case T0P1 =>
          post := post - 1;
        case _ =>
      }
    }

    /** RD: the slot the reader fills next. */
    method GetInPtr() returns (slot: int)
      requires Valid()
      ensures slot == inPos && 0 <= slot < max
    {
      slot := inPos;
    }

    /** WR: the slot the writer processes. */
    method GetOutPtr() returns (slot: int)
      requires Valid()
      ensures slot == outPos && 0 <= slot < max
    {
      slot := outPos;
    }

    /** WR: the slot of the n-th pre-trigger frame. */
    method GetPrePtr(n: int) returns (slot: int)
      requires Valid() && 0 <= n < pre
      ensures slot == PreSlot(State(), n)
      ensures 0 <= slot < max && slot == (outPos - (pre - n)) % max
    {
      var p := outPos - pre + n;
      slot := p;
      if slot < 0 {
        slot := slot + max;
        ModShift(p, max);
      }
      ModSmall(slot, max);
    }
  }
}
