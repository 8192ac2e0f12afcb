/** SupixDAQ::wait_timeout: the escalating wait of the reader thread while
    the pipeline is full, or while the last first frame is unprocessed (the
    writer thread polls with a plain sleep instead).
    Its three static locals and the member m_timeout are the fields of
    `Waiter`; the sleep itself is left out, and the run status is a
    parameter. */
module Waiting {
  import opened SupixDefs

  const MAX_TRY: int := 10
  const TIMEOUT_CAP: int := 10000000   // m_timeout grows only below 10 s

  /** The statics ntry, timeout (the accumulated wait), timewait, and the
      member m_timeout. */
  datatype WaitVars = WaitVars(ntry: int, accum: int, timewait: int, timeout: int)

  /** The answer of wait_timeout: give up. */
  predicate Expires(s: WaitVars, stop: bool) {
    stop || (s.accum + s.timewait > s.timeout && s.ntry + 1 >= MAX_TRY)
  }

  /** The variables after one call of wait_timeout. */
  function AfterWait(s: WaitVars, stop: bool): WaitVars {
    if stop then s
    else
      var accum := s.accum + s.timewait;
      if accum > s.timeout then
        if s.ntry + 1 < MAX_TRY then
          s.(ntry := s.ntry + 1, accum := 0,
             timeout := if s.timeout < TIMEOUT_CAP then s.timeout * 10 else s.timeout)
        else s.(ntry := s.ntry + 1, accum := accum)
      else s.(accum := accum)
  }

  /** The largest m_timeout can become from an initial value t0. */
  function Cap(t0: int): int {
    if t0 > 10 * TIMEOUT_CAP then t0 else 10 * TIMEOUT_CAP
  }

  /** The states in which the waiting has not yet given up. */
  predicate Waiting(s: WaitVars, t0: int) {
    0 <= s.ntry < MAX_TRY && 0 <= s.accum <= s.timeout <= Cap(t0) && s.timewait >= 1
  }

  /** The states after the tenth try: every further call gives up. */
  predicate Exhausted(s: WaitVars) {
    s.ntry >= MAX_TRY - 1 && s.accum + s.timewait > s.timeout && s.timewait >= 1
  }

  /** The states the statics can be in between calls. */
  predicate WaitOk(s: WaitVars, t0: int) {
    Waiting(s, t0) || Exhausted(s)
  }

  /** A bound on the calls still to come before wait_timeout gives up. */
  function Rank(s: WaitVars, t0: int): int {
    (MAX_TRY - s.ntry) * (Cap(t0) + 1) - s.accum
  }

  /** The first call sees ntry = 0, no accumulated wait, the member
      m_timewait as the time per wait and the member m_timeout. */
  lemma InitialWaiting(timewait: int, timeout: int)
    requires timewait >= 1 && timeout >= 0
    ensures Waiting(WaitVars(0, 0, timewait, timeout), timeout)
  {
  }

  /** A STOP status ends the wait at once and changes nothing. */
  lemma StopExpires(s: WaitVars)
    ensures Expires(s, true) && AfterWait(s, true) == s
  {
  }

  /** Each call that does not give up keeps waiting and lowers the rank, so
      with a positive time per wait wait_timeout answers true after at most
      Rank calls, even when the status never becomes STOP. */
  lemma WaitProgress(s: WaitVars, t0: int)
    requires Waiting(s, t0) && !Expires(s, false)
    ensures Waiting(AfterWait(s, false), t0)
    ensures 0 <= Rank(AfterWait(s, false), t0) < Rank(s, t0)
  {
    var t := AfterWait(s, false);
    var c := Cap(t0) + 1;
    if s.accum + s.timewait > s.timeout {
      assert t.ntry == s.ntry + 1 && t.accum == 0;
      assert Rank(t, t0) == (MAX_TRY - s.ntry) * c - c;
      assert (MAX_TRY - s.ntry - 1) * c >= c by {
        MulAtLeast(MAX_TRY - s.ntry - 1, c);
      }
    } else {
      assert (MAX_TRY - s.ntry) * c >= c by {
        MulAtLeast(MAX_TRY - s.ntry, c);
      }
    }
  }

  /** Every call keeps the statics in range; a call that does not give up
      started from a waiting state and lowers its rank. */
  lemma WaitStep(s: WaitVars, t0: int, stop: bool)
    requires WaitOk(s, t0)
    ensures WaitOk(AfterWait(s, stop), t0)
    ensures !Expires(s, stop) ==> Waiting(s, t0) && Waiting(AfterWait(s, stop), t0)
    ensures !Expires(s, stop) ==> 0 <= Rank(AfterWait(s, stop), t0) < Rank(s, t0)
  {
    if !Expires(s, stop) {
      WaitProgress(s, t0);
    }
  }

  /** The rank of a waiting state is positive. */
  lemma RankPositive(s: WaitVars, t0: int)
    requires Waiting(s, t0)
    ensures Rank(s, t0) > 0
  {
    MulAtLeast(MAX_TRY - s.ntry, Cap(t0) + 1);
  }

  /** The counters are never reset: once nine tries have passed, the next
      overflow of the accumulated wait gives up. */
  lemma TenthTryExpires(s: WaitVars)
    requires s.ntry >= MAX_TRY - 1 && s.accum + s.timewait > s.timeout
    ensures Expires(s, false)
    ensures AfterWait(s, false).ntry == s.ntry + 1
  {
  }

  class Waiter {
    var ntry: int
    var accum: int
    var timewait: int
    var timeout: int

    function State(): WaitVars
      reads this
    {
      WaitVars(ntry, accum, timewait, timeout)
    }

    constructor (mTimewait: int, mTimeout: int)
      ensures State() == WaitVars(0, 0, mTimewait, mTimeout)
    {
      ntry, accum, timewait, timeout := 0, 0, mTimewait, mTimeout;
    }

    /** wait_timeout(msg): true means "give up". */
    method WaitTimeout(stop: bool) returns (expired: bool)
      modifies this
      ensures expired == Expires(old(State()), stop)
      ensures State() == AfterWait(old(State()), stop)
    {
      if stop {
        return true;
      }
      accum := accum + timewait;
      if accum > timeout {
        ntry := ntry + 1;
        if ntry < MAX_TRY {
          accum := 0;
          if timeout < TIMEOUT_CAP {
            timeout := timeout * 10;
          }
        } else {
          return true;
        }
      }
      return false;
    }
  }
}
