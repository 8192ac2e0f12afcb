/** Run configuration of the threaded DAQ (SupixDAQ.h): the setters that
    normalise their argument into a run-information field, and the run
    status shared by the reader and the writer. */
module DaqConfig {
  import opened SupixDefs

  /** run_status_t */
  datatype RunStatus = RunFirst | RunStart | RunStop

  /** set_chip_addr: a negative address selects matrix 0, any other is
      reduced modulo the number of matrices. */
  function ChipAddrOf(x: int): (a: int)
    ensures 0 <= a < NMATRIX
    ensures 0 <= x < NMATRIX ==> a == x
    ensures x < 0 ==> a == 0
    ensures x >= 0 ==> (x - a) % NMATRIX == 0
  {
    if x < 0 then 0 else x % NMATRIX
  }

  /** set_pre_trigs: a negative count selects the default of 3. */
  function PreTrigsOf(x: int): (n: int)
    ensures n >= 0
    ensures x >= 0 ==> n == x
    ensures x < 0 ==> n == 3
  {
    if x < 0 then 3 else x
  }

  /** set_post_trigs: a negative count selects the default of 6. */
  function PostTrigsOf(x: int): (n: int)
    ensures n >= 0
    ensures x >= 0 ==> n == x
    ensures x < 0 ==> n == 6
  {
    if x < 0 then 6 else x
  }

  /** set_trig_period: a period that is not positive selects 31250. */
  function TrigPeriodOf(x: int): (p: int)
    ensures p > 0
    ensures x > 0 ==> p == x
    ensures x <= 0 ==> p == 31250
  {
    if x <= 0 then 31250 else x
  }

  /** The fields of RunInfo the setters write. */
  class RunInfo {
    var chipAddr: int
    var preTrigs: int
    var postTrigs: int
    var trigPeriod: int

    /** Every setter called with its default argument -1. */
    constructor ()
      ensures chipAddr == 0 && preTrigs == 3 && postTrigs == 6 && trigPeriod == 31250
    {
      chipAddr := ChipAddrOf(-1);
      preTrigs := PreTrigsOf(-1);
      postTrigs := PostTrigsOf(-1);
      trigPeriod := TrigPeriodOf(-1);
    }

    method SetChipAddr(x: int)
      modifies this
      ensures chipAddr == ChipAddrOf(x)
      ensures preTrigs == old(preTrigs) && postTrigs == old(postTrigs) && trigPeriod == old(trigPeriod)
    {
      chipAddr := if x < 0 then 0 else x % NMATRIX;
    }

    method SetPreTrigs(x: int)
      modifies this
      ensures preTrigs == PreTrigsOf(x)
      ensures chipAddr == old(chipAddr) && postTrigs == old(postTrigs) && trigPeriod == old(trigPeriod)
    {
      preTrigs := if x < 0 then 3 else x;
    }

    method SetPostTrigs(x: int)
      modifies this
      ensures postTrigs == PostTrigsOf(x)
      ensures chipAddr == old(chipAddr) && preTrigs == old(preTrigs) && trigPeriod == old(trigPeriod)
    {
      postTrigs := if x < 0 then 6 else x;
    }

    method SetTrigPeriod(x: int)
      modifies this
      ensures trigPeriod == TrigPeriodOf(x)
      ensures chipAddr == old(chipAddr) && preTrigs == old(preTrigs) && postTrigs == old(postTrigs)
    {
      trigPeriod := if x <= 0 then 31250 else x;
    }
  }
}
