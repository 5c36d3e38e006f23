/** The retransmission timer: it measures from a start time and knows when its timeout is over.
    Times are 64-bit milliseconds. */
module Timers {
  import opened Words

  datatype Clock = Clock(start: u64, timeout: u64, running: bool) {
    predicate Expired(now: u64) {
      running && now >= (start + timeout) % TWO64
    }
  }

  class Timer {
    var timeStart: u64
    var timeout: u64
    var running: bool

    function View(): Clock
      reads this
    {
      Clock(timeStart, timeout, running)
    }

    constructor ()
      ensures View() == Clock(0, 0, false)
    {
      timeStart, timeout, running := 0, 0, false;
    }

    method Start(timeStart: u64, timeout: u64)
      modifies this
      ensures View() == Clock(timeStart, timeout, true)
    {
      this.timeStart := timeStart;
      this.timeout := timeout;
      this.running := true;
    }

    method Stop()
      modifies this
      ensures View() == old(View()).(running := false)
    {
      running := false;
    }

    method IsExpired(now: u64) returns (expired: bool)
      ensures expired == View().Expired(now)
      ensures !running ==> !expired
      ensures running && timeStart + timeout < TWO64 ==> (expired <==> now >= timeStart + timeout)
    {
      expired := running && now >= (timeStart + timeout) % TWO64;
    }
  }
}
