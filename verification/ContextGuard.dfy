// Saving and restoring the caller's context binding (src/gpu/context.rs:24-98).

module ContextGuard {
  import opened CudaState

  datatype CallerContext = Current(h: Handle) | NoContext | CaptureFailed

  // Null handles mean the thread has no context.
  function FromResult(current: Handle, ok: bool): CallerContext {
    if !ok then CaptureFailed else if current == NULL then NoContext else Current(current)
  }

  class CurrentContextGuard {
    var previous: CallerContext
    var armed: bool

    // capture: `ok` is the outcome of initialising the driver and querying the binding.
    constructor Capture(driver: Driver, ok: bool)
      ensures armed && previous == FromResult(driver.cuda.current, ok)
    {
      previous := FromResult(driver.cuda.current, ok);
      armed := true;
    }

    constructor Entered(previous: CallerContext, armed: bool)
      ensures this.previous == previous && this.armed == armed
    {
      this.previous := previous;
      this.armed := armed;
    }

    // enter: makes the owned context current, or fails with the binding as it was.
    static method Enter(driver: Driver, captureOk: bool, setOk: bool) returns (ok: bool, guard: CurrentContextGuard)
      requires driver.Valid()
      modifies driver
      ensures driver.Valid() && fresh(guard) && ok == (captureOk && setOk)
      ensures driver.cuda == if ok then old(driver.cuda).(current := driver.primary) else old(driver.cuda)
      ensures ok ==> guard.previous == FromResult(old(driver.cuda).current, true)
      ensures ok ==> guard.armed == (old(driver.cuda).current != driver.primary)
    {
      var previous := FromResult(driver.cuda.current, captureOk);
      var changed := match previous
        case CaptureFailed => false
        case Current(h) => h != driver.primary
        case NoContext => true;
      guard := new CurrentContextGuard.Entered(previous, changed);
      if previous.CaptureFailed? {
        ok := false;
        return;
      }
      driver.SetCurrent(driver.primary, setOk);
      ok := setOk;
    }

    method Disarm()
      modifies this
      ensures !armed && previous == old(previous)
    {
      armed := false;
    }

    // drop: puts the caller's binding back unless disarmed, never captured, or refused.
    method Drop(driver: Driver, setOk: bool)
      requires driver.Valid()
      modifies driver
      ensures driver.Valid()
      ensures driver.cuda == old(driver.cuda).(current := AfterDrop(old(driver.cuda).current, setOk))
    {
      if !armed {
        return;
      }
      match previous
      case Current(h) => driver.SetCurrent(h, setOk);
      case NoContext => driver.SetCurrent(NULL, setOk);
      case CaptureFailed =>
    }

    function AfterDrop(now: Handle, setOk: bool): Handle
      reads this
    {
      if armed && setOk then
        match previous
        case Current(h) => h
        case NoContext => NULL
        case CaptureFailed => now
      else now
    }
  }
}
