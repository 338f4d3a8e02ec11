// Whole lives of an accelerator, and the capability probe
// (src/gpu/accelerator.rs:56-175, :1091-1136; src/capability.rs:334-338).

module Lifecycle {
  import opened CudaState
  import opened ContextGuard
  import opened KernelModules
  import opened Accelerator

  // What a caller may do with an accelerator between construction and drop.
  datatype Command =
    | Reduce(args: ReduceArgs, scratch: ScratchAnswers, first: bool, second: bool)
    | Wait(ok: bool)
    | Switch(h: Handle, ok: bool)

  method Perform(acc: GpuAccelerator, driver: Driver, command: Command)
    requires driver.Valid() && acc.Valid(driver.cuda)
    modifies acc`scores, acc`walkers, driver
    ensures driver.Valid() && acc.Valid(driver.cuda) && acc.Others(driver.cuda) == old(acc.Others(driver.cuda))
    ensures driver.cuda.retains == old(driver.cuda).retains && IdleSince(old(driver.cuda), driver.cuda)
    ensures driver.cuda.current
         == if command.Switch? && command.ok then command.h else old(driver.cuda).current
    ensures NotShrunk(old(acc.scores), acc.scores)
  {
    match command
    case Reduce(args, scratch, first, second) =>
      var _ := acc.AuxReduce(driver, args, scratch, first, second);
    case Wait(ok) => driver.Synchronize(ok);
    case Switch(h, ok) => driver.SetCurrent(h, ok);
  }

  // The binding after the caller's own switches.
  function Switched(current: Handle, commands: seq<Command>): Handle {
    if commands == [] then current
    else
      var n := |commands| - 1;
      if commands[n].Switch? && commands[n].ok then commands[n].h else Switched(current, commands[..n])
  }

  ghost function BindingAfterNew(a: InitAnswers, caller: Handle, primary: Handle): Handle {
    if InitSucceeds(a) then primary else AfterFailure(a, caller, primary)
  }

  lemma IdleOnwards(a: Cuda, b: Cuda, c: Cuda)
    requires IdleSince(a, b) && IdleSince(b, c)
    ensures IdleSince(a, c)
  {
  }

  method PerformAll(acc: GpuAccelerator, driver: Driver, commands: seq<Command>)
    requires driver.Valid() && acc.Valid(driver.cuda)
    modifies acc`scores, acc`walkers, driver
    ensures driver.Valid() && acc.Valid(driver.cuda) && acc.Others(driver.cuda) == old(acc.Others(driver.cuda))
    ensures driver.cuda.retains == old(driver.cuda).retains && IdleSince(old(driver.cuda), driver.cuda)
    ensures driver.cuda.current == Switched(old(driver.cuda).current, commands)
    ensures NotShrunk(old(acc.scores), acc.scores) && NotShrunk(old(acc.walkers), acc.walkers)
  {
    for i := 0 to |commands|
      invariant driver.Valid() && acc.Valid(driver.cuda) && acc.Others(driver.cuda) == old(acc.Others(driver.cuda))
      invariant driver.cuda.retains == old(driver.cuda).retains && IdleSince(old(driver.cuda), driver.cuda)
      invariant driver.cuda.current == Switched(old(driver.cuda).current, commands[..i])
      invariant NotShrunk(old(acc.scores), acc.scores) && NotShrunk(old(acc.walkers), acc.walkers)
    {
      ghost var before := driver.cuda;
      Perform(acc, driver, commands[i]);
      IdleOnwards(old(driver.cuda), before, driver.cuda);
      assert commands[..i + 1][..i] == commands[..i];
    }
    assert commands[..|commands|] == commands;
  }

  // Construction, any use, drop, whatever the driver answers. Unless the process aborts, nothing
  // is left alive or retained; every resource is accounted for (destroyed once, with the owned
  // context current), and all of it was idle if the last synchronisation succeeded; the binding
  // is the one the caller last chose, unless restoring it was refused.
  method Life(driver: Driver, init: InitAnswers, commands: seq<Command>, drop: DropAnswers) returns (aborted: bool)
    requires driver.Valid() && !driver.cuda.busy && |init.loads| == |init.lookups| == MODULES
    modifies driver
    ensures driver.Valid() && aborted == (InitSucceeds(init) && !(drop.capture && drop.activate))
    ensures !aborted ==> driver.cuda.live == old(driver.cuda).live && driver.cuda.retains == old(driver.cuda).retains
    ensures InitSucceeds(init) && drop.sync ==> IdleSince(old(driver.cuda), driver.cuda)
    ensures
      var before := Switched(BindingAfterNew(init, old(driver.cuda).current, driver.primary), commands);
      driver.cuda.current == if aborted || !InitSucceeds(init) || drop.restore then before else driver.primary
  {
    var acc := GpuAccelerator.New(driver, init);
    PerformAll(acc, driver, commands);
    ghost var used, ids := driver.cuda, acc.OwnedIds();
    aborted := acc.Drop(driver, drop);
    if !aborted && InitSucceeds(init) {
      TornIsIdle(used, driver.primary, ids, drop);
    }
    assert IdSet([]) == {};
  }

  lemma TornIsIdle(c: Cuda, primary: Handle, ids: seq<nat>, a: DropAnswers)
    requires c.retains > 0
    ensures a.sync ==> IdleSince(c, Torn(c, primary, ids, a))
    ensures Torn(c, primary, ids, a).current == if a.restore || c.current == primary then c.current else primary
  {
  }

  // probe_capabilities: construct, drop, and put the caller's binding back.
  method Probe(driver: Driver, capture: bool, init: InitAnswers, drop: DropAnswers, restore: bool) returns (aborted: bool)
    requires driver.Valid() && |init.loads| == |init.lookups| == MODULES
    modifies driver
    ensures driver.Valid() && aborted == (InitSucceeds(init) && !(drop.capture && drop.activate))
    ensures !aborted ==> driver.cuda.live == old(driver.cuda).live && driver.cuda.retains == old(driver.cuda).retains
    ensures aborted || driver.cuda.current
                    == (if capture && restore then old(driver.cuda).current
                        else BindingAfterNew(init, old(driver.cuda).current, driver.primary))
  {
    var guard := new CurrentContextGuard.Capture(driver, capture);
    var acc := GpuAccelerator.New(driver, init);
    ghost var used, ids := driver.cuda, acc.OwnedIds();
    aborted := acc.Drop(driver, drop);
    if aborted {
      return;
    }
    if InitSucceeds(init) {
      TornIsIdle(used, driver.primary, ids, drop);
    }
    assert IdSet([]) == {};
    guard.Drop(driver, restore);
  }
}
