// Ownership of CUDA resources by the accelerator: construction, scratch buffers, teardown
// (src/gpu/accelerator.rs:96-173, :597-679, :1033-1136; src/gpu/context.rs:100-126).

module Accelerator {
  import opened Words
  import opened Wrappers
  import opened CudaState
  import opened ContextGuard
  import opened KernelModules

  datatype Buffer = Buffer(id: nat, len: nat)

  // Outcomes of the driver calls of a construction; `capability` says that the device reports a
  // sufficient compute capability.
  datatype InitAnswers = InitAnswers(capture: bool, init: bool, device: bool, retain: bool, bind: bool, activate: bool,
                                     capability: bool, loads: seq<bool>, lookups: seq<bool>, stream: bool, restore: bool)

  datatype ScratchAnswers = ScratchAnswers(query: bool, sync: bool, scores: bool, walkers: bool)

  datatype DropAnswers = DropAnswers(capture: bool, activate: bool, sync: bool, restore: bool)

  ghost predicate ContextComes(a: InitAnswers) {
    a.init && a.device && a.retain && a.activate
  }

  ghost predicate InitSucceeds(a: InitAnswers) {
    ContextComes(a) && a.capability && AllOf(a.loads) && AllOf(a.lookups) && a.stream
  }

  // Binding when a construction has failed, before the guard restores the caller's.
  ghost function BindingInside(a: InitAnswers, caller: Handle, primary: Handle): Handle {
    if a.init && a.device && a.retain && (a.bind || a.activate) then primary else caller
  }

  // And afterwards: restored unless the caller's binding could not be captured or set.
  ghost function AfterFailure(a: InitAnswers, caller: Handle, primary: Handle): Handle {
    if a.capture && a.restore then caller else BindingInside(a, caller, primary)
  }

  // GpuContext::init
  method InitContext(driver: Driver, a: InitAnswers) returns (ok: bool)
    requires driver.Valid()
    modifies driver
    ensures driver.Valid() && ok == ContextComes(a)
    ensures ok ==> driver.cuda == old(driver.cuda).(retains := old(driver.cuda).retains + 1, current := driver.primary)
    ensures !ok ==> SameOwnership(old(driver.cuda), driver.cuda)
    ensures driver.cuda.current == BindingInside(a, old(driver.cuda).current, driver.primary)
  {
    if !a.init || !a.device || !a.retain {
      return false;
    }
    driver.NewContext(a.bind);
    driver.SetCurrent(driver.primary, a.activate);
    if !a.activate {
      driver.ReleaseContext();
    }
    ok := a.activate;
  }

  // After a successful construction: the context retained and bound, its modules and stream created.
  function Acquired(c: Cuda, primary: Handle): Cuda {
    Created(Loaded(c.(retains := c.retains + 1, current := primary), MODULES), Stream)
  }

  lemma AcquiredIsOwned(c: Cuda, primary: Handle)
    requires Accounted(c, primary)
    ensures
      var ids, after := [c.next + MODULES] + Ids(c.next, MODULES), Acquired(c, primary);
      && Distinct(ids) && (forall id :: id in ids ==> id in after.live)
      && after.live - IdSet(ids) == c.live
      && after.log == c.log && after.busy == c.busy && after.retains == c.retains + 1 && after.current == primary
  {
    var entered := c.(retains := c.retains + 1, current := primary);
    var ids := [c.next + MODULES] + Ids(c.next, MODULES);
    LoadedLive(entered, MODULES);
    forall id: nat ensures id in IdSet(ids) <==> c.next <= id <= c.next + MODULES {
      if c.next <= id < c.next + MODULES {
        assert ids[id - c.next + 1] == id;
      }
    }
    assert Acquired(c, primary).live - IdSet(ids) == c.live;
  }

  // The fallible middle of try_init_gpu: what was acquired is given back on failure.
  method Acquire(driver: Driver, a: InitAnswers) returns (ok: bool, modules: seq<nat>, stream: nat)
    requires driver.Valid() && |a.loads| == |a.lookups| == MODULES
    modifies driver
    ensures driver.Valid() && ok == InitSucceeds(a)
    ensures ok ==> modules == Ids(old(driver.cuda).next, MODULES) && stream == old(driver.cuda).next + MODULES
    ensures ok ==> driver.cuda == Acquired(old(driver.cuda), driver.primary)
    ensures !ok ==> SameOwnership(old(driver.cuda), driver.cuda)
    ensures driver.cuda.current == BindingInside(a, old(driver.cuda).current, driver.primary)
  {
    modules, stream := [], 0;
    ok := InitContext(driver, a);
    if !ok {
      return;
    }
    if !a.capability {
      driver.ReleaseContext();
      return false, [], 0;
    }
    ghost var entered := driver.cuda;
    ok, modules := LoadModules(driver, a.loads, a.lookups);
    if !ok {
      driver.ReleaseContext();
      return false, [], 0;
    }
    LoadedIds(entered, MODULES);
    LoadedLive(entered, MODULES);
    if !a.stream {
      Unload(driver, modules, entered, MODULES);
      driver.ReleaseContext();
      return false, [], 0;
    }
    stream := driver.Create(Stream);
  }

  // Teardown of resources `ids`: enter, synchronise, destroy in order, restore, release.
  ghost function Torn(c: Cuda, primary: Handle, ids: seq<nat>, a: DropAnswers): Cuda
    requires c.retains > 0
  {
    var entered := c.(current := primary, busy := c.busy && !a.sync);
    Released(Gone(entered, ids).(current := if a.restore then c.current else primary))
  }

  // Everything is destroyed in that order with the owned context current, and idle unless the
  // synchronisation failed; the caller's binding comes back unless that was refused.
  lemma TeardownOrder(c: Cuda, primary: Handle, ids: seq<nat>, a: DropAnswers, i: nat)
    requires c.retains > 0 && i <= |ids|
    ensures
      var after := Torn(c, primary, ids, a);
      && after.live == c.live - IdSet(ids) && after.retains == c.retains - 1
      && after.log[..|c.log|] == c.log && |after.log| == |c.log| + |ids| + 1
      && after.log[|c.log| + i]
         == (if i < |ids| then Event(Owned(ids[i]), primary, !c.busy || a.sync)
             else Event(Context, after.current, !c.busy || a.sync))
      && (after.current == c.current <==> a.restore || c.current == primary)
  {
  }

  // Two new resources take the place of `replaced` beside `rest`.
  lemma Replacement(c: Cuda, primary: Handle, kind: Kind, replaced: seq<nat>, rest: seq<nat>)
    requires Accounted(c, primary) && Distinct(replaced + rest) && forall id :: id in replaced + rest ==> id in c.live
    ensures
      var created, replacing := Created(Created(c, kind), kind), [c.next, c.next + 1] + rest;
      && Distinct(replaced) && (forall id :: id in replaced ==> id in created.live)
      && Distinct(replacing) && (forall id :: id in replacing ==> id in Gone(created, replaced).live)
      && Gone(created, replaced).live - IdSet(replacing) == c.live - IdSet(replaced + rest)
  {
    var all := replaced + rest;
    forall i | 0 <= i < |replaced| ensures replaced[i] == all[i] {}
    forall i | 0 <= i < |rest| ensures rest[i] == all[|replaced| + i] {}
    var created, replacing := Created(Created(c, kind), kind), [c.next, c.next + 1] + rest;
    forall i, j | 0 <= i < |replaced| && 0 <= j < |rest| ensures replaced[i] != rest[j] {
      assert all[i] != all[|replaced| + j];
    }
    assert IdSet(all) == IdSet(replaced) + IdSet(rest) && IdSet(replacing) == {c.next, c.next + 1} + IdSet(rest);
  }

  // Dimensions and buffer lengths of a reduction.
  datatype ReduceArgs = ReduceArgs(nWalkers: i32, nVars: i32, nClauses: i32, clauseLen: i32, assignment: nat, satFlags: nat,
                                   scores: nat, bestScore: nat, bestWalker: nat, clauses: nat)

  ghost predicate ReduceValid(r: ReduceArgs) {
    && r.nWalkers > 0 && r.nVars >= 0 && r.nClauses >= 0 && r.clauseLen >= 0
    && r.nWalkers * r.nVars <= r.assignment && r.nWalkers * r.nClauses <= r.satFlags && r.nWalkers <= r.scores
    && 1 <= r.bestScore && 1 <= r.bestWalker && r.nClauses * r.clauseLen <= r.clauses
  }

  // Blocks of 256 walkers, each with one partial.
  function Partials(r: ReduceArgs): nat {
    if r.nWalkers > 0 then CeilDiv(r.nWalkers, 256) else 0
  }

  // They are the fewest that cover the walkers.
  lemma PartialsCover(r: ReduceArgs)
    requires r.nWalkers > 0
    ensures r.nWalkers <= 256 * Partials(r) && 256 * (Partials(r) - 1) < r.nWalkers
  {
  }

  // A scratch buffer that exists stays, at least as long as it was.
  ghost predicate NotShrunk(before: Option<Buffer>, now: Option<Buffer>) {
    before.Some? ==> now.Some? && now.value.len >= before.value.len
  }

  // Whatever was given back meanwhile was given back with the stream idle.
  ghost predicate IdleSince(before: Cuda, now: Cuda) {
    before.log <= now.log && forall i :: |before.log| <= i < |now.log| ==> now.log[i].idle
  }

  // Creates two resources and destroys the ones they replace; if the second cannot be created,
  // the first is given back.
  method ReplaceTwo(driver: Driver, kind: Kind, replaced: seq<nat>, ghost rest: seq<nat>, second: bool)
      returns (ok: bool, a: nat, b: nat)
    requires driver.Valid() && !driver.cuda.busy && driver.cuda.current == driver.primary
    requires Distinct(replaced + rest) && forall id :: id in replaced + rest ==> id in driver.cuda.live
    modifies driver
    ensures driver.Valid() && ok == second && IdleSince(old(driver.cuda), driver.cuda)
    ensures driver.cuda.current == old(driver.cuda).current && driver.cuda.retains == old(driver.cuda).retains
    ensures !ok ==> driver.cuda.live == old(driver.cuda).live
    ensures ok ==> Distinct([a, b] + rest) && forall id :: id in [a, b] + rest ==> id in driver.cuda.live
    ensures ok ==> driver.cuda.live - IdSet([a, b] + rest) == old(driver.cuda).live - IdSet(replaced + rest)
  {
    ghost var before := driver.cuda;
    a := driver.Create(kind);
    b := 0;
    if !second {
      driver.Destroy(a);
      assert driver.cuda.live == before.live;
      return false, 0, 0;
    }
    b := driver.Create(kind);
    Replacement(before, driver.primary, kind, replaced, rest);
    DestroyAll(driver, replaced);
    ok := true;
  }

  class GpuAccelerator {
    var hasContext: bool
    var modules: seq<nat>
    var stream: Option<nat>
    var scores: Option<Buffer>
    var walkers: Option<Buffer>

    function IdsOf(b: Option<Buffer>): seq<nat> {
      if b.Some? then [b.value.id] else []
    }

    // In the order of teardown.
    function OwnedIds(): seq<nat>
      reads this
    {
      IdsOf(scores) + IdsOf(walkers) + (if stream.Some? then [stream.value] else []) + modules
    }

    ghost function OthersOwned(): seq<nat>
      reads this
    {
      (if stream.Some? then [stream.value] else []) + modules
    }

    // The scratch buffers exist together and have equal length.
    ghost predicate Paired()
      reads this
    {
      scores.Some? == walkers.Some? && (scores.Some? ==> scores.value.len == walkers.value.len)
    }

    ghost predicate Valid(c: Cuda)
      reads this
    {
      && Paired() && Distinct(OwnedIds()) && (forall id :: id in OwnedIds() ==> id in c.live)
      && (hasContext ==> c.retains > 0 && |modules| == MODULES && stream.Some?)
      && (!hasContext ==> OwnedIds() == [])
    }

    // Resources of the process that are not this accelerator's.
    ghost function Others(c: Cuda): map<nat, Kind>
      reads this
    {
      c.live - IdSet(OwnedIds())
    }

    constructor Holding(modules: seq<nat>, stream: nat)
      ensures hasContext && this.modules == modules && this.stream == Some(stream) && scores == None && walkers == None
    {
      this.hasContext, this.modules, this.stream, this.scores, this.walkers := true, modules, Some(stream), None, None;
    }

    constructor CpuFallback()
      ensures !hasContext && modules == [] && stream == None && scores == None && walkers == None
    {
      this.hasContext, this.modules, this.stream, this.scores, this.walkers := false, [], None, None, None;
    }

    // new: construction that falls back to the CPU.
    static method New(driver: Driver, a: InitAnswers) returns (acc: GpuAccelerator)
      requires driver.Valid() && |a.loads| == |a.lookups| == MODULES
      modifies driver
      ensures driver.Valid() && fresh(acc) && acc.Valid(driver.cuda) && acc.hasContext == InitSucceeds(a)
      ensures acc.Others(driver.cuda) == old(driver.cuda).live && driver.cuda.busy == old(driver.cuda).busy
      ensures acc.hasContext ==> driver.cuda.current == driver.primary && driver.cuda.log == old(driver.cuda).log
      ensures acc.hasContext ==> driver.cuda.retains == old(driver.cuda).retains + 1
      ensures !acc.hasContext ==> SameOwnership(old(driver.cuda), driver.cuda)
      ensures !acc.hasContext ==> driver.cuda.current == AfterFailure(a, old(driver.cuda).current, driver.primary)
    {
      ghost var before := driver.cuda;
      var guard := new CurrentContextGuard.Capture(driver, a.capture);
      var ok, modules, stream := Acquire(driver, a);
      if ok {
        guard.Disarm();
        acc := Adopt(driver, modules, stream, before);
      } else {
        acc := new GpuAccelerator.CpuFallback();
        assert acc.OwnedIds() == [];
      }
      guard.Drop(driver, a.restore);
    }

    // The accelerator that owns what a successful construction acquired.
    static method Adopt(driver: Driver, modules: seq<nat>, stream: nat, ghost before: Cuda) returns (acc: GpuAccelerator)
      requires driver.Valid() && Accounted(before, driver.primary) && driver.cuda == Acquired(before, driver.primary)
      requires modules == Ids(before.next, MODULES) && stream == before.next + MODULES
      ensures fresh(acc) && acc.Valid(driver.cuda) && acc.hasContext && acc.Others(driver.cuda) == before.live
      ensures driver.cuda.log == before.log && driver.cuda.busy == before.busy && driver.cuda.current == driver.primary
      ensures driver.cuda.retains == before.retains + 1
    {
      acc := new GpuAccelerator.Holding(modules, stream);
      AcquiredIsOwned(before, driver.primary);
      assert acc.OwnedIds() == [stream] + modules;
    }

    // ---- scratch ----

    // Both buffers are long enough already.
    predicate Enough(partialLen: nat)
      reads this
    {
      scores.Some? && scores.value.len >= partialLen && walkers.Some? && walkers.value.len >= partialLen
    }

    // ensure_aux_scratch: succeeds exactly when the owned context is current and, if the buffers
    // must grow, the stream synchronises and both allocations succeed.
    method EnsureAuxScratch(driver: Driver, partialLen: nat, a: ScratchAnswers) returns (ok: bool)
      requires driver.Valid() && Valid(driver.cuda)
      modifies this`scores, this`walkers, driver
      ensures driver.Valid() && Valid(driver.cuda) && Others(driver.cuda) == old(Others(driver.cuda))
      ensures ok == (hasContext && a.query && old(driver.cuda).current == driver.primary
                     && (old(Enough(partialLen)) || (a.sync && a.scores && a.walkers)))
      ensures ok ==> Enough(partialLen)
      ensures !ok ==> scores == old(scores) && walkers == old(walkers)
      ensures NotShrunk(old(scores), scores)
      ensures driver.cuda.current == old(driver.cuda).current && driver.cuda.retains == old(driver.cuda).retains
      ensures IdleSince(old(driver.cuda), driver.cuda)
    {
      if !hasContext || !a.query || driver.cuda.current != driver.primary {
        return false;
      }
      if Enough(partialLen) {
        return true;
      }
      driver.Synchronize(a.sync);
      if !a.sync || !a.scores {
        return false;
      }
      ok := Replace(driver, partialLen, a.walkers);
    }

    // Both allocations, then both replacements.
    method Replace(driver: Driver, partialLen: nat, second: bool) returns (ok: bool)
      requires driver.Valid() && Valid(driver.cuda) && hasContext && !driver.cuda.busy
      requires driver.cuda.current == driver.primary
      modifies this`scores, this`walkers, driver
      ensures driver.Valid() && Valid(driver.cuda) && Others(driver.cuda) == old(Others(driver.cuda)) && ok == second
      ensures ok ==> scores.Some? && scores.value.len == partialLen
      ensures !ok ==> scores == old(scores) && walkers == old(walkers)
      ensures driver.cuda.current == old(driver.cuda).current && driver.cuda.retains == old(driver.cuda).retains
      ensures IdleSince(old(driver.cuda), driver.cuda)
    {
      var replaced := IdsOf(scores) + IdsOf(walkers);
      ghost var rest := OthersOwned();
      assert OwnedIds() == replaced + rest;
      var newScores, newWalkers;
      ok, newScores, newWalkers := ReplaceTwo(driver, Scratch(partialLen), replaced, rest, second);
      if ok {
        scores := Some(Buffer(newScores, partialLen));
        walkers := Some(Buffer(newWalkers, partialLen));
        assert OwnedIds() == [newScores, newWalkers] + rest;
      }
    }

    // satsolver_aux_reduce_best: validation, scratch for one partial per block of 256 walkers, two
    // launches. `first` and `second` are the outcomes of kernel lookup and launch.
    method AuxReduce(driver: Driver, args: ReduceArgs, a: ScratchAnswers, first: bool, second: bool) returns (ok: bool)
      requires driver.Valid() && Valid(driver.cuda)
      modifies this`scores, this`walkers, driver
      ensures driver.Valid() && Valid(driver.cuda) && Others(driver.cuda) == old(Others(driver.cuda))
      ensures ok == (ReduceValid(args) && hasContext && a.query && old(driver.cuda).current == driver.primary && first && second
                     && (old(Enough(Partials(args))) || (a.sync && a.scores && a.walkers)))
      ensures ok ==> Enough(Partials(args)) && driver.cuda.busy
      ensures ok ==> args.nWalkers <= 256 * scores.value.len && args.nWalkers <= 256 * walkers.value.len
      ensures !ReduceValid(args) ==> driver.cuda == old(driver.cuda) && scores == old(scores) && walkers == old(walkers)
      ensures NotShrunk(old(scores), scores)
      ensures driver.cuda.current == old(driver.cuda).current && driver.cuda.retains == old(driver.cuda).retains
      ensures IdleSince(old(driver.cuda), driver.cuda)
    {
      if args.nWalkers <= 0 || args.nVars < 0 || args.nClauses < 0 || args.clauseLen < 0 {
        return false;
      }
      if args.assignment < args.nWalkers * args.nVars || args.satFlags < args.nWalkers * args.nClauses
         || args.scores < args.nWalkers || args.bestScore < 1 || args.bestWalker < 1
         || args.clauses < args.nClauses * args.clauseLen {
        return false;
      }
      PartialsCover(args);
      ok := EnsureAuxScratch(driver, Partials(args), a);
      if !ok || !first {
        return false;
      }
      driver.Enqueue();
      if !second {
        return false;
      }
      driver.Enqueue();
    }

    // ---- teardown ----

    // drop: aborts the process when the owned context cannot be made current, and otherwise
    // tears everything down.
    method Drop(driver: Driver, a: DropAnswers) returns (aborted: bool)
      requires driver.Valid() && Valid(driver.cuda)
      modifies this, driver
      ensures driver.Valid() && aborted == (old(hasContext) && !(a.capture && a.activate))
      ensures aborted || !old(hasContext) ==> driver.cuda == old(driver.cuda)
      ensures !aborted && old(hasContext) ==> driver.cuda == Torn(old(driver.cuda), driver.primary, old(OwnedIds()), a)
      ensures !aborted ==> !hasContext && OwnedIds() == [] && Others(driver.cuda) == old(Others(driver.cuda))
    {
      if !hasContext {
        return false;
      }
      var entered, guard := CurrentContextGuard.Enter(driver, a.capture, a.activate);
      if !entered {
        return true;
      }
      var modules', stream', walkers', scores' := modules, stream, walkers, scores;
      modules, stream, walkers, scores := [], None, None, None;
      driver.Synchronize(a.sync);
      DestroyGroups(driver, IdsOf(scores'), IdsOf(walkers'), if stream'.Some? then [stream'.value] else [], modules');
      guard.Drop(driver, a.restore);
      driver.ReleaseContext();
      hasContext := false;
      aborted := false;
    }
  }
}
