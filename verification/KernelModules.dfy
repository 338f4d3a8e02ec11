// Loading the PTX modules, and destroying several resources one after another
// (src/gpu/kernel.rs:93-173).

module KernelModules {
  import opened CudaState

  // ---- destroying several resources ----

  ghost predicate Distinct(ids: seq<nat>) {
    forall i, j :: 0 <= i < j < |ids| ==> ids[i] != ids[j]
  }

  function Events(ids: seq<nat>, bound: Handle, idle: bool): (events: seq<Event>)
    ensures |events| == |ids|
  {
    seq(|ids|, i requires 0 <= i < |ids| => Event(Owned(ids[i]), bound, idle))
  }

  function IdSet(ids: seq<nat>): set<nat> {
    set id | id in ids
  }

  ghost function Gone(c: Cuda, ids: seq<nat>): Cuda {
    c.(live := c.live - IdSet(ids), log := c.log + Events(ids, c.current, !c.busy))
  }

  method DestroyAll(driver: Driver, ids: seq<nat>)
    requires driver.Valid() && driver.cuda.current == driver.primary
    requires Distinct(ids) && forall id :: id in ids ==> id in driver.cuda.live
    modifies driver
    ensures driver.Valid() && driver.cuda == Gone(old(driver.cuda), ids)
  {
    GoneNothing(driver.cuda);
    for i := 0 to |ids|
      invariant driver.Valid() && driver.cuda == Gone(old(driver.cuda), ids[..i])
    {
      GoneStep(old(driver.cuda), ids, i);
      driver.Destroy(ids[i]);
    }
    assert ids[..|ids|] == ids;
  }

  lemma GoneNothing(c: Cuda)
    ensures Gone(c, []) == c
  {
    assert c.live - IdSet([]) == c.live;
  }

  lemma GoneStep(c: Cuda, ids: seq<nat>, i: nat)
    requires i < |ids| && Distinct(ids) && ids[i] in c.live
    ensures ids[i] in Gone(c, ids[..i]).live
    ensures Destroyed(Gone(c, ids[..i]), ids[i]) == Gone(c, ids[..i + 1])
  {
    assert ids[..i + 1] == ids[..i] + [ids[i]];
    assert Events(ids[..i + 1], c.current, !c.busy) == Events(ids[..i], c.current, !c.busy) + [Event(Owned(ids[i]), c.current, !c.busy)];
    assert IdSet(ids[..i + 1]) == IdSet(ids[..i]) + {ids[i]};
  }

  lemma GoneTwice(c: Cuda, a: seq<nat>, b: seq<nat>)
    ensures Gone(Gone(c, a), b) == Gone(c, a + b)
  {
    assert IdSet(a + b) == IdSet(a) + IdSet(b);
    assert Events(a + b, c.current, !c.busy) == Events(a, c.current, !c.busy) + Events(b, c.current, !c.busy);
  }

  // What is left of `all` after its first n ids are gone is still distinct and alive.
  lemma RestIsLive(c: Cuda, all: seq<nat>, n: nat, m: nat)
    requires n <= m <= |all| && Distinct(all) && forall id :: id in all ==> id in c.live
    ensures Distinct(all[n..m]) && forall id :: id in all[n..m] ==> id in Gone(c, all[..n]).live
  {
    forall i | n <= i < m ensures all[i] in Gone(c, all[..n]).live {
      assert all[i] !in all[..n];
    }
  }

  // Further ids after the first n, up to m.
  method DestroyNext(driver: Driver, ids: seq<nat>, ghost start: Cuda, ghost all: seq<nat>, ghost n: nat)
    requires driver.Valid() && driver.cuda.current == driver.primary
    requires n + |ids| <= |all| && ids == all[n..n + |ids|]
    requires Distinct(all) && (forall id :: id in all ==> id in start.live) && driver.cuda == Gone(start, all[..n])
    modifies driver
    ensures driver.Valid() && driver.cuda == Gone(start, all[..n + |ids|])
  {
    RestIsLive(start, all, n, n + |ids|);
    DestroyAll(driver, ids);
    GoneTwice(start, all[..n], ids);
    assert all[..n + |ids|] == all[..n] + ids;
  }

  // Four groups, one after another.
  method DestroyGroups(driver: Driver, a: seq<nat>, b: seq<nat>, c: seq<nat>, d: seq<nat>)
    requires driver.Valid() && driver.cuda.current == driver.primary
    requires Distinct(a + b + c + d) && forall id :: id in a + b + c + d ==> id in driver.cuda.live
    modifies driver
    ensures driver.Valid() && driver.cuda == Gone(old(driver.cuda), a + b + c + d)
  {
    ghost var start, all := driver.cuda, a + b + c + d;
    GoneNothing(start);
    DestroyNext(driver, a, start, all, 0);
    DestroyNext(driver, b, start, all, |a|);
    DestroyNext(driver, c, start, all, |a| + |b|);
    DestroyNext(driver, d, start, all, |a| + |b| + |c|);
    assert all[..|all|] == all;
  }

  // ---- loading the kernel modules ----

  // Same resources, retains and queued work; the log only grew.
  ghost predicate SameOwnership(a: Cuda, b: Cuda) {
    a.live == b.live && a.retains == b.retains && a.busy == b.busy && a.next <= b.next && a.log <= b.log
  }

  function Ids(from: nat, n: nat): (ids: seq<nat>)
    ensures |ids| == n
  {
    seq(n, i requires 0 <= i < n => from + i)
  }

  // n modules more.
  function Loaded(c: Cuda, n: nat): (after: Cuda)
    ensures after.next == c.next + n
  {
    if n == 0 then c else Created(Loaded(c, n - 1), Module)
  }

  lemma {:induction false} LoadedLive(c: Cuda, n: nat)
    ensures Loaded(c, n) == c.(live := Loaded(c, n).live, next := c.next + n)
    ensures forall id :: id in Loaded(c, n).live <==> id in c.live || c.next <= id < c.next + n
    ensures forall id :: id in c.live && id < c.next ==> Loaded(c, n).live[id] == c.live[id]
  {
    if n > 0 {
      LoadedLive(c, n - 1);
    }
  }

  lemma LoadedThenGone(c: Cuda, n: nat)
    requires forall id :: id in c.live ==> id < c.next
    ensures SameOwnership(c, Gone(Loaded(c, n), Ids(c.next, n)))
  {
    LoadedLive(c, n);
    assert Gone(Loaded(c, n), Ids(c.next, n)).live == c.live by {
      forall id: nat ensures id in Ids(c.next, n) <==> c.next <= id < c.next + n {
        if c.next <= id < c.next + n {
          assert Ids(c.next, n)[id - c.next] == id;
        }
      }
    }
  }

  lemma LoadedIds(c: Cuda, n: nat)
    requires forall id :: id in c.live ==> id < c.next
    ensures Distinct(Ids(c.next, n)) && (forall id :: id in Ids(c.next, n) ==> id in Loaded(c, n).live)
    ensures Loaded(c, n).current == c.current
    ensures Created(Loaded(c, n), Module) == Loaded(c, n + 1) && Ids(c.next, n) + [Loaded(c, n).next] == Ids(c.next, n + 1)
  {
    LoadedLive(c, n);
  }

  const MODULES: nat := 4

  // load_inner: the first PTX that fails to load, or lacks a kernel, drops the ones before.
  method LoadModules(driver: Driver, loads: seq<bool>, lookups: seq<bool>) returns (ok: bool, modules: seq<nat>)
    requires driver.Valid() && driver.cuda.current == driver.primary && |loads| == |lookups| == MODULES
    modifies driver
    ensures driver.Valid() && driver.cuda.current == driver.primary
    ensures ok <==> AllOf(loads) && AllOf(lookups)
    ensures ok ==> modules == Ids(old(driver.cuda).next, MODULES) && driver.cuda == Loaded(old(driver.cuda), MODULES)
    ensures !ok ==> SameOwnership(old(driver.cuda), driver.cuda)
  {
    ghost var before := driver.cuda;
    modules := [];
    for i := 0 to MODULES
      invariant driver.Valid() && driver.cuda == Loaded(before, i) && driver.cuda.current == driver.primary
      invariant modules == Ids(before.next, i)
      invariant forall j :: 0 <= j < i ==> loads[j] && lookups[j]
    {
      LoadedIds(before, i);
      if !loads[i] {
        Unload(driver, modules, before, i);
        return false, [];
      }
      var id := driver.Create(Module);
      modules := modules + [id];
      LoadedIds(before, i + 1);
      if !lookups[i] {
        Unload(driver, modules, before, i + 1);
        return false, [];
      }
    }
    ok := true;
  }

  method Unload(driver: Driver, modules: seq<nat>, ghost before: Cuda, ghost n: nat)
    requires driver.Valid() && driver.cuda.current == driver.primary == before.current
    requires Accounted(before, driver.primary) && driver.cuda == Loaded(before, n) && modules == Ids(before.next, n)
    modifies driver
    ensures driver.Valid() && driver.cuda.current == driver.primary && SameOwnership(before, driver.cuda)
  {
    LoadedIds(before, n);
    LoadedThenGone(before, n);
    DestroyAll(driver, modules);
  }

  ghost predicate AllOf(answers: seq<bool>) {
    forall i :: 0 <= i < |answers| ==> answers[i]
  }
}
