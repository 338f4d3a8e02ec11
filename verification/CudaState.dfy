// The part of the CUDA driver state the accelerator's ownership protocol depends on: the
// calling thread's context binding, the resources alive in the primary context, and work
// queued on the accelerator's stream. Whether a driver call succeeds is a parameter.

module CudaState {

  // Context handles; 0 is the null handle of a thread without a context.
  type Handle = nat

  const NULL: Handle := 0

  datatype Kind = Module | Stream | Scratch(len: nat)

  // Something given back to the driver, the binding at that moment, and whether the stream was
  // known to be idle.
  datatype Item = Owned(id: nat) | Context
  datatype Event = Event(item: Item, bound: Handle, idle: bool)

  // `live` holds every resource created and not yet destroyed; ids are never reused.
  datatype Cuda = Cuda(current: Handle, retains: nat, live: map<nat, Kind>, next: nat, busy: bool, log: seq<Event>)

  ghost predicate Logged(log: seq<Event>, id: nat) {
    exists i :: 0 <= i < |log| && log[i].item == Owned(id)
  }

  // Each created resource is either alive or was destroyed once, with `primary` current.
  ghost predicate Accounted(c: Cuda, primary: Handle) {
    && (forall id :: id in c.live ==> id < c.next && !Logged(c.log, id))
    && (forall id: nat :: id < c.next ==> id in c.live || Logged(c.log, id))
    && (forall i :: 0 <= i < |c.log| && c.log[i].item.Owned? ==> c.log[i].bound == primary && c.log[i].item.id < c.next)
    && (forall i, j :: 0 <= i < j < |c.log| && c.log[i].item.Owned? ==> c.log[i].item != c.log[j].item)
  }

  function Created(c: Cuda, kind: Kind): Cuda {
    c.(live := c.live[c.next := kind], next := c.next + 1)
  }

  function Destroyed(c: Cuda, id: nat): Cuda {
    c.(live := c.live - {id}, log := c.log + [Event(Owned(id), c.current, !c.busy)])
  }

  function Released(c: Cuda): Cuda
    requires c.retains > 0
  {
    c.(retains := c.retains - 1, log := c.log + [Event(Context, c.current, !c.busy)])
  }

  lemma CreatedAccounted(c: Cuda, primary: Handle, kind: Kind)
    requires Accounted(c, primary)
    ensures Accounted(Created(c, kind), primary) && c.next !in c.live
  {
    assert !Logged(c.log, c.next);
  }

  lemma LogGrows(log: seq<Event>, e: Event, id: nat)
    ensures Logged(log + [e], id) <==> Logged(log, id) || e.item == Owned(id)
  {
    if Logged(log, id) {
      var i :| 0 <= i < |log| && log[i].item == Owned(id);
      assert (log + [e])[i].item == Owned(id);
    }
    assert (log + [e])[|log|] == e;
  }

  lemma DestroyedAccounted(c: Cuda, primary: Handle, id: nat)
    requires Accounted(c, primary) && id in c.live && c.current == primary
    ensures Accounted(Destroyed(c, id), primary)
  {
    var e := Event(Owned(id), c.current, !c.busy);
    forall k: nat { LogGrows(c.log, e, k); }
    forall i | 0 <= i < |c.log| && c.log[i].item.Owned? ensures c.log[i].item != e.item {
      assert Logged(c.log, c.log[i].item.id);
    }
  }

  lemma ReleasedAccounted(c: Cuda, primary: Handle)
    requires Accounted(c, primary) && c.retains > 0
    ensures Accounted(Released(c), primary)
  {
    forall k: nat { LogGrows(c.log, Event(Context, c.current, !c.busy), k); }
  }

  // ---- driver calls ----

  class Driver {
    const primary: Handle
    var cuda: Cuda

    constructor (primary: Handle, cuda: Cuda)
      requires primary != NULL && Accounted(cuda, primary)
      ensures this.primary == primary && this.cuda == cuda && Valid()
    {
      this.primary := primary;
      this.cuda := cuda;
    }

    ghost predicate Valid()
      reads this
    {
      primary != NULL && Accounted(cuda, primary)
    }

    // cuCtxSetCurrent
    method SetCurrent(h: Handle, ok: bool)
      requires Valid()
      modifies this
      ensures Valid() && cuda == old(cuda).(current := if ok then h else old(cuda).current)
    {
      if ok {
        cuda := cuda.(current := h);
      }
    }

    // Context::new: retains the primary context, then binds it without reporting a failure to.
    method NewContext(bound: bool)
      requires Valid()
      modifies this
      ensures Valid()
      ensures cuda == old(cuda).(retains := old(cuda).retains + 1, current := if bound then primary else old(cuda).current)
    {
      cuda := cuda.(retains := cuda.retains + 1);
      if bound {
        cuda := cuda.(current := primary);
      }
    }

    method ReleaseContext()
      requires Valid() && cuda.retains > 0
      modifies this
      ensures Valid() && cuda == Released(old(cuda))
    {
      ReleasedAccounted(cuda, primary);
      cuda := Released(cuda);
    }

    // Resources are created and destroyed with their context current.
    method Create(kind: Kind) returns (id: nat)
      requires Valid() && cuda.current == primary
      modifies this
      ensures Valid() && cuda == Created(old(cuda), kind) && id == old(cuda).next && id !in old(cuda).live
    {
      CreatedAccounted(cuda, primary, kind);
      id := cuda.next;
      cuda := Created(cuda, kind);
    }

    method Destroy(id: nat)
      requires Valid() && cuda.current == primary && id in cuda.live
      modifies this
      ensures Valid() && cuda == Destroyed(old(cuda), id)
    {
      DestroyedAccounted(cuda, primary, id);
      cuda := Destroyed(cuda, id);
    }

    method Enqueue()
      requires Valid()
      modifies this
      ensures Valid() && cuda == old(cuda).(busy := true)
    {
      cuda := cuda.(busy := true);
    }

    method Synchronize(ok: bool)
      requires Valid()
      modifies this
      ensures Valid() && cuda == old(cuda).(busy := old(cuda).busy && !ok)
    {
      if ok {
        cuda := cuda.(busy := false);
      }
    }
  }
}
