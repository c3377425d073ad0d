/** The job registry of `Cron`: every job created gets the next id from a
    process-wide counter and is stored under it in a process-wide map of
    instances, until it is removed; the first job created also arms the
    once-a-minute tick, behind a latch. The class's static state (the
    instance map, `createId`'s counter and `tryInit`'s latch) lives in one
    `Registry` object that every job refers to. */
module CronJobs {

  /** A job's callback: PHP `null`, or a callable value, told apart from
      other callables by a handle. */
  datatype Callback = Null | Callable(handle: nat)

  /** What a getter declared to return a callable gives back: the callable,
      or the `TypeError` PHP raises on returning anything else. */
  datatype Returned = Returns(callable: Callback) | RaisesTypeError

  /** The argument of `remove`: an id, or a job whose id is meant. */
  datatype Target = ById(id: int) | ByJob(job: Job)
  {
    /** The key `remove` looks up. */
    function Key(): int {
      match this
      case ById(id) => id
      case ByJob(job) => job.id
    }
  }

  /** The static state of `Cron`. */
  class Registry {
    /** `createId`'s function-static counter: the last id handed out. */
    var lastId: nat
    /** `Cron::$instances`: id to job. */
    var instances: map<int, Job>
    /** `tryInit`'s function-static latch. */
    var inited: bool
    /** How many times the tick has been armed by `tryInit`. */
    var armings: nat

    /** Every stored job sits under its own id, which was handed out
        already, and refers back to this registry; the tick is armed once
        when the latch is set, and never before. */
    predicate Valid()
      reads this
    {
      (forall k :: k in instances ==> 1 <= k <= lastId && instances[k].id == k && instances[k].registry == this) &&
      armings == (if inited then 1 else 0)
    }

    /** The state before any job exists. */
    constructor ()
      ensures Valid()
      ensures lastId == 0 && instances == map[] && !inited && armings == 0
    {
      lastId := 0;
      instances := map[];
      inited := false;
      armings := 0;
    }

    /** `getAll`. */
    function GetAll(): map<int, Job>
      reads this
    {
      instances
    }

    /** `createId`: pre-increments the counter, so ids run 1, 2, 3, ... and
        the id handed out is above every id stored so far. */
    method CreateId() returns (id: int)
      requires Valid()
      modifies this
      ensures id == old(lastId) + 1 && lastId == id
      ensures forall k :: k in instances ==> k < id
      ensures instances == old(instances) && inited == old(inited) && armings == old(armings)
      ensures Valid()
    {
      lastId := lastId + 1;
      id := lastId;
    }

    /** `remove`: a job object stands for its id; an absent id gives false
        and changes nothing, a present one is deleted, alone, and gives
        true. */
    method Remove(target: Target) returns (removed: bool)
      requires Valid()
      modifies this
      ensures removed <==> target.Key() in old(instances)
      ensures instances == old(instances) - {target.Key()}
      ensures target.Key() !in instances
      ensures lastId == old(lastId) && inited == old(inited) && armings == old(armings)
      ensures Valid()
    {
      var id := target.Key();
      if id !in instances {
        return false;
      }
      instances := instances - {id};
      return true;
    }

    /** `tryInit`: the first call sets the latch and arms the tick; every
        later call does nothing. */
    method TryInit() returns (armed: bool)
      requires Valid()
      modifies this
      ensures armed <==> !old(inited)
      ensures inited && armings == 1
      ensures armings == old(armings) + (if armed then 1 else 0)
      ensures lastId == old(lastId) && instances == old(instances)
      ensures Valid()
    {
      if inited {
        return false;
      }
      inited := true;
      armings := armings + 1;
      return true;
    }

    /** The stored jobs with ids `1..n`, by ascending id. */
    function InOrder(n: nat): (jobs: seq<Job>)
      requires Valid()
      reads this
      ensures forall i :: 0 <= i < |jobs| ==> 1 <= jobs[i].id <= n && jobs[i].id in instances && instances[jobs[i].id] == jobs[i]
      ensures forall i, j :: 0 <= i < j < |jobs| ==> jobs[i].id < jobs[j].id
      ensures forall k :: 1 <= k <= n && k in instances ==> instances[k] in jobs
      decreases n
    {
      if n == 0 then []
      else InOrder(n - 1) + (if n in instances then [instances[n]] else [])
    }

    /** The jobs `foreach` visits: ids only grow and every job is appended
        under a fresh one, so insertion order is ascending id order. */
    method Listing() returns (jobs: seq<Job>)
      requires Valid()
      ensures jobs == InOrder(lastId)
    {
      jobs := [];
      var k := 0;
      while k < lastId
        invariant k <= lastId
        invariant jobs == InOrder(k)
      {
        k := k + 1;
        assert InOrder(k) == InOrder(k - 1) + (if k in instances then [instances[k]] else []);
        if k in instances {
          jobs := jobs + [instances[k]];
        }
      }
    }
  }

  /** One cron job: its rule, callback, name and id never change. */
  class Job {
    const registry: Registry
    const id: int
    const rule: string
    const callback: Callback
    const name: string

    /** `new Cron($rule, $callback, $name)`: takes the next id, stores the
        job under it, keeping every earlier entry, and tries to arm the
        tick. The getters then give back the arguments and the new id,
        except that the callback getter throws when the callback is null. */
    constructor (registry: Registry, rule: string, callback: Callback, name: string := "")
      requires registry.Valid()
      modifies registry
      ensures this.registry == registry
      ensures GetRule() == rule && GetName() == name && this.callback == callback
      ensures callback.Callable? ==> GetCallback() == Returns(callback)
      ensures callback.Null? ==> GetCallback() == RaisesTypeError
      ensures GetId() == old(registry.lastId) + 1 && registry.lastId == GetId()
      ensures GetId() !in old(registry.instances)
      ensures registry.GetAll() == old(registry.GetAll())[GetId() := this]
      ensures registry.inited && registry.armings == 1
      ensures registry.Valid()
    {
      this.registry := registry;
      this.rule := rule;
      this.callback := callback;
      this.name := name;
      var id := registry.CreateId();
      this.id := id;
      new;
      registry.instances := registry.instances[id := this];
      var _ := registry.TryInit();
    }

    function GetRule(): string { rule }

    /** `getCallback(): callable`: the declared return type rejects a null
        callback. */
    function GetCallback(): (r: Returned)
      ensures r.RaisesTypeError? <==> callback.Null?
      ensures r.Returns? ==> r.callable == callback && r.callable.Callable?
    {
      if callback.Null? then RaisesTypeError else Returns(callback)
    }

    function GetName(): string { name }

    function GetId(): int { id }

    /** `destroy`: `remove` of this job's id. */
    method Destroy() returns (removed: bool)
      requires registry.Valid()
      modifies registry
      ensures removed <==> id in old(registry.instances)
      ensures registry.instances == old(registry.instances) - {id}
      ensures registry.lastId == old(registry.lastId) && registry.inited == old(registry.inited)
      ensures registry.Valid()
    {
      removed := registry.Remove(ById(id));
    }
  }

  /** Ids are never reused: a job created after another one was destroyed
      still gets a larger id, and the destroyed one stays gone. */
  method CreateDestroyCreate(registry: Registry) returns (first: Job, second: Job)
    requires registry.Valid()
    modifies registry
    ensures first.id < second.id && second.id == first.id + 1
    ensures first.id !in registry.instances && second.id in registry.instances && registry.instances[second.id] == second
    ensures registry.Valid()
  {
    first := new Job(registry, "* * * * *", Callable(1));
    var removed := first.Destroy();
    assert removed;
    second := new Job(registry, "* * * * *", Callable(2));
    removed := first.Destroy();
    assert !removed;
  }
}
