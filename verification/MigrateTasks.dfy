/**
 Which slots are being migrated: the requests that are accepted, how they are split into tasks, and how
 finished tasks give their slots back. `Valid` says that the bitmap of migrating slots is the disjoint
 union of the slots of the live tasks.
 */
module MigrateTasks {
  import opened Names
  import opened ClusterView

  datatype TaskState = Wait | Start | Succ | Clear | Half | Err

  /** The parent task's id with a number that is used only once. */
  datatype TaskId = TaskId(parent: string, number: nat)

  datatype SendTask = SendTask(slots: set<nat>, storeid: nat, state: TaskState)

  /** What the bitmap exclusive-or yields. */
  function Xor(a: set<nat>, b: set<nat>): set<nat>
  {
    (a - b) + (b - a)
  }

  /** The slots before the first one that is already taken: those a refused request leaves marked. */
  ghost predicate LeavesMarked(slots: set<nat>, taken: set<nat>, marked: set<nat>)
  {
    && slots * taken != {}
    && exists stop: nat :: stop in slots && stop in taken
         && (forall j | j in slots && j in taken :: stop <= j)
         && marked == set j | j in slots && j < stop
  }

  // ---------------------------------------------------------------- splitting a request

  /** The slots of one store, in the given order. */
  function OfStore(slots: seq<nat>, storeOf: nat -> nat, store: nat): seq<nat>
  {
    if slots == [] then []
    else
      OfStore(slots[..|slots| - 1], storeOf, store)
      + if storeOf(slots[|slots| - 1]) == store then [slots[|slots| - 1]] else []
  }

  function StoresOf(slots: seq<nat>, storeOf: nat -> nat): set<nat>
  {
    set j | j in slots :: storeOf(j)
  }

  ghost predicate Increasing(slots: seq<nat>)
  {
    forall a, b | 0 <= a < b < |slots| :: slots[a] < slots[b]
  }

  lemma {:induction false} OfStoreHas(slots: seq<nat>, storeOf: nat -> nat, store: nat)
    ensures forall j :: j in OfStore(slots, storeOf, store) <==> j in slots && storeOf(j) == store
  {
    if slots != [] {
      OfStoreHas(slots[..|slots| - 1], storeOf, store);
      assert slots == slots[..|slots| - 1] + [slots[|slots| - 1]];
    }
  }

  lemma {:induction false} OfStoreIncreases(slots: seq<nat>, storeOf: nat -> nat, store: nat)
    requires Increasing(slots)
    ensures Increasing(OfStore(slots, storeOf, store))
  {
    if slots != [] {
      var most := slots[..|slots| - 1];
      OfStoreIncreases(most, storeOf, store);
      OfStoreHas(most, storeOf, store);
      var r := OfStore(most, storeOf, store);
      forall a | 0 <= a < |r| ensures r[a] < slots[|slots| - 1] { assert r[a] in r && r[a] in most; }
    }
  }

  lemma {:induction false} NoneOfStore(slots: seq<nat>, storeOf: nat -> nat, store: nat)
    requires store !in StoresOf(slots, storeOf)
    ensures OfStore(slots, storeOf, store) == []
  {
    if slots != [] {
      assert storeOf(slots[|slots| - 1]) in StoresOf(slots, storeOf);
      assert StoresOf(slots[..|slots| - 1], storeOf) <= StoresOf(slots, storeOf);
      NoneOfStore(slots[..|slots| - 1], storeOf, store);
    }
  }

  /** The slots grouped by the store that holds them. */
  method GroupByStore(slots: seq<nat>, storeOf: nat -> nat) returns (groups: map<nat, seq<nat>>)
    ensures groups.Keys == StoresOf(slots, storeOf)
    ensures forall store | store in groups :: groups[store] == OfStore(slots, storeOf, store)
  {
    groups := map[];
    for i := 0 to |slots|
      invariant groups.Keys == StoresOf(slots[..i], storeOf)
      invariant forall store | store in groups :: groups[store] == OfStore(slots[..i], storeOf, store)
    {
      var store := storeOf(slots[i]);
      assert slots[..i + 1] == slots[..i] + [slots[i]];
      assert slots[..i + 1][..i] == slots[..i];
      if store !in groups { NoneOfStore(slots[..i], storeOf, store); }
      groups := groups[store := (if store in groups then groups[store] else []) + [slots[i]]];
    }
    assert slots[..|slots|] == slots;
  }

  class MigrateManager {
    var migrateSlots: set<nat>
    var importSlots: set<nat>
    var tasks: map<TaskId, SendTask>
    var nextNumber: nat
    var succSlots: set<nat>
    var failSlots: set<nat>

    constructor ()
      ensures Valid() && tasks == map[] && importSlots == {}
    {
      migrateSlots, importSlots, tasks, nextNumber := {}, {}, map[], 0;
      succSlots, failSlots := {}, {};
    }

    /** The bitmap is the disjoint union of the slots of the live tasks, whose numbers are used up. */
    ghost predicate Valid()
      reads this
    {
      && (forall a, b | a in tasks && b in tasks && a != b :: tasks[a].slots !! tasks[b].slots)
      && (forall id | id in tasks :: tasks[id].slots <= migrateSlots && id.number < nextNumber)
      && (forall j | j in migrateSlots :: exists id :: id in tasks && j in tasks[id].slots)
    }

    /** Marks the slots one by one, so that a refused request may leave some marked without a task. */
    method Migrating(slots: set<nat>, storeid: nat, id: TaskId) returns (ok: bool)
      requires forall j | j in slots :: j < SLOTS
      modifies this`migrateSlots, this`tasks
      ensures ok <==> slots !! old(migrateSlots) && id !in old(tasks)
      ensures ok ==> tasks == old(tasks)[id := SendTask(slots, storeid, Wait)]
      ensures ok ==> migrateSlots == old(migrateSlots) + slots
      ensures !ok ==> tasks == old(tasks)
      ensures !ok && slots !! old(migrateSlots) ==> migrateSlots == old(migrateSlots) + slots
      ensures !(slots !! old(migrateSlots)) ==>
                exists marked :: LeavesMarked(slots, old(migrateSlots), marked) && migrateSlots == old(migrateSlots) + marked
    {
      var j := 0;
      ghost var marked: set<nat> := {};
      while j < SLOTS
        invariant j <= SLOTS && tasks == old(tasks)
        invariant marked == set k | k in slots && k < j
        invariant marked !! old(migrateSlots) && migrateSlots == old(migrateSlots) + marked
      {
        if j in slots {
          if j in migrateSlots {
            assert LeavesMarked(slots, old(migrateSlots), marked);
            return false;
          }
          migrateSlots := migrateSlots + {j};
          marked := marked + {j};
        }
        j := j + 1;
      }
      assert marked == slots;
      if id in tasks { return false; }
      tasks := tasks[id := SendTask(slots, storeid, Wait)];
      return true;
    }

    /** A task takes slots that no live task has: the invariant is kept exactly if nothing stays marked in vain. */
    method StartTask(slots: set<nat>, storeid: nat, parent: string) returns (ok: bool)
      requires Valid() && forall j | j in slots :: j < SLOTS
      modifies this`migrateSlots, this`tasks, this`nextNumber
      ensures ok <==> slots !! old(migrateSlots)
      ensures ok ==> Valid() && tasks == old(tasks)[TaskId(parent, old(nextNumber)) := SendTask(slots, storeid, Wait)]
      ensures ok ==> migrateSlots == old(migrateSlots) + slots && nextNumber == old(nextNumber) + 1
      ensures !ok ==> tasks == old(tasks) && (Valid() <==> migrateSlots == old(migrateSlots))
    {
      var id := TaskId(parent, nextNumber);
      nextNumber := nextNumber + 1;
      assert id !in tasks;
      ok := Migrating(slots, storeid, id);
      if ok {
        assert tasks[id].slots == slots;
      } else {
        ghost var marked :| LeavesMarked(slots, old(migrateSlots), marked) && migrateSlots == old(migrateSlots) + marked;
        if migrateSlots != old(migrateSlots) {
          var j :| j in migrateSlots && j !in old(migrateSlots);
        }
      }
    }

    /** A finished task is erased, and the exclusive-or with its slots takes exactly them out of the bitmap. */
    method Release(id: TaskId)
      requires Valid() && id in tasks
      modifies this`migrateSlots, this`tasks, this`succSlots, this`failSlots
      ensures Valid() && tasks == old(tasks) - {id}
      ensures migrateSlots == old(migrateSlots) - old(tasks[id].slots)
      ensures old(tasks[id].state) == Succ ==>
                succSlots == old(succSlots) + old(tasks[id].slots) && failSlots == old(failSlots) - old(tasks[id].slots)
      ensures old(tasks[id].state) != Succ ==>
                succSlots == old(succSlots) && failSlots == old(failSlots) + old(tasks[id].slots)
    {
      var task := tasks[id];
      if task.state == Succ {
        succSlots := succSlots + task.slots;
        failSlots := failSlots - task.slots;
      } else {
        failSlots := failSlots + task.slots;
      }
      migrateSlots := Xor(migrateSlots, task.slots);
      tasks := tasks - {id};
      forall j | j in migrateSlots ensures exists k :: k in tasks && j in tasks[k].slots {
        var k :| k in old(tasks) && j in old(tasks)[k].slots;
        assert k != id;
        assert k in tasks;
      }
    }

    /** Every task that is through is erased; what stays marked is what the others hold. */
    method SenderSchedule()
      requires Valid()
      modifies this`migrateSlots, this`tasks, this`succSlots, this`failSlots
      ensures Valid() && tasks == map id | id in old(tasks) && !Finished(old(tasks)[id]) :: old(tasks)[id]
    {
      var rest := tasks.Keys;
      while rest != {}
        invariant Valid() && rest <= tasks.Keys
        invariant forall id :: id in tasks <==> id in old(tasks) && (id in rest || !Finished(old(tasks)[id]))
        invariant forall id | id in tasks :: tasks[id] == old(tasks)[id]
      {
        var id :| id in rest;
        if Finished(tasks[id]) { Release(id); }
        rest := rest - {id};
      }
    }

    /** Whether every requested slot is ours, goes to another known node, and is in no task. */
    predicate Acceptable(request: set<nat>, v: View, dst: Name)
      requires forall j | j in request :: j < |v.table|
      reads this
    {
      dst in v.nodes && forall j | j in request ::
        v.table[j] != Some(dst) && v.table[j] == Some(v.me) && j !in migrateSlots && j !in importSlots
    }

    method CheckSlotOK(request: set<nat>, v: View, dst: Name) returns (ok: bool, taskSlots: seq<nat>)
      requires |v.table| == SLOTS && forall j | j in request :: j < SLOTS
      ensures ok <==> Acceptable(request, v, dst)
      ensures ok ==> Increasing(taskSlots) && forall j :: j in taskSlots <==> j in request
    {
      taskSlots := [];
      if dst !in v.nodes { return false, []; }
      var idx := 0;
      while idx < SLOTS
        invariant idx <= SLOTS && Increasing(taskSlots)
        invariant forall a | 0 <= a < |taskSlots| :: taskSlots[a] < idx
        invariant forall j :: j in taskSlots <==> j in request && j < idx
        invariant forall j | j in request && j < idx ::
                    v.table[j] != Some(dst) && v.table[j] == Some(v.me) && j !in migrateSlots && j !in importSlots
      {
        if idx in request {
          if v.table[idx] == Some(dst) { return false, []; }
          if v.table[idx] != Some(v.me) { return false, []; }
          if idx in migrateSlots || idx in importSlots { return false, []; }
          taskSlots := taskSlots + [idx];
        }
        idx := idx + 1;
      }
      return true, taskSlots;
    }

    method StartPart(part: seq<nat>, storeid: nat, storeOf: nat -> nat, taskSize: nat, parent: string)
      requires Valid() && 0 < |part| <= taskSize
      requires forall j | j in part :: j < SLOTS && j !in migrateSlots && storeOf(j) == storeid
      modifies this`migrateSlots, this`tasks, this`nextNumber
      ensures Valid() && WellSplit(old(tasks), tasks, storeOf, taskSize)
      ensures migrateSlots == old(migrateSlots) + SetOf(part)
    {
      SetIsSmall(part);
      assert part[0] in SetOf(part);
      var ok := StartTask(SetOf(part), storeid, parent);
    }

    /** The slots of one store, in tasks of at most `taskSize` slots. */
    method StartStore(vec: seq<nat>, storeid: nat, storeOf: nat -> nat, taskSize: nat, parent: string)
      requires Valid() && taskSize > 0 && Increasing(vec)
      requires forall j | j in vec :: j < SLOTS && j !in migrateSlots && storeOf(j) == storeid
      modifies this`migrateSlots, this`tasks, this`nextNumber
      ensures Valid() && WellSplit(old(tasks), tasks, storeOf, taskSize)
      ensures migrateSlots == old(migrateSlots) + SetOf(vec)
    {
      var i := 0;
      while i < |vec|
        invariant i <= |vec| && Valid() && WellSplit(old(tasks), tasks, storeOf, taskSize)
        invariant migrateSlots == old(migrateSlots) + SetOf(vec[..i])
      {
        var last := if |vec| < i + taskSize then |vec| else i + taskSize;
        NextPart(vec, i, last);
        ghost var was := tasks;
        StartPart(vec[i..last], storeid, storeOf, taskSize, parent);
        SplitTwice(old(tasks), was, tasks, storeOf, taskSize);
        i := last;
      }
      assert vec[..i] == vec;
    }

    method StartAll(taskSlots: seq<nat>, storeOf: nat -> nat, taskSize: nat, parent: string)
      requires Valid() && taskSize > 0 && Increasing(taskSlots)
      requires forall j | j in taskSlots :: j < SLOTS && j !in migrateSlots
      modifies this`migrateSlots, this`tasks, this`nextNumber
      ensures Valid() && WellSplit(old(tasks), tasks, storeOf, taskSize)
      ensures migrateSlots == old(migrateSlots) + SetOf(taskSlots)
    {
      var groups := GroupByStore(taskSlots, storeOf);
      var rest := groups.Keys;
      AllBegun(taskSlots, storeOf, rest);
      while rest != {}
        invariant rest <= groups.Keys && Valid() && WellSplit(old(tasks), tasks, storeOf, taskSize)
        invariant migrateSlots == old(migrateSlots) + Begun(taskSlots, storeOf, rest)
      {
        var store :| store in rest;
        ghost var was := tasks;
        BeginStore(taskSlots, storeOf, rest, store);
        StartStore(groups[store], store, storeOf, taskSize, parent);
        SplitTwice(old(tasks), was, tasks, storeOf, taskSize);
        rest := rest - {store};
      }
      AllBegun(taskSlots, storeOf, {});
    }

    /**
     The request is refused without a trace, or split into tasks: each of one store and of bounded size,
     pairwise disjoint, disjoint from all other tasks, and together the whole request.
     */
    method Prepare(request: set<nat>, v: View, dst: Name, storeOf: nat -> nat, taskSize: nat, parent: string)
      returns (ok: bool)
      requires Valid() && |v.table| == SLOTS && taskSize > 0 && forall j | j in request :: j < SLOTS
      modifies this`migrateSlots, this`tasks, this`nextNumber
      ensures Valid() && WellSplit(old(tasks), tasks, storeOf, taskSize)
      ensures ok <==> old(Acceptable(request, v, dst))
      ensures migrateSlots == if ok then old(migrateSlots) + request else old(migrateSlots)
      ensures !ok ==> tasks == old(tasks)
    {
      var taskSlots;
      ok, taskSlots := CheckSlotOK(request, v, dst);
      if ok {
        assert SetOf(taskSlots) == request;
        StartAll(taskSlots, storeOf, taskSize, parent);
      }
    }
  }

  lemma AllBegun(slots: seq<nat>, storeOf: nat -> nat, rest: set<nat>)
    ensures rest == {} ==> Begun(slots, storeOf, rest) == SetOf(slots)
    ensures rest == StoresOf(slots, storeOf) ==> Begun(slots, storeOf, rest) == {}
  {
  }

  lemma BeginStore(slots: seq<nat>, storeOf: nat -> nat, rest: set<nat>, store: nat)
    requires Increasing(slots) && store in rest
    ensures Begun(slots, storeOf, rest - {store}) == Begun(slots, storeOf, rest) + SetOf(OfStore(slots, storeOf, store))
    ensures Increasing(OfStore(slots, storeOf, store))
    ensures forall j | j in OfStore(slots, storeOf, store) ::
              j in slots && storeOf(j) == store && j !in Begun(slots, storeOf, rest)
  {
    OfStoreIncreases(slots, storeOf, store);
    OfStoreHas(slots, storeOf, store);
  }

  function Begun(slots: seq<nat>, storeOf: nat -> nat, rest: set<nat>): set<nat>
  {
    set j | j in slots && storeOf(j) !in rest
  }

  lemma NextPart(vec: seq<nat>, i: nat, last: nat)
    requires Increasing(vec) && i < last <= |vec|
    ensures forall j | j in vec[i..last] :: j in vec && j !in SetOf(vec[..i])
    ensures SetOf(vec[..last]) == SetOf(vec[..i]) + SetOf(vec[i..last])
  {
    assert vec[..last] == vec[..i] + vec[i..last];
  }

  lemma SplitTwice(a: map<TaskId, SendTask>, b: map<TaskId, SendTask>, c: map<TaskId, SendTask>,
                   storeOf: nat -> nat, taskSize: nat)
    requires WellSplit(a, b, storeOf, taskSize) && WellSplit(b, c, storeOf, taskSize)
    ensures WellSplit(a, c, storeOf, taskSize)
  {
    forall id | id in c && id !in a
      ensures 0 < |c[id].slots| <= taskSize && forall j | j in c[id].slots :: storeOf(j) == c[id].storeid
    {
      if id in b { assert c[id] == b[id]; }
    }
  }

  predicate Finished(t: SendTask)
  {
    t.state == Succ || t.state == Err
  }

  function SetOf(vec: seq<nat>): set<nat>
  {
    set j | j in vec
  }

  lemma {:induction false} SetIsSmall(vec: seq<nat>)
    ensures |SetOf(vec)| <= |vec|
  {
    if vec != [] {
      SetIsSmall(vec[1..]);
      assert SetOf(vec) == {vec[0]} + SetOf(vec[1..]);
    }
  }

  /** The old tasks are untouched; each new one has slots of one store only, at least one and not too many. */
  ghost predicate WellSplit(was: map<TaskId, SendTask>, now: map<TaskId, SendTask>, storeOf: nat -> nat, taskSize: nat)
  {
    && (forall id | id in was :: id in now && now[id] == was[id])
    && (forall id | id in now && id !in was ::
          && 0 < |now[id].slots| <= taskSize
          && forall j | j in now[id].slots :: storeOf(j) == now[id].storeid)
  }
}
