/**
 Deleting the data of slots that moved away: the slots to be deleted become one range per stretch of a
 store's slots, each range is deleted with one call on its store, and its slots are then unmarked.
 */
module GarbageCollection {
  import opened Names
  import opened ClusterView
  import opened BinlogReplay
  import opened Bytes
  import opened RecordKeys

  datatype DeleteRange = DeleteRange(store: nat, first: nat, last: nat)

  /** The range deletes the slot's data: other stores' slots inside its bounds are not touched. */
  predicate Covers(storeOf: nat -> nat, r: DeleteRange, j: nat)
  {
    storeOf(j) == r.store && r.first <= j <= r.last
  }

  predicate Sensible(storeOf: nat -> nat, r: DeleteRange)
  {
    r.first <= r.last < SLOTS && Covers(storeOf, r, r.first)
  }

  /** No slot is in two ranges. */
  ghost predicate Disjoint(storeOf: nat -> nat, rs: seq<DeleteRange>)
  {
    forall a, b, j: nat | 0 <= a < b < |rs| :: !(Covers(storeOf, rs[a], j) && Covers(storeOf, rs[b], j))
  }

  ghost predicate Covered(storeOf: nat -> nat, rs: seq<DeleteRange>, j: nat)
  {
    exists a | 0 <= a < |rs| :: Covers(storeOf, rs[a], j)
  }

  /** The ranges so far: the deleting slots of the stores before `i`, and those of store `i` before slot `k`. */
  ghost predicate Lists(storeOf: nat -> nat, deleting: set<nat>, rs: seq<DeleteRange>, i: nat, k: nat)
  {
    && Disjoint(storeOf, rs)
    && (forall a | 0 <= a < |rs| :: Sensible(storeOf, rs[a]))
    && (forall j: nat | j < SLOTS ::
          Covered(storeOf, rs, j) <==> j in deleting && (storeOf(j) < i || (storeOf(j) == i && j < k)))
  }

  lemma AddRange(storeOf: nat -> nat, deleting: set<nat>, rs: seq<DeleteRange>, i: nat, k: nat, r: DeleteRange)
    requires Lists(storeOf, deleting, rs, i, r.first) && r.store == i && r.last < k <= SLOTS && Sensible(storeOf, r)
    requires forall j | r.first <= j <= r.last && storeOf(j) == i :: j in deleting
    requires forall j | r.last < j < k && storeOf(j) == i :: j !in deleting
    ensures Lists(storeOf, deleting, rs + [r], i, k)
  {
    forall a, b, j: nat | 0 <= a < b < |rs + [r]|
      ensures !(Covers(storeOf, (rs + [r])[a], j) && Covers(storeOf, (rs + [r])[b], j))
    {
      if b == |rs| && Covers(storeOf, rs[a], j) && j < SLOTS { assert Covered(storeOf, rs, j); }
    }
    forall j: nat | j < SLOTS
      ensures Covered(storeOf, rs + [r], j) <==> j in deleting && (storeOf(j) < i || (storeOf(j) == i && j < k))
    {
      assert Covered(storeOf, rs + [r], j) <==> Covered(storeOf, rs, j) || Covers(storeOf, r, j) by {
        if Covers(storeOf, r, j) { assert Covers(storeOf, (rs + [r])[|rs|], j); }
        if Covered(storeOf, rs, j) {
          var a :| 0 <= a < |rs| && Covers(storeOf, rs[a], j);
          assert Covers(storeOf, (rs + [r])[a], j);
        }
      }
    }
  }

  method GenerateDeleteRangeTask(storeOf: nat -> nat, stores: nat, deleting: set<nat>) returns (rs: seq<DeleteRange>)
    requires forall j | j in deleting :: j < SLOTS && storeOf(j) < stores
    ensures Disjoint(storeOf, rs)
    ensures forall a | 0 <= a < |rs| :: Sensible(storeOf, rs[a])
    ensures forall j: nat | j < SLOTS :: Covered(storeOf, rs, j) <==> j in deleting
  {
    rs := [];
    for i := 0 to stores
      invariant Lists(storeOf, deleting, rs, i, 0)
    {
      var slotStart, slotEnd := -1, -1;
      for j := 0 to SLOTS
        invariant slotStart == -1 ==> Lists(storeOf, deleting, rs, i, j)
        invariant slotStart != -1 ==> 0 <= slotStart <= slotEnd < j && Lists(storeOf, deleting, rs, i, slotStart)
        invariant slotStart != -1 ==> storeOf(slotStart) == i
        invariant slotStart != -1 ==> forall k | slotStart <= k <= slotEnd && storeOf(k) == i :: k in deleting
        invariant slotStart != -1 ==> forall k | slotEnd < k < j :: storeOf(k) != i
      {
        if storeOf(j) == i {
          if j in deleting {
            if slotStart == -1 { slotStart := j; }
            slotEnd := j;
          } else {
            if slotStart != -1 {
              AddRange(storeOf, deleting, rs, i, j + 1, DeleteRange(i, slotStart, slotEnd));
              rs := rs + [DeleteRange(i, slotStart, slotEnd)];
              slotStart, slotEnd := -1, -1;
            }
          }
        }
      }
      if slotStart != -1 {
        AddRange(storeOf, deleting, rs, i, SLOTS, DeleteRange(i, slotStart, slotEnd));
        rs := rs + [DeleteRange(i, slotStart, slotEnd)];
      }
    }
  }

  /** What the node meets when it turns to a range: the slots it owns then, and whether it gets the locks. */
  datatype Turn = Turn(mine: set<nat>, locked: bool)

  /** The range can be deleted at this turn: its slots are locked, and none of them is the node's own. */
  ghost predicate Deletable(storeOf: nat -> nat, r: DeleteRange, turn: Turn)
  {
    turn.locked && forall j: nat | Covers(storeOf, r, j) :: j !in turn.mine
  }

  /** The key's record is stored under the slot's number. */
  predicate InItsSlot(recordOf: Key -> RecKey, k: Key)
  {
    recordOf(k).chunk == k.slot && Proper(recordOf(k))
  }

  lemma SlotFits(slot: nat)
    requires slot <= SLOTS
    ensures slot < Pow256(4)
  {
    assert Pow256(4) == 0x1_0000_0000;
  }

  lemma SlotBytes(recordOf: Key -> RecKey, k: Key, first: nat, end: nat)
    requires InItsSlot(recordOf, k) && first <= end <= SLOTS
    ensures Between(Encode(recordOf(k)), Be(first, 4), Be(end, 4)) <==> first <= k.slot < end
  {
    SlotFits(end);
    SlotRange(recordOf(k), first, end);
  }

  class GcManager {
    const storeOf: nat -> nat
    const storeCount: nat
    const recordOf: Key -> RecKey
    var deletingSlots: set<nat>
    var stores: map<nat, Store>

    constructor (storeOf: nat -> nat, storeCount: nat, recordOf: Key -> RecKey, stores: map<nat, Store>)
      requires forall i | 0 <= i < storeCount :: i in stores
      requires forall i, k: Key | i in stores && k in stores[i] :: storeOf(k.slot) == i && InItsSlot(recordOf, k)
      ensures Valid() && deletingSlots == {} && this.stores == stores
    {
      this.storeOf, this.storeCount, this.recordOf, this.stores := storeOf, storeCount, recordOf, stores;
      deletingSlots := {};
    }

    /** Every store holds only keys of its own slots, each under the slot's number. */
    ghost predicate Valid()
      reads this
    {
      && (forall j | j in deletingSlots :: j < SLOTS && storeOf(j) < storeCount)
      && (forall i | 0 <= i < storeCount :: i in stores)
      && (forall i, k: Key | i in stores && k in stores[i] :: storeOf(k.slot) == i && InItsSlot(recordOf, k))
    }

    ghost function Find(k: Key): Option<string>
      reads this
    {
      if storeOf(k.slot) in stores then Get(stores[storeOf(k.slot)], k) else None
    }

    /** Marking is refused when one of the slots is already being deleted. */
    method DeleteBitMap(slots: set<nat>) returns (ok: bool)
      requires Valid() && forall j | j in slots :: j < SLOTS && storeOf(j) < storeCount
      modifies this`deletingSlots
      ensures Valid() && ok == (slots !! old(deletingSlots))
      ensures deletingSlots == if ok then old(deletingSlots) + slots else old(deletingSlots)
    {
      if !(deletingSlots !! slots) { return false; }
      deletingSlots := deletingSlots + slots;
      return true;
    }

    method OwnsOne(r: DeleteRange, mine: set<nat>) returns (found: bool)
      ensures found <==> exists j: nat :: Covers(storeOf, r, j) && j in mine
    {
      var j := r.first;
      while j <= r.last
        invariant r.first <= j
        invariant forall k: nat | r.first <= k < j :: !(Covers(storeOf, r, k) && k in mine)
      {
        if storeOf(j) == r.store && j in mine {
          assert Covers(storeOf, r, j);
          return true;
        }
        j := j + 1;
      }
      return false;
    }

    /** The range call on the store, and the marks of the range's slots. */
    method DeleteSlots(r: DeleteRange, turn: Turn) returns (ok: bool)
      requires Valid() && r.first <= r.last < SLOTS
      modifies this`deletingSlots, this`stores
      ensures Valid()
      ensures ok <==> r.store in old(stores) && Deletable(storeOf, r, turn)
      ensures forall j :: j in deletingSlots <==> j in old(deletingSlots) && !(ok && Covers(storeOf, r, j))
      ensures forall k :: Find(k) == if ok && Covers(storeOf, r, k.slot) then None else old(Find(k))
    {
      if r.store !in stores || !turn.locked { return false; }
      var owned := OwnsOne(r, turn.mine);
      if owned { return false; }
      DropRange(r);
      Unmark(r);
      return true;
    }

    /** The store's own range call: every key from the bytes of the first slot up to those of the one after the last. */
    method DropRange(r: DeleteRange)
      requires Valid() && r.store in stores && r.first <= r.last < SLOTS
      modifies this`stores
      ensures Valid() && stores.Keys == old(stores.Keys)
      ensures forall k :: Find(k) == if Covers(storeOf, r, k.slot) then None else old(Find(k))
    {
      var store, low, high := stores[r.store], Be(r.first, 4), Be(r.last + 1, 4);
      forall k | k in store ensures Between(Encode(recordOf(k)), low, high) <==> r.first <= k.slot <= r.last {
        SlotBytes(recordOf, k, r.first, r.last + 1);
      }
      stores := stores[r.store := map k: Key | k in store && !Between(Encode(recordOf(k)), low, high) :: store[k]];
    }

    method Unmark(r: DeleteRange)
      requires Valid() && r.first <= r.last
      modifies this`deletingSlots
      ensures Valid()
      ensures forall j :: j in deletingSlots <==> j in old(deletingSlots) && !Covers(storeOf, r, j)
    {
      var j := r.first;
      while j <= r.last
        invariant r.first <= j <= r.last + 1
        invariant forall k :: k in deletingSlots <==> k in old(deletingSlots) && !(Covers(storeOf, r, k) && k < j)
      {
        if storeOf(j) == r.store { deletingSlots := deletingSlots - {j}; }
        j := j + 1;
      }
    }

    /**
     One collection. Every slot that was marked lies in exactly one range, and it is unmarked exactly if no slot
     of that range was the node's own, and all were locked, when the node turned to that range. Exactly the data
     of the unmarked slots is removed.
     */
    method GcSchedule(turns: nat -> Turn) returns (all: bool, ghost tasks: seq<DeleteRange>)
      requires Valid()
      modifies this`deletingSlots, this`stores
      ensures Valid() && deletingSlots <= old(deletingSlots)
      ensures Disjoint(storeOf, tasks)
      ensures forall j: nat | j < SLOTS :: Covered(storeOf, tasks, j) <==> j in old(deletingSlots)
      ensures forall a: nat, j: nat | a < |tasks| && Covers(storeOf, tasks[a], j) ::
                j !in deletingSlots <==> Deletable(storeOf, tasks[a], turns(a))
      ensures forall k :: Find(k) == if k.slot in old(deletingSlots) - deletingSlots then None else old(Find(k))
      ensures all <==> deletingSlots == {}
    {
      ghost var marked := deletingSlots;
      var rs := GenerateDeleteRangeTask(storeOf, storeCount, deletingSlots);
      tasks := rs;
      assert forall b: nat, j: nat | b < |rs| && Covers(storeOf, rs[b], j) :: Covered(storeOf, rs, j);
      for a := 0 to |rs|
        invariant Valid() && deletingSlots <= marked && Swept(storeOf, rs, turns, a, deletingSlots)
        invariant forall k :: Find(k) == if k.slot in marked - deletingSlots then None else old(Find(k))
      {
        assert Covered(storeOf, rs, rs[a].first);
        ghost var now := deletingSlots;
        var ok := DeleteSlots(rs[a], turns(a));
        SweepOne(storeOf, rs, turns, a, now, deletingSlots);
      }
      all := deletingSlots == {};
    }
  }

  /** The slots of the first `a` ranges are unmarked if their range could be deleted at its turn; no others are. */
  ghost predicate Swept(storeOf: nat -> nat, rs: seq<DeleteRange>, turns: nat -> Turn, a: nat, now: set<nat>)
  {
    forall b: nat, j: nat | b < |rs| && Covers(storeOf, rs[b], j) ::
      j in now <==> !(b < a && Deletable(storeOf, rs[b], turns(b)))
  }

  lemma SweepOne(storeOf: nat -> nat, rs: seq<DeleteRange>, turns: nat -> Turn, a: nat, now: set<nat>, next: set<nat>)
    requires a < |rs| && Disjoint(storeOf, rs) && Swept(storeOf, rs, turns, a, now)
    requires forall j: nat ::
               j in next <==> j in now && !(Deletable(storeOf, rs[a], turns(a)) && Covers(storeOf, rs[a], j))
    ensures Swept(storeOf, rs, turns, a + 1, next)
  {
    forall b: nat, j: nat | b < |rs| && Covers(storeOf, rs[b], j)
      ensures j in next <==> !(b < a + 1 && Deletable(storeOf, rs[b], turns(b)))
    {
      if b != a { assert !Covers(storeOf, rs[a], j); }
    }
  }
}
