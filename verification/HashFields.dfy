/**
 A hash key: a meta record with a field count beside one record per field. Every command keeps the count
 equal to the number of fields, and the meta record exists exactly while there are fields.
 */
module HashFields {
  import opened Names

  const INT64_MIN := -0x8000_0000_0000_0000
  const INT64_MAX := 0x7fff_ffff_ffff_ffff

  predicate Int64(n: int)
  {
    INT64_MIN <= n <= INT64_MAX
  }

  /** Addition as 64-bit registers do it. */
  function WrapAdd(a: int, b: int): (r: int)
    requires Int64(a) && Int64(b)
    ensures Int64(r) && (r == a + b <==> Int64(a + b))
  {
    if a + b > INT64_MAX then a + b - 0x1_0000_0000_0000_0000
    else if a + b < INT64_MIN then a + b + 0x1_0000_0000_0000_0000 else a + b
  }

  datatype Field = Field(name: string)

  datatype Value = Value(text: string)

  /** How numbers are read from values and written to them. */
  datatype Numbers = Numbers(parse: Value -> Option<int>, show: int -> Value) {
    ghost predicate Sane()
    {
      forall s {:trigger parse(s)} :: parse(s).Some? ==> Int64(parse(s).value)
    }
  }

  datatype Meta = Meta(count: nat, ttl: nat, cas: int)

  datatype Change = Change(field: Field, op: nat, value: Value)

  datatype Reply<T> = Ok(value: T) | NotInteger | Overflow | CasMismatch | UnknownOp

  /** The fields after each pair was written in turn. */
  function SetAll(fields: map<Field, Value>, pairs: seq<(Field, Value)>): map<Field, Value>
    decreases |pairs|
  {
    if pairs == [] then fields else SetAll(fields[pairs[0].0 := pairs[0].1], pairs[1..])
  }

  /** For every field that is named, the last change that names it. */
  function Last(changes: seq<Change>): map<Field, Change>
  {
    if changes == [] then map[]
    else Last(changes[..|changes| - 1])[changes[|changes| - 1].field := changes[|changes| - 1]]
  }

  class HashKey {
    const num: Numbers
    var meta: Option<Meta>
    var fields: map<Field, Value>

    constructor (num: Numbers)
      requires num.Sane()
      ensures Valid() && fields == map[]
    {
      this.num := num;
      meta, fields := None, map[];
    }

    /** The meta record exists exactly if there is a field, and counts the fields. */
    ghost predicate Valid()
      reads this
    {
      && num.Sane()
      && (meta.Some? <==> fields != map[])
      && (meta.Some? ==> meta.value.count == |fields|)
    }

    function Count(): nat
      reads this
    {
      if meta.Some? then meta.value.count else 0
    }

    method Hmset(pairs: seq<(Field, Value)>) returns (inserted: nat)
      requires Valid() && pairs != []
      modifies this`meta, this`fields
      ensures Valid() && fields == SetAll(old(fields), pairs) && |fields| == |old(fields)| + inserted
    {
      inserted := 0;
      for i := 0 to |pairs|
        invariant SetAll(fields, pairs[i..]) == SetAll(old(fields), pairs)
        invariant |fields| == |old(fields)| + inserted && meta == old(meta) && (i > 0 ==> fields != map[])
      {
        assert pairs[i..][0] == pairs[i] && pairs[i..][1..] == pairs[i + 1..];
        if pairs[i].0 !in fields { inserted := inserted + 1; }
        fields := fields[pairs[i].0 := pairs[i].1];
      }
      meta := Some(Meta(Count() + inserted, if meta.Some? then meta.value.ttl else 0, -1));
    }

    method Hsetnx(field: Field, value: Value) returns (set_: bool)
      requires Valid()
      modifies this`meta, this`fields
      ensures Valid() && set_ == (field !in old(fields))
      ensures fields == if set_ then old(fields)[field := value] else old(fields)
    {
      if field in fields { return false; }
      meta := Some(Meta(Count() + 1, if meta.Some? then meta.value.ttl else 0, if meta.Some? then meta.value.cas else -1));
      fields := fields[field := value];
      return true;
    }

    /** The sum is written exactly if the old value is a number and the sum is one of 64 bits. */
    method Hincrby(field: Field, inc: int) returns (r: Reply<int>)
      requires Valid() && Int64(inc)
      modifies this`meta, this`fields
      ensures Valid()
      ensures var now := if field in old(fields) then num.parse(old(fields)[field]) else Some(0);
              match r {
                case Ok(n) => now.Some? && n == now.value + inc && Int64(n) && fields == old(fields)[field := num.show(n)]
                case NotInteger => now.None? && fields == old(fields) && meta == old(meta)
                case Overflow => now.Some? && !Int64(now.value + inc) && fields == old(fields) && meta == old(meta)
                case _ => false
              }
    {
      var now, count := 0, Count();
      if field in fields {
        var v := num.parse(fields[field]);
        if v.None? { return NotInteger; }
        now := v.value;
      } else {
        count := count + 1;
      }
      if (inc < 0 && now < 0 && inc < INT64_MIN - now) || (inc > 0 && now > 0 && inc > INT64_MAX - now) {
        return Overflow;
      }
      now := now + inc;
      meta := Some(Meta(count, if meta.Some? then meta.value.ttl else 0, if meta.Some? then meta.value.cas else -1));
      fields := fields[field := num.show(now)];
      return Ok(now);
    }

    method Hdel(names: seq<Field>) returns (realDel: nat)
      requires Valid()
      modifies this`meta, this`fields
      ensures Valid() && |old(fields)| == |fields| + realDel
      ensures fields == map f | f in old(fields) && f !in names :: old(fields)[f]
    {
      realDel := 0;
      if meta.None? { return; }
      for i := 0 to |names|
        invariant fields == map f | f in old(fields) && f !in names[..i] :: old(fields)[f]
        invariant |old(fields)| == |fields| + realDel && meta == old(meta)
      {
        assert names[..i + 1] == names[..i] + [names[i]];
        if names[i] in fields {
          assert fields.Keys == (fields - {names[i]}).Keys + {names[i]};
          fields := fields - {names[i]};
          realDel := realDel + 1;
        }
      }
      assert names[..|names|] == names;
      if realDel >= Count() {
        assert |fields| == 0;
        meta := None;
      } else {
        meta := Some(meta.value.(count := meta.value.count - realDel));
      }
    }

    predicate Stale(cmp: bool, vsn: int)
      reads this
    {
      cmp && meta.Some? && vsn != meta.value.cas && meta.value.cas != -1
    }

    function NextCas(cmp: bool, vsn: int, newvsn: Option<int>): int
      reads this
    {
      if newvsn.Some? then newvsn.value
      else if cmp && meta.Some? && meta.value.cas != -1 then meta.value.cas + 1 else vsn + 1
    }

    /** Of several changes to one field the last counts; all are made, or none. */
    method Hmcas(cmp: bool, vsn: int, newvsn: Option<int>, changes: seq<Change>) returns (r: Reply<nat>)
      requires Valid() && changes != []
      modifies this`meta, this`fields
      ensures Valid()
      ensures r.Ok? <==> !old(Stale(cmp, vsn)) && AllOk(num, old(fields), Last(changes))
      ensures r.Ok? ==> Changed(num, fields, old(fields), Last(changes))
      ensures r.Ok? ==> meta.Some? && meta.value.cas == old(NextCas(cmp, vsn, newvsn))
      ensures !r.Ok? ==> fields == old(fields) && meta == old(meta)
    {
      if Stale(cmp, vsn) { return CasMismatch; }
      var uniq := UniqueKeys(changes);
      var now, exist := ApplyChanges(num, fields, uniq);
      ListedOk(num, fields, uniq, changes);
      if !now.Ok? { return if now.NotInteger? then NotInteger else UnknownOp; }
      ListedChanges(num, now.value, fields, uniq, changes);
      meta := Some(Meta(Count() + |uniq| - exist, if meta.Some? then meta.value.ttl else 0, NextCas(cmp, vsn, newvsn)));
      fields := now.value;
      return Ok(|uniq|);
    }
  }

  /** What a change writes, against the fields before the call; the sum of an addition is not checked. */
  function Outcome(num: Numbers, before: map<Field, Value>, c: Change): Reply<Value>
    requires num.Sane()
  {
    if c.op == 0 || (c.field !in before && c.op == 1) then Ok(c.value)
    else if c.op != 1 then UnknownOp
    else
      var a, b := num.parse(before[c.field]), num.parse(c.value);
      if a.None? || b.None? then NotInteger else Ok(num.show(WrapAdd(b.value, a.value)))
  }

  /** One entry for every field that is named, with its last change. */
  ghost predicate ListsLast(uniq: seq<Change>, changes: seq<Change>)
  {
    && (forall i, j | 0 <= i < j < |uniq| :: uniq[i].field != uniq[j].field)
    && (forall i | 0 <= i < |uniq| :: uniq[i].field in Last(changes) && Last(changes)[uniq[i].field] == uniq[i])
    && (forall f | f in Last(changes) :: exists i | 0 <= i < |uniq| :: uniq[i].field == f)
  }

  method UniqueKeys(changes: seq<Change>) returns (uniq: seq<Change>)
    ensures ListsLast(uniq, changes)
  {
    uniq := [];
    for n := 0 to |changes|
      invariant ListsLast(uniq, changes[..n])
    {
      assert changes[..n + 1] == changes[..n] + [changes[n]];
      uniq := Insert(uniq, changes[n], changes[..n]);
    }
    assert changes[..|changes|] == changes;
  }

  method Insert(uniq: seq<Change>, c: Change, ghost before: seq<Change>) returns (r: seq<Change>)
    requires ListsLast(uniq, before)
    ensures ListsLast(r, before + [c])
  {
    assert (before + [c])[..|before|] == before;
    ghost var last := Last(before + [c]);
    assert last == Last(before)[c.field := c];
    for i := 0 to |uniq|
      invariant forall k | 0 <= k < i :: uniq[k].field != c.field
    {
      if uniq[i].field == c.field {
        r := uniq[i := c];
        forall f | f in last ensures exists k | 0 <= k < |r| :: r[k].field == f {
          if f == c.field { assert r[i].field == f; } else { var k :| 0 <= k < |uniq| && uniq[k].field == f; assert r[k].field == f; }
        }
        return;
      }
    }
    r := uniq + [c];
    forall f | f in last ensures exists k | 0 <= k < |r| :: r[k].field == f {
      if f == c.field { assert r[|uniq|].field == f; } else { var k :| 0 <= k < |uniq| && uniq[k].field == f; assert r[k].field == f; }
    }
  }

  /** The first `n` listed fields have the outcome of their change, the others are as before. */
  ghost predicate Holds(num: Numbers, now: map<Field, Value>, before: map<Field, Value>, uniq: seq<Change>, n: nat)
    requires num.Sane() && n <= |uniq|
  {
    && (forall f :: f in now <==> f in before || Listed(uniq, n, f))
    && (forall i | 0 <= i < n :: uniq[i].field in now && Outcome(num, before, uniq[i]) == Ok(now[uniq[i].field]))
    && (forall f | f in before && !Listed(uniq, n, f) :: now[f] == before[f])
  }

  ghost predicate Listed(uniq: seq<Change>, n: nat, f: Field)
    requires n <= |uniq|
  {
    exists i | 0 <= i < n :: uniq[i].field == f
  }

  lemma HoldsForOneMore(num: Numbers, now: map<Field, Value>, before: map<Field, Value>, uniq: seq<Change>, n: nat, v: Value)
    requires num.Sane() && n < |uniq| && Holds(num, now, before, uniq, n) && Outcome(num, before, uniq[n]) == Ok(v)
    requires forall i, j | 0 <= i < j < |uniq| :: uniq[i].field != uniq[j].field
    ensures Holds(num, now[uniq[n].field := v], before, uniq, n + 1)
    ensures uniq[n].field in now <==> uniq[n].field in before
  {
    var f := uniq[n].field;
    assert !Listed(uniq, n, f);
    forall g ensures Listed(uniq, n + 1, g) <==> Listed(uniq, n, g) || g == f {
      if Listed(uniq, n, g) {
        var i :| 0 <= i < n && uniq[i].field == g;
        assert 0 <= i < n + 1;
      }
    }
    forall i | 0 <= i < n ensures uniq[i].field != f {}
  }

  /** The loop over the listed fields, on a copy that is kept only if it runs to the end. */
  method ApplyChanges(num: Numbers, fields: map<Field, Value>, uniq: seq<Change>)
    returns (r: Reply<map<Field, Value>>, exist: nat)
    requires num.Sane() && forall i, j | 0 <= i < j < |uniq| :: uniq[i].field != uniq[j].field
    ensures r.Ok? <==> forall i | 0 <= i < |uniq| :: Outcome(num, fields, uniq[i]).Ok?
    ensures r.Ok? ==> Holds(num, r.value, fields, uniq, |uniq|) && |r.value| + exist == |fields| + |uniq|
  {
    exist := 0;
    var now := fields;
    for n := 0 to |uniq|
      invariant Holds(num, now, fields, uniq, n) && |now| + exist == |fields| + n
    {
      var v := Outcome(num, fields, uniq[n]);
      if !v.Ok? {
        r := if v.NotInteger? then NotInteger else UnknownOp;
        return;
      }
      HoldsForOneMore(num, now, fields, uniq, n, v.value);
      OneMoreKey(now, uniq[n].field, v.value);
      if uniq[n].field in fields { exist := exist + 1; }
      now := now[uniq[n].field := v.value];
    }
    r := Ok(now);
  }

  ghost predicate AllOk(num: Numbers, before: map<Field, Value>, last: map<Field, Change>)
    requires num.Sane()
  {
    forall f | f in last :: Outcome(num, before, last[f]).Ok?
  }

  /** Every named field has the outcome of its last change, the others are as before. */
  ghost predicate Changed(num: Numbers, now: map<Field, Value>, before: map<Field, Value>, last: map<Field, Change>)
    requires num.Sane()
  {
    && (forall f :: f in now <==> f in before || f in last)
    && (forall f | f in last :: Outcome(num, before, last[f]) == Ok(now[f]))
    && (forall f | f in before && f !in last :: now[f] == before[f])
  }

  lemma ListedOk(num: Numbers, before: map<Field, Value>, uniq: seq<Change>, changes: seq<Change>)
    requires num.Sane() && ListsLast(uniq, changes)
    ensures (forall i | 0 <= i < |uniq| :: Outcome(num, before, uniq[i]).Ok?) <==> AllOk(num, before, Last(changes))
  {
    var last := Last(changes);
    if forall i | 0 <= i < |uniq| :: Outcome(num, before, uniq[i]).Ok? {
      forall f | f in last ensures Outcome(num, before, last[f]).Ok? {
        var i :| 0 <= i < |uniq| && uniq[i].field == f;
        assert last[f] == uniq[i];
      }
    } else {
      var i :| 0 <= i < |uniq| && !Outcome(num, before, uniq[i]).Ok?;
      assert last[uniq[i].field] == uniq[i];
    }
  }

  lemma ListedChanges(num: Numbers, now: map<Field, Value>, before: map<Field, Value>, uniq: seq<Change>, changes: seq<Change>)
    requires num.Sane() && ListsLast(uniq, changes) && Holds(num, now, before, uniq, |uniq|) && changes != []
    ensures Changed(num, now, before, Last(changes)) && now != map[]
  {
    var last := Last(changes);
    forall f | f in last ensures f in now && Outcome(num, before, last[f]) == Ok(now[f]) {
      var i :| 0 <= i < |uniq| && uniq[i].field == f;
      assert last[f] == uniq[i];
    }
    assert changes[|changes| - 1].field in last;
  }

  lemma OneMoreKey(m: map<Field, Value>, f: Field, v: Value)
    ensures |m[f := v]| == |m| + if f in m then 0 else 1
  {
    if f in m { assert m[f := v].Keys == m.Keys; } else { assert m[f := v].Keys == m.Keys + {f}; }
  }
}
