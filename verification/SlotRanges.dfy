/**
 The two replies to CLUSTER SLOTS: one scans every master's bitmap, the other walks the slot table once.
 Both list exactly the maximal runs of slots with one holder, each once.
 */
module SlotRanges {
  import opened Names
  import opened ClusterView
  import opened ClusterState

  datatype Range = Range(owner: Name, first: nat, last: nat)

  /** `r` is a stretch of slots of one holder that cannot be extended on either side. */
  predicate IsRun(t: Table, r: Range)
  {
    && r.first <= r.last < |t|
    && (forall k | r.first <= k <= r.last :: t[k] == Some(r.owner))
    && (r.first == 0 || t[r.first - 1] != Some(r.owner))
    && (r.last == |t| - 1 || t[r.last + 1] != Some(r.owner))
  }

  predicate NoRepeats(rs: seq<Range>)
  {
    forall i, j | 0 <= i < j < |rs| :: rs[i] != rs[j]
  }

  /** Two runs that share a slot are the same run. */
  lemma RunsAreDisjoint(t: Table, a: Range, b: Range)
    requires IsRun(t, a) && IsRun(t, b) && a.first <= b.last && b.first <= a.last
    ensures a == b
  {
    var k := Max(a.first, b.first);
    assert t[k] == Some(a.owner) == Some(b.owner);
  }

  function LeftEnd(t: Table, j: nat): (f: nat)
    requires j < |t|
    ensures f <= j && forall k | f <= k <= j :: t[k] == t[j]
    ensures f == 0 || t[f - 1] != t[j]
  {
    if j == 0 || t[j - 1] != t[j] then j else LeftEnd(t, j - 1)
  }

  function RightEnd(t: Table, j: nat): (l: nat)
    requires j < |t|
    ensures j <= l < |t| && forall k | j <= k <= l :: t[k] == t[j]
    ensures l == |t| - 1 || t[l + 1] != t[j]
    decreases |t| - j
  {
    if j == |t| - 1 || t[j + 1] != t[j] then j else RightEnd(t, j + 1)
  }

  /** Every assigned slot lies in one run, so the runs partition the assigned slots. */
  lemma EverySlotInOneRun(t: Table, j: nat)
    requires j < |t| && t[j].Some?
    ensures exists r :: IsRun(t, r) && r.first <= j <= r.last
    ensures forall a, b | IsRun(t, a) && IsRun(t, b) && a.first <= j <= a.last && b.first <= j <= b.last :: a == b
  {
    assert IsRun(t, Range(t[j].value, LeftEnd(t, j), RightEnd(t, j)));
    forall a, b | IsRun(t, a) && IsRun(t, b) && a.first <= j <= a.last && b.first <= j <= b.last ensures a == b {
      RunsAreDisjoint(t, a, b);
    }
  }

  /** `rs` lists the runs that end before slot `k`. */
  ghost predicate ListsRuns(t: Table, rs: seq<Range>, k: nat)
  {
    NoRepeats(rs) && forall r :: r in rs <==> IsRun(t, r) && r.last < k
  }

  lemma NextRun(t: Table, rs: seq<Range>, r: Range)
    requires ListsRuns(t, rs, r.first) && IsRun(t, r)
    ensures ListsRuns(t, rs + [r], r.last + 1)
  {
    forall q | IsRun(t, q) && r.first <= q.last <= r.last ensures q == r {
      RunsAreDisjoint(t, q, r);
    }
  }

  lemma SkipFree(t: Table, rs: seq<Range>, k: nat)
    requires ListsRuns(t, rs, k) && k < |t| && t[k].None?
    ensures ListsRuns(t, rs, k + 1)
  {
    forall q | IsRun(t, q) ensures q.last != k {
      assert t[q.last] == Some(q.owner);
    }
  }

  /** The walk over the slot table. */
  method ScanTable(cs: ClusterState) returns (rs: seq<Range>)
    requires cs.Valid()
    ensures NoRepeats(rs) && forall r :: r in rs <==> IsRun(cs.Table(), r)
  {
    ghost var t := cs.Table();
    rs := [];
    var node: ClusterNode? := null;
    var start := 0;
    var i := 0;
    while i <= SLOTS
      invariant i <= SLOTS
      invariant node == null ==> ListsRuns(t, rs, i) && (i == 0 || t[i - 1].None?)
      invariant node != null ==> ListsRuns(t, rs, start) && start < i
      invariant node != null ==> forall k | start <= k < i :: t[k] == Some(node.name)
      invariant node != null && start > 0 ==> t[start - 1] != Some(node.name)
      invariant node != null ==> cs.Known(node)
      decreases SLOTS - i
    {
      if node == null {
        if i == SLOTS { break; }
        node := cs.allSlots[i];
        start := i;
        if node == null { SkipFree(t, rs, i); }
      } else if i == SLOTS || node != cs.allSlots[i] {
        NextRun(t, rs, Range(node.name, start, i - 1));
        rs := rs + [Range(node.name, start, i - 1)];
        if i == SLOTS { break; }
        node := cs.allSlots[i];
        start := i;
        if node == null { SkipFree(t, rs, i); }
      }
      i := i + 1;
    }
  }

  /** `rs` lists the runs of `n` that end before slot `k`. */
  ghost predicate ListsRunsOf(t: Table, rs: seq<Range>, n: Name, k: nat)
  {
    NoRepeats(rs) && forall r :: r in rs <==> IsRun(t, r) && r.owner == n && r.last < k
  }

  lemma NextRunOf(t: Table, rs: seq<Range>, r: Range)
    requires ListsRunsOf(t, rs, r.owner, r.first) && IsRun(t, r)
    ensures ListsRunsOf(t, rs + [r], r.owner, r.last + 1)
  {
    forall q | IsRun(t, q) && r.first <= q.last <= r.last ensures q == r {
      RunsAreDisjoint(t, q, r);
    }
  }

  lemma SkipOther(t: Table, rs: seq<Range>, n: Name, k: nat)
    requires ListsRunsOf(t, rs, n, k) && k < |t| && t[k] != Some(n)
    ensures ListsRunsOf(t, rs, n, k + 1)
  {
    forall q | IsRun(t, q) && q.owner == n ensures q.last != k {
      assert t[q.last] == Some(q.owner);
    }
  }

  /** The scan of one node's bitmap; the last slot closes an open range from inside the loop. */
  method ScanNode(cs: ClusterState, node: ClusterNode) returns (rs: seq<Range>)
    requires cs.Valid() && cs.Known(node)
    ensures NoRepeats(rs) && forall r :: r in rs <==> IsRun(cs.Table(), r) && r.owner == node.name
  {
    ghost var t, n := cs.Table(), node.name;
    cs.BitsAreSlots(node);
    rs := [];
    var start := -1;
    var j := 0;
    while j < SLOTS
      invariant start == -1 ==> ListsRunsOf(t, rs, n, j) && (0 < j <= SLOTS ==> t[j - 1] != Some(n) || j == SLOTS)
      invariant start != -1 ==> j < SLOTS && 0 <= start < j && ListsRunsOf(t, rs, n, start)
      invariant start != -1 ==> forall k | start <= k < j :: t[k] == Some(n)
      invariant start > 0 ==> t[start - 1] != Some(n)
    {
      var bit := j in node.mySlots;
      if bit && start == -1 { start := j; }
      if start != -1 && (!bit || j == SLOTS - 1) {
        if bit && j == SLOTS - 1 { j := j + 1; }
        NextRunOf(t, rs, Range(n, start, j - 1));
        rs := rs + [Range(node.name, start, j - 1)];
        start := -1;
      }
      if j < SLOTS && !bit { SkipOther(t, rs, n, j); }
      j := j + 1;
    }
  }

  /** The reply built from the masters' bitmaps. */
  method ScanNodes(cs: ClusterState) returns (rs: seq<Range>)
    requires cs.Valid()
    ensures NoRepeats(rs) && forall r :: r in rs <==> IsRun(cs.Table(), r) && IsMaster(cs.Seen(), r.owner)
  {
    rs := [];
    var rest := cs.nodes.Keys;
    while rest != {}
      invariant rest <= cs.nodes.Keys && NoRepeats(rs)
      invariant forall r :: r in rs <==> IsRun(cs.Table(), r) && IsMaster(cs.Seen(), r.owner) && r.owner !in rest
    {
      var nm :| nm in rest;
      var node := cs.nodes[nm];
      cs.BitsAreSlots(node);
      if node.role.Master? && node.numSlots != 0 {
        var more := ScanNode(cs, node);
        rs := rs + more;
      } else if node.role.Master? {
        NoSlotsNoRuns(cs.Table(), nm);
      }
      rest := rest - {nm};
    }
  }

  lemma NoSlotsNoRuns(t: Table, n: Name)
    requires SlotsOf(t, n) == {}
    ensures forall r | IsRun(t, r) :: r.owner != n
  {
    forall r | IsRun(t, r) ensures r.owner != n {
      assert t[r.first] == Some(r.owner);
      assert r.first !in SlotsOf(t, n);
    }
  }

  ghost predicate HoldersAreMasters(v: View)
  {
    forall j | 0 <= j < |v.table| && v.table[j].Some? :: IsMaster(v, v.table[j].value)
  }

  /** The two replies list the same ranges exactly if every slot is held by a master. */
  lemma ScansAgreeExactlyIfMasters(v: View, byTable: seq<Range>, byNode: seq<Range>)
    requires NoRepeats(byTable) && forall r :: r in byTable <==> IsRun(v.table, r)
    requires NoRepeats(byNode) && forall r :: r in byNode <==> IsRun(v.table, r) && IsMaster(v, r.owner)
    ensures multiset(byTable) == multiset(byNode) <==> HoldersAreMasters(v)
  {
    if HoldersAreMasters(v) {
      forall r ensures r in byTable <==> r in byNode {
        if r in byTable { assert v.table[r.first] == Some(r.owner); }
      }
      SameRanges(byTable, byNode);
    } else {
      var j :| 0 <= j < |v.table| && v.table[j].Some? && !IsMaster(v, v.table[j].value);
      EverySlotInOneRun(v.table, j);
      var r :| IsRun(v.table, r) && r.first <= j <= r.last;
      assert r in multiset(byTable) && r !in multiset(byNode);
    }
  }

  lemma OnceEach(rs: seq<Range>, r: Range)
    requires NoRepeats(rs)
    ensures multiset(rs)[r] == if r in rs then 1 else 0
  {
    if r in rs {
      var i :| 0 <= i < |rs| && rs[i] == r;
      assert rs == rs[..i] + [r] + rs[i + 1..];
    }
  }

  lemma SameRanges(a: seq<Range>, b: seq<Range>)
    requires NoRepeats(a) && NoRepeats(b) && forall r :: r in a <==> r in b
    ensures multiset(a) == multiset(b)
  {
    forall r ensures multiset(a)[r] == multiset(b)[r] {
      OnceEach(a, r);
      OnceEach(b, r);
    }
  }
}
