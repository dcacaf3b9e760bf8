/** Optional values, and node names with the order in which the cluster compares them. */
module Names {

  datatype Option<+T> = None | Some(value: T)

  /** A node name; the cluster compares names as byte strings. */
  type Name = string

  predicate Less(a: Name, b: Name)
  {
    if b == "" then false
    else if a == "" then true
    else a[0] < b[0] || (a[0] == b[0] && Less(a[1..], b[1..]))
  }

  lemma {:induction false} LessIsTransitive(a: Name, b: Name, c: Name)
    requires Less(a, b) && Less(b, c)
    ensures Less(a, c)
  {
    if a != "" && a[0] == b[0] == c[0] {
      LessIsTransitive(a[1..], b[1..], c[1..]);
    }
  }

  lemma {:induction false} LessIsTotal(a: Name, b: Name)
    ensures Less(a, b) || Less(b, a) || a == b
    ensures !(Less(a, b) && Less(b, a))
    ensures !Less(a, a)
  {
    if a != "" && b != "" && a[0] == b[0] {
      LessIsTotal(a[1..], b[1..]);
      if a[1..] == b[1..] {
        assert a == [a[0]] + a[1..] == [b[0]] + b[1..] == b;
      }
    }
    if a != "" {
      LessIsTotal(a[1..], a[1..]);
    }
  }

  function Max(a: nat, b: nat): (m: nat)
  {
    if a < b then b else a
  }
}
