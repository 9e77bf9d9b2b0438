/** The in-model stand-in for the persistence repositories: a table of records
    keyed by handles in insertion order, queried by a predicate on records. */
module Repository {
  import opened Wrappers

  /** Identity of a stored record (the object identity of the persisted entity). */
  type Handle = nat

  predicate Hit<R>(rows: map<Handle, R>, p: R -> bool, k: Handle)
  {
    k in rows && p(rows[k])
  }

  /** The first handle in [lo, hi) whose record satisfies p. */
  function FirstMatch<R>(rows: map<Handle, R>, p: R -> bool, lo: nat, hi: nat): (r: Option<Handle>)
    ensures r.Some? ==> lo <= r.value < hi && Hit(rows, p, r.value)
    ensures r.Some? ==> forall k :: lo <= k < r.value ==> !Hit(rows, p, k)
    ensures r.None? <==> forall k :: lo <= k < hi ==> !Hit(rows, p, k)
    decreases hi - lo
  {
    if lo >= hi then None
    else if Hit(rows, p, lo) then Some(lo)
    else FirstMatch(rows, p, lo + 1, hi)
  }

  /** All handles in [lo, hi) whose record satisfies p, in increasing order. */
  function AllMatching<R>(rows: map<Handle, R>, p: R -> bool, lo: nat, hi: nat): (r: seq<Handle>)
    ensures forall k :: k in r <==> lo <= k < hi && Hit(rows, p, k)
    ensures forall i, j :: 0 <= i < j < |r| ==> r[i] < r[j]
    decreases hi - lo
  {
    if lo >= hi then []
    else
      var rest := AllMatching(rows, p, lo + 1, hi);
      assert forall k :: k in rest ==> lo + 1 <= k;
      assert forall j :: 0 <= j < |rest| ==> rest[j] in rest;
      (if Hit(rows, p, lo) then [lo] else []) + rest
  }

  class Table<R> {
    var rows: map<Handle, R>
    /** The handle the next added record receives. */
    var next: nat

    ghost predicate Valid()
      reads this
    {
      forall k :: k in rows ==> k < next
    }

    constructor ()
      ensures Valid() && rows == map[] && next == 0
    {
      rows := map[];
      next := 0;
    }

    /** findOne...: the first record satisfying the query. */
    method FindFirst(p: R -> bool) returns (r: Option<Handle>)
      requires Valid()
      ensures r == FirstMatch(rows, p, 0, next)
      ensures r.Some? <==> exists k :: k in rows && p(rows[k])
    {
      var i := 0;
      while i < next
        invariant 0 <= i <= next
        invariant forall k :: 0 <= k < i ==> !Hit(rows, p, k)
        invariant FirstMatch(rows, p, i, next) == FirstMatch(rows, p, 0, next)
      {
        if i in rows && p(rows[i]) {
          return Some(i);
        }
        i := i + 1;
      }
      assert forall k :: k in rows ==> !Hit(rows, p, k);
      return None;
    }

    /** findBy...: every record satisfying the query. */
    method FindAll(p: R -> bool) returns (r: seq<Handle>)
      requires Valid()
      ensures r == AllMatching(rows, p, 0, next)
      ensures forall k :: k in r <==> k in rows && p(rows[k])
    {
      r := [];
      var i := next;
      while i > 0
        invariant 0 <= i <= next
        invariant r == AllMatching(rows, p, i, next)
      {
        i := i - 1;
        if i in rows && p(rows[i]) {
          r := [i] + r;
        }
      }
    }

    /** countBy...: the number of records satisfying the query. */
    method CountAll(p: R -> bool) returns (n: nat)
      requires Valid()
      ensures n == |AllMatching(rows, p, 0, next)|
    {
      var found := FindAll(p);
      n := |found|;
    }

    method Add(record: R) returns (h: Handle)
      requires Valid()
      modifies this
      ensures Valid()
      ensures h == old(next) && h !in old(rows)
      ensures rows == old(rows)[h := record] && next == old(next) + 1
    {
      h := next;
      rows := rows[h := record];
      next := next + 1;
    }

    method Remove(h: Handle)
      requires Valid()
      modifies this
      ensures Valid()
      ensures rows == old(rows) - {h} && next == old(next)
    {
      rows := rows - {h};
    }

    method Update(h: Handle, record: R)
      requires Valid() && h in rows
      modifies this
      ensures Valid()
      ensures rows == old(rows)[h := record] && next == old(next)
    {
      rows := rows[h := record];
    }
  }
}
