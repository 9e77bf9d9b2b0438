/** Content dimensions of a node record: the list of (dimension, value) pairs,
    the cached grouping of values per dimension with each group sorted (which
    also feeds the dimensions hash), and the matching of a record's dimension
    values against requested dimensions. */
module Dimensions {
  import opened Wrappers
  import opened Strings

  /** One (dimension name, value) pair attached to a record. */
  datatype NodeDimension = NodeDimension(name: string, value: string)

  /** One key of an ordered name => values array. */
  datatype DimensionEntry = DimensionEntry(name: string, values: seq<string>)

  /** The keys of an ordered array, in order. */
  function Names(es: seq<DimensionEntry>): (r: seq<string>)
    ensures |r| == |es| && forall i :: 0 <= i < |es| ==> r[i] == es[i].name
  {
    if |es| == 0 then [] else [es[0].name] + Names(es[1..])
  }

  predicate DistinctNames(es: seq<DimensionEntry>)
  {
    forall i, j :: 0 <= i < j < |es| ==> es[i].name != es[j].name
  }

  /** $array[$name], or nothing when unset. */
  function Lookup(es: seq<DimensionEntry>, n: string): Option<seq<string>>
  {
    if |es| == 0 then None
    else if es[0].name == n then Some(es[0].values)
    else Lookup(es[1..], n)
  }

  /** $array[$name][] = $value */
  function AddValue(es: seq<DimensionEntry>, n: string, v: string): seq<DimensionEntry>
  {
    if |es| == 0 then [DimensionEntry(n, [v])]
    else if es[0].name == n then [DimensionEntry(n, es[0].values + [v])] + es[1..]
    else [es[0]] + AddValue(es[1..], n, v)
  }

  /** The values grouped per dimension name, names in order of first occurrence. */
  function Group(ds: seq<NodeDimension>): seq<DimensionEntry>
  {
    if |ds| == 0 then []
    else AddValue(Group(ds[..|ds| - 1]), ds[|ds| - 1].name, ds[|ds| - 1].value)
  }

  function SortEach(es: seq<DimensionEntry>): (r: seq<DimensionEntry>)
    ensures |r| == |es|
    ensures forall i :: 0 <= i < |es| ==> r[i] == DimensionEntry(es[i].name, Sort(es[i].values))
  {
    if |es| == 0 then [] else [DimensionEntry(es[0].name, Sort(es[0].values))] + SortEach(es[1..])
  }

  /** The cached dimension values; the dimensions hash is a digest of exactly this value. */
  function Canonical(ds: seq<NodeDimension>): seq<DimensionEntry>
  {
    SortEach(Group(ds))
  }

  /** The values given for dimension n, in the order they were attached. */
  function ValuesOf(ds: seq<NodeDimension>, n: string): seq<string>
  {
    if |ds| == 0 then []
    else ValuesOf(ds[..|ds| - 1], n) + (if ds[|ds| - 1].name == n then [ds[|ds| - 1].value] else [])
  }

  predicate HasName(ds: seq<NodeDimension>, n: string)
  {
    exists i :: 0 <= i < |ds| && ds[i].name == n
  }

  /** The pairs a record is constructed with from an ordered name => values array. */
  function Flatten(es: seq<DimensionEntry>): seq<NodeDimension>
  {
    if |es| == 0 then []
    else Pairs(es[0].name, es[0].values) + Flatten(es[1..])
  }

  function Pairs(n: string, vs: seq<string>): (r: seq<NodeDimension>)
    ensures |r| == |vs| && forall i :: 0 <= i < |vs| ==> r[i] == NodeDimension(n, vs[i])
  {
    if |vs| == 0 then [] else [NodeDimension(n, vs[0])] + Pairs(n, vs[1..])
  }

  // ---------------------------------------------------------------------
  // buildDimensionValues
  // ---------------------------------------------------------------------

  /** Groups the record's dimension values by name and sorts each group. */
  method BuildDimensionValues(ds: seq<NodeDimension>) returns (r: seq<DimensionEntry>)
    ensures r == Canonical(ds)
  {
    var groups := GroupValues(ds);
    r := SortGroups(groups);
  }

  /** The first loop of buildDimensionValues: $dimensionValues[$name][] = $value. */
  method GroupValues(ds: seq<NodeDimension>) returns (groups: seq<DimensionEntry>)
    ensures groups == Group(ds)
  {
    groups := [];
    var i := 0;
    while i < |ds|
      invariant 0 <= i <= |ds|
      invariant groups == Group(ds[..i])
    {
      assert ds[..i + 1][..i] == ds[..i];
      groups := AddValue(groups, ds[i].name, ds[i].value);
      i := i + 1;
    }
    assert ds[..|ds|] == ds;
  }

  /** The second loop of buildDimensionValues: sort($values) for every name. */
  method SortGroups(groups: seq<DimensionEntry>) returns (r: seq<DimensionEntry>)
    ensures r == SortEach(groups)
  {
    r := [];
    var j := 0;
    while j < |groups|
      invariant 0 <= j <= |groups| && |r| == j
      invariant forall k :: 0 <= k < j ==> r[k] == DimensionEntry(groups[k].name, Sort(groups[k].values))
    {
      var entry := groups[j];
      r := r + [DimensionEntry(entry.name, Sort(entry.values))];
      j := j + 1;
    }
    ghost var sorted := SortEach(groups);
    assert |r| == |sorted| && forall k :: 0 <= k < |r| ==> r[k] == sorted[k];
  }

  // ---------------------------------------------------------------------
  // Properties of the grouping
  // ---------------------------------------------------------------------

  lemma {:induction false} LookupAddValue(es: seq<DimensionEntry>, n: string, v: string, m: string)
    ensures Lookup(AddValue(es, n, v), m) ==
      if m == n then Some((if Lookup(es, n).Some? then Lookup(es, n).value else []) + [v])
      else Lookup(es, m)
  {
    if |es| > 0 && es[0].name != n {
      LookupAddValue(es[1..], n, v, m);
      assert AddValue(es, n, v)[1..] == AddValue(es[1..], n, v);
    } else if |es| > 0 {
      var r := AddValue(es, n, v);
      assert r[0] == DimensionEntry(n, es[0].values + [v]);
      assert r[1..] == es[1..];
      if m != n {
        assert Lookup(r, m) == Lookup(r[1..], m);
      }
    } else {
      var r := AddValue(es, n, v);
      assert [] + [v] == [v];
      assert r[1..] == [];
    }
  }

  lemma {:induction false} ValuesOfSnocEmpty(ds: seq<NodeDimension>, n: string)
    requires !HasName(ds, n)
    ensures ValuesOf(ds, n) == []
  {
    if |ds| > 0 {
      ValuesOfSnocEmpty(ds[..|ds| - 1], n);
    }
  }

  /** The group of n holds exactly the values attached for n, in attachment order;
      a name never attached has no group. */
  lemma {:induction false} LookupGroup(ds: seq<NodeDimension>, n: string)
    ensures Lookup(Group(ds), n) == if HasName(ds, n) then Some(ValuesOf(ds, n)) else None
  {
    if |ds| > 0 {
      var init, last := ds[..|ds| - 1], ds[|ds| - 1];
      LookupGroup(init, n);
      LookupAddValue(Group(init), last.name, last.value, n);
      assert HasName(ds, n) <==> HasName(init, n) || last.name == n by {
        if HasName(init, n) {
          var i :| 0 <= i < |init| && init[i].name == n;
          assert ds[i] == init[i];
        }
        if HasName(ds, n) && last.name != n {
          var i :| 0 <= i < |ds| && ds[i].name == n;
          assert init[i] == ds[i];
        }
      }
      if last.name == n && !HasName(init, n) {
        ValuesOfSnocEmpty(init, n);
      }
      assert ValuesOf(init, n) + [] == ValuesOf(init, n);
      assert [] + [last.value] == [last.value];
    }
  }

  lemma {:induction false} AddValueDistinct(es: seq<DimensionEntry>, n: string, v: string)
    requires DistinctNames(es)
    ensures DistinctNames(AddValue(es, n, v))
    ensures Names(AddValue(es, n, v)) == if Lookup(es, n).Some? then Names(es) else Names(es) + [n]
  {
    if |es| > 0 {
      if es[0].name != n {
        assert DistinctNames(es[1..]) by {
          forall i, j | 0 <= i < j < |es[1..]| ensures es[1..][i].name != es[1..][j].name {
            assert es[1..][i] == es[i + 1] && es[1..][j] == es[j + 1];
          }
        }
        AddValueDistinct(es[1..], n, v);
        var t := AddValue(es[1..], n, v);
        assert AddValue(es, n, v) == [es[0]] + t;
        forall k | 0 <= k < |t| ensures t[k].name != es[0].name {
          assert t[k].name == Names(t)[k];
          if Lookup(es[1..], n).Some? {
            assert Names(t)[k] == Names(es[1..])[k] == es[k + 1].name;
          } else if k < |es[1..]| {
            assert Names(t)[k] == Names(es[1..])[k] == es[k + 1].name;
          } else {
            assert Names(t)[k] == n;
          }
        }
        assert Names([es[0]] + t) == [es[0].name] + Names(t);
        assert Names(es) == [es[0].name] + Names(es[1..]);
      } else {
        var r := AddValue(es, n, v);
        assert forall k :: 0 <= k < |r| ==> r[k].name == es[k].name;
      }
    }
  }

  /** The grouping has one entry per attached name. */
  lemma {:induction false} GroupDistinct(ds: seq<NodeDimension>)
    ensures DistinctNames(Group(ds))
  {
    if |ds| > 0 {
      GroupDistinct(ds[..|ds| - 1]);
      AddValueDistinct(Group(ds[..|ds| - 1]), ds[|ds| - 1].name, ds[|ds| - 1].value);
    }
  }

  lemma {:induction false} LookupDistinct(es: seq<DimensionEntry>, i: int)
    requires DistinctNames(es) && 0 <= i < |es|
    ensures Lookup(es, es[i].name) == Some(es[i].values)
  {
    if i > 0 {
      assert es[0].name != es[i].name;
      assert DistinctNames(es[1..]) by {
        forall a, b | 0 <= a < b < |es[1..]| ensures es[1..][a].name != es[1..][b].name {
          assert es[1..][a] == es[a + 1] && es[1..][b] == es[b + 1];
        }
      }
      LookupDistinct(es[1..], i - 1);
    }
  }

  /** The cached values of n are the attached values of n, sorted. */
  lemma CanonicalLookup(ds: seq<NodeDimension>, i: int)
    requires 0 <= i < |Canonical(ds)|
    ensures HasName(ds, Canonical(ds)[i].name)
    ensures Canonical(ds)[i].values == Sort(ValuesOf(ds, Canonical(ds)[i].name))
  {
    var g := Group(ds);
    GroupDistinct(ds);
    LookupDistinct(g, i);
    LookupGroup(ds, g[i].name);
  }

  /** The hash does not depend on the order in which the values of one
      dimension were attached: two records with the same dimension names in
      the same order of first occurrence, and the same values per name, get
      the same cached values and hence the same hash. */
  lemma CanonicalIgnoresValueOrder(a: seq<NodeDimension>, b: seq<NodeDimension>)
    requires Names(Group(a)) == Names(Group(b))
    requires forall n :: multiset(ValuesOf(a, n)) == multiset(ValuesOf(b, n))
    ensures Canonical(a) == Canonical(b)
  {
    var ga, gb := Group(a), Group(b);
    GroupDistinct(a);
    GroupDistinct(b);
    assert |ga| == |Names(ga)| == |Names(gb)| == |gb|;
    forall i | 0 <= i < |ga| ensures Canonical(a)[i] == Canonical(b)[i] {
      assert ga[i].name == Names(ga)[i] == Names(gb)[i] == gb[i].name;
      CanonicalLookup(a, i);
      CanonicalLookup(b, i);
      SortIgnoresOrder(ValuesOf(a, ga[i].name), ValuesOf(b, ga[i].name));
    }
  }

  /** The order of the dimension names is kept, so attaching the same pairs
      with the names in another order gives another hash. */
  lemma NameOrderMatters()
    ensures Canonical([NodeDimension("language", "de"), NodeDimension("country", "ch")])
         != Canonical([NodeDimension("country", "ch"), NodeDimension("language", "de")])
  {
    var a := [NodeDimension("language", "de"), NodeDimension("country", "ch")];
    assert a[..1] == [NodeDimension("language", "de")];
    var b := [NodeDimension("country", "ch"), NodeDimension("language", "de")];
    assert b[..1] == [NodeDimension("country", "ch")];
    assert a[..1][..0] == [];
    assert Group(a[..1]) == [DimensionEntry("language", ["de"])];
    var la, co := DimensionEntry("language", ["de"]), DimensionEntry("country", ["ch"]);
    assert [la][1..] == [] && [co][1..] == [];
    assert AddValue([la], "country", "ch") == [la] + AddValue([], "country", "ch");
    assert Group(a) == [la, co];
    assert Canonical(a)[0].name == "language";
    assert b[..1][..0] == [];
    assert Group(b[..1]) == [DimensionEntry("country", ["ch"])];
    assert AddValue([co], "language", "de") == [co] + AddValue([], "language", "de");
    assert Group(b) == [co, la];
    assert Canonical(b)[0].name == "country";
  }

  // ---------------------------------------------------------------------
  // Matching requested dimensions
  // ---------------------------------------------------------------------

  predicate Intersects(a: seq<string>, b: seq<string>)
  {
    exists i :: 0 <= i < |a| && a[i] in b
  }

  /** The loop of matchesWorkspaceAndDimensions over the requested dimensions:
      the first requested name that is unset on the record, or whose values
      share nothing with the record's, makes the match fail. */
  function MatchesDimensions(values: seq<DimensionEntry>, requested: seq<DimensionEntry>): bool
  {
    if |requested| == 0 then true
    else
      var own := Lookup(values, requested[0].name);
      if own.None? || !Intersects(own.value, requested[0].values) then false
      else MatchesDimensions(values, requested[1..])
  }

  /** A record matches iff every requested dimension is set on it with at least one requested value. */
  lemma {:induction false} MatchesDimensionsIff(values: seq<DimensionEntry>, requested: seq<DimensionEntry>)
    ensures MatchesDimensions(values, requested) <==>
      forall i :: 0 <= i < |requested| ==>
        Lookup(values, requested[i].name).Some? &&
        Intersects(Lookup(values, requested[i].name).value, requested[i].values)
  {
    if |requested| > 0 {
      MatchesDimensionsIff(values, requested[1..]);
      assert forall i :: 1 <= i < |requested| ==> requested[i] == requested[1..][i - 1];
      if MatchesDimensions(values, requested) {
        forall i | 0 <= i < |requested|
          ensures Lookup(values, requested[i].name).Some? &&
            Intersects(Lookup(values, requested[i].name).value, requested[i].values)
        {
          if i > 0 {
            assert requested[i] == requested[1..][i - 1];
          }
        }
      }
    }
  }
}
