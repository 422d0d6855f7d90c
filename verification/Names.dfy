/** Lists of distinct names in byte order. */
module Names {
  import opened Common
  import opened Sorting

  ghost predicate Ascending(names: seq<string>) {
    forall i, j | 0 <= i < j < |names| :: Less(names[i], names[j])
  }

  ghost predicate Descending(names: seq<string>) {
    forall i, j | 0 <= i < j < |names| :: Less(names[j], names[i])
  }

  ghost predicate Distinct(names: seq<string>) {
    forall i, j | 0 <= i < j < |names| :: names[i] != names[j]
  }

  method SortNames(names: seq<string>) returns (sorted: seq<string>)
    requires Distinct(names)
    ensures Ascending(sorted)
    ensures forall name :: name in sorted <==> name in names
  {
    NamesAreOrdered();
    var atMost := (a: string, b: string) => AtMost(a, b);
    sorted := Sort(names, atMost);
    SameElements(names, sorted);
    var differ := (a: string, b: string) => a != b;
    assert forall i, j | 0 <= i < j < |names| :: differ(names[i], names[j]);
    PairwiseOfPermutation(names, sorted, differ);
    assert forall i, j | 0 <= i < j < |sorted| :: differ(sorted[i], sorted[j]) && atMost(sorted[i], sorted[j]);
  }

  method Reverse(names: seq<string>) returns (r: seq<string>)
    requires Ascending(names)
    ensures Descending(r)
    ensures forall name :: name in r <==> name in names
  {
    r := [];
    for k := 0 to |names|
      invariant |r| == k && forall i | 0 <= i < k :: r[i] == names[k - 1 - i]
    {
      r := [names[k]] + r;
    }
    forall name | name in names
      ensures name in r
    {
      var i :| 0 <= i < |names| && names[i] == name;
      assert r[|names| - 1 - i] == name;
    }
  }
}
