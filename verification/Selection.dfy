/**
  The order in which the allocator walks the resources of a bus: repeated calls of
  largest_resource (src/device/device.c), each of which scans the whole bus again and picks the
  successor of the resource picked last.
 */
module Selection {
  import opened Wrappers

  // What pick_largest_resource looks at: whether the resource takes part at all (it matches the
  // type, its device is enabled and it is not fixed), its alignment and its size.
  datatype Key = Key(eligible: bool, align: nat, size: nat)

  datatype PickState = PickState(result: Option<nat>, seenLast: bool)

  // pick_largest_resource: the candidate at position i is offered to the search.
  function Visit(keys: seq<Key>, last: Option<nat>, st: PickState, i: nat): PickState
    requires i < |keys|
    requires last.Some? ==> last.value < |keys|
    requires st.result.Some? ==> st.result.value < |keys|
  {
    var k := keys[i];
    if last == Some(i) then st.(seenLast := true)
    else if !k.eligible then st
    else if last.Some? &&
            var l := keys[last.value];
            l.align < k.align || (l.align == k.align && l.size < k.size)
            || (l.align == k.align && l.size == k.size && !st.seenLast) then st
    else if st.result.None? ||
            var b := keys[st.result.value];
            b.align < k.align || (b.align == k.align && b.size < k.size) then st.(result := Some(i))
    else st
  }

  // search_bus_resources from position i to the end of the bus.
  function Search(keys: seq<Key>, last: Option<nat>, st: PickState, i: nat): (r: PickState)
    requires i <= |keys|
    requires last.Some? ==> last.value < |keys|
    requires st.result.Some? ==> st.result.value < |keys|
    ensures r.result.Some? ==> r.result.value < |keys|
    decreases |keys| - i
  {
    if i == |keys| then st else Search(keys, last, Visit(keys, last, st, i), i + 1)
  }

  // largest_resource: the position picked after `last`.
  function Next(keys: seq<Key>, last: Option<nat>): (r: Option<nat>)
    requires last.Some? ==> last.value < |keys|
    ensures r.Some? ==> r.value < |keys|
  {
    Search(keys, last, PickState(None, false), 0).result
  }

  // The order promised: alignment descending, then size descending, then bus order.
  predicate Before(keys: seq<Key>, i: nat, j: nat)
    requires i < |keys| && j < |keys|
  {
    var a, b := keys[i], keys[j];
    a.align > b.align || (a.align == b.align && (a.size > b.size || (a.size == b.size && i < j)))
  }

  predicate Follows(keys: seq<Key>, last: Option<nat>, j: nat)
    requires last.Some? ==> last.value < |keys|
    requires j < |keys|
  {
    keys[j].eligible && (last.Some? ==> Before(keys, last.value, j))
  }

  // The best candidate among the first i positions.
  ghost predicate Best(keys: seq<Key>, last: Option<nat>, r: Option<nat>, i: nat)
    requires i <= |keys|
    requires last.Some? ==> last.value < |keys|
  {
    match r
    case None => forall j :: 0 <= j < i ==> !Follows(keys, last, j)
    case Some(b) =>
      && b < i && Follows(keys, last, b)
      && forall j :: 0 <= j < i && j != b && Follows(keys, last, j) ==> Before(keys, b, j)
  }

  lemma {:induction false} SearchFindsBest(keys: seq<Key>, last: Option<nat>, st: PickState, i: nat)
    requires i <= |keys| && (last.Some? ==> last.value < |keys|)
    requires Best(keys, last, st.result, i)
    requires st.seenLast <==> last.Some? && last.value < i
    ensures Best(keys, last, Search(keys, last, st, i).result, |keys|)
    decreases |keys| - i
  {
    if i < |keys| {
      SearchFindsBest(keys, last, Visit(keys, last, st, i), i + 1);
    }
  }

  /** One call picks the least candidate after `last`, or none when there is none. */
  lemma NextIsSuccessor(keys: seq<Key>, last: Option<nat>)
    requires last.Some? ==> last.value < |keys|
    ensures Best(keys, last, Next(keys, last), |keys|)
  {
    SearchFindsBest(keys, last, PickState(None, false), 0);
  }

  ghost function Remaining(keys: seq<Key>, last: Option<nat>): set<nat>
    requires last.Some? ==> last.value < |keys|
  {
    set j | 0 <= j < |keys| && Follows(keys, last, j)
  }

  lemma NextShrinks(keys: seq<Key>, last: Option<nat>)
    requires last.Some? ==> last.value < |keys|
    ensures var r := Next(keys, last);
      r.Some? ==>
        (&& r.value in Remaining(keys, last)
         && Remaining(keys, r) == Remaining(keys, last) - {r.value}
         && |Remaining(keys, r)| < |Remaining(keys, last)|)
  {
    NextIsSuccessor(keys, last);
  }

  // The positions picked by the caller's loop after `last`.
  ghost function OrderAfter(keys: seq<Key>, last: Option<nat>): (o: seq<nat>)
    requires last.Some? ==> last.value < |keys|
    ensures forall k :: 0 <= k < |o| ==> o[k] < |keys|
    decreases |Remaining(keys, last)|
  {
    NextShrinks(keys, last);
    match Next(keys, last)
    case None => []
    case Some(i) => [i] + OrderAfter(keys, Some(i))
  }

  ghost function Order(keys: seq<Key>): seq<nat> {
    OrderAfter(keys, None)
  }

  ghost predicate Sorted(keys: seq<Key>, o: seq<nat>) {
    && (forall a :: 0 <= a < |o| ==> o[a] < |keys|)
    && (forall a, b :: 0 <= a < b < |o| ==> Before(keys, o[a], o[b]))
  }

  lemma {:induction false} OrderAfterSpec(keys: seq<Key>, last: Option<nat>)
    requires last.Some? ==> last.value < |keys|
    ensures var o := OrderAfter(keys, last);
      && Sorted(keys, o)
      && forall i :: 0 <= i < |keys| ==> (i in o <==> Follows(keys, last, i))
    decreases |Remaining(keys, last)|
  {
    NextIsSuccessor(keys, last);
    NextShrinks(keys, last);
    var r := Next(keys, last);
    if r.Some? {
      OrderAfterSpec(keys, r);
      var o := OrderAfter(keys, last);
      var rest := OrderAfter(keys, r);
      assert o == [r.value] + rest;
      forall b | 0 <= b < |rest| ensures Before(keys, r.value, rest[b]) {
        assert rest[b] in rest;
      }
      forall i | 0 <= i < |keys| ensures i in o <==> Follows(keys, last, i) {
        assert i in o <==> i == r.value || i in rest;
      }
    }
  }

  /** The calls visit every eligible resource exactly once, by alignment, then size, then bus
      order, and then stop. */
  lemma OrderIsSortedPermutation(keys: seq<Key>)
    ensures var o := Order(keys);
      && (forall i :: 0 <= i < |keys| ==> (i in o <==> keys[i].eligible))
      && (forall a, b :: 0 <= a < b < |o| ==> o[a] != o[b] && Before(keys, o[a], o[b]))
  {
    OrderAfterSpec(keys, None);
  }
}
