/** Go walks a map in an arbitrary order. */
module MapOrders {

  /** An order in which a map may be walked: every key once. */
  ghost predicate IsOrder<V>(order: seq<string>, m: map<string, V>) {
    && (forall i :: 0 <= i < |order| ==> order[i] in m)
    && (forall key :: key in m ==> key in order)
    && (forall i, j :: 0 <= i < j < |order| ==> order[i] != order[j])
  }

  lemma OrderOf<V>(order: seq<string>, m: map<string, V>)
    requires forall i :: 0 <= i < |order| ==> order[i] in m
    requires forall key :: key in m ==> key in order
    requires forall i, j :: 0 <= i < j < |order| ==> order[i] != order[j]
    ensures IsOrder(order, m)
  {
  }
}
