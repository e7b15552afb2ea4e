/**
 The parameter template: the base list, its white list and extension, and the merge with the
 parameters of an instance class.
 */
module Templates {
  import opened MapOrders

  datatype Item = Item(name: string, defaultValue: string, isDynamic: int, isVisible: int, isUserChangeable: int,
                       optional: string, unit: string, divideBase: string, isDeleted: int, comment: string)

  /** A class parameter that the template lacks joins it as an unchangeable, dynamic one. */
  function Joined(name: string, value: string): Item {
    Item(name, value, 1, 0, 0, "", "", "", 0, "")
  }

  // ---------- lists of items ----------

  /** The items of one name, in order. */
  function Named(items: seq<Item>, name: string): (r: seq<Item>)
    ensures forall i :: 0 <= i < |r| ==> r[i].name == name && r[i] in items
  {
    if items == [] then []
    else
      var rest := Named(items[..|items| - 1], name);
      if items[|items| - 1].name == name then rest + [items[|items| - 1]] else rest
  }

  lemma NamedGrows(items: seq<Item>, item: Item, name: string)
    ensures Named(items + [item], name) == if item.name == name then Named(items, name) + [item] else Named(items, name)
  {
  }

  lemma {:induction false} NamedAppend(a: seq<Item>, b: seq<Item>, name: string)
    ensures Named(a + b, name) == Named(a, name) + Named(b, name)
    decreases |b|
  {
    if b == [] {
      assert a + b == a;
    } else {
      var front, last := b[..|b| - 1], b[|b| - 1];
      assert a + b == (a + front) + [last] && b == front + [last];
      NamedAppend(a, front, name);
      NamedGrows(a + front, last, name);
      NamedGrows(front, last, name);
    }
  }

  /** The position of the first item of a name, or -1. */
  function FirstIndex(items: seq<Item>, name: string): (i: int)
    ensures -1 <= i < |items|
    ensures i == -1 <==> forall j :: 0 <= j < |items| ==> items[j].name != name
    ensures i >= 0 ==> items[i].name == name && forall j :: 0 <= j < i ==> items[j].name != name
  {
    if items == [] then -1
    else
      var i := FirstIndex(items[..|items| - 1], name);
      if i >= 0 then i else if items[|items| - 1].name == name then |items| - 1 else -1
  }

  lemma {:induction false} NamedNone(items: seq<Item>, name: string)
    ensures Named(items, name) == [] <==> FirstIndex(items, name) == -1
    decreases |items|
  {
    if items != [] {
      NamedNone(items[..|items| - 1], name);
    }
  }

  /** The search for an item finds the first of its name. */
  lemma FirstOfNamed(items: seq<Item>, name: string)
    requires FirstIndex(items, name) >= 0
    ensures var i := FirstIndex(items, name);
      Named(items, name) == [items[i]] + Named(items[i + 1..], name)
  {
    hide Named, FirstIndex;
    var i := FirstIndex(items, name);
    var before, after := items[..i], items[i + 1..];
    assert Named(before, name) == [] by {
      NamedNone(before, name);
    }
    SplitAround(items, i, items[i]);
    NamedAround(before, items[i], after, name);
    NoneBefore([items[i]] + Named(after, name));
  }

  predicate DistinctNames(items: seq<Item>) {
    forall i, j :: 0 <= i < j < |items| ==> items[i].name != items[j].name
  }

  lemma {:induction false} AtMostOneNamed(items: seq<Item>, name: string)
    requires DistinctNames(items)
    ensures |Named(items, name)| <= 1
    decreases |items|
  {
    if items != [] {
      var front := items[..|items| - 1];
      AtMostOneNamed(front, name);
      NamedNone(front, name);
    }
  }

  lemma TwoNamed(items: seq<Item>, i: nat, j: nat)
    requires i < j < |items| && items[i].name == items[j].name
    ensures |Named(items, items[i].name)| >= 2
  {
    hide Named;
    var name := items[i].name;
    var before, after := items[..j], items[j..];
    assert items == before + after && before[i].name == name && after[0].name == name;
    NamedAppend(before, after, name);
    NamedNone(before, name);
    NamedNone(after, name);
  }

  /** Names are distinct exactly when no name has two items. */
  lemma DistinctIffNamed(items: seq<Item>)
    ensures DistinctNames(items) <==> forall name :: |Named(items, name)| <= 1
  {
    hide Named;
    if DistinctNames(items) {
      forall name
        ensures |Named(items, name)| <= 1
      {
        AtMostOneNamed(items, name);
      }
    } else {
      var i, j :| 0 <= i < j < |items| && items[i].name == items[j].name;
      TwoNamed(items, i, j);
    }
  }

  // ---------- white list and extension ----------

  function Whitened(items: seq<Item>, whiteList: seq<string>): (r: seq<Item>)
    ensures |r| == |items|
    ensures forall i :: 0 <= i < |r| ==> r[i] == Whiten(items[i], whiteList)
  {
    seq(|items|, i requires 0 <= i < |items| => Whiten(items[i], whiteList))
  }

  function Whiten(item: Item, whiteList: seq<string>): Item {
    if item.name in whiteList then item.(isUserChangeable := 1) else item
  }

  /** Extension items join in order, each unless its name is taken by then. */
  function Extended(items: seq<Item>, extension: seq<Item>): seq<Item> {
    if extension == [] then items
    else
      var r := Extended(items, extension[..|extension| - 1]);
      var e := extension[|extension| - 1];
      if FirstIndex(r, e.name) == -1 then r + [e] else r
  }

  /** What the extended list holds under a name: the base items of that name if there are any,
      otherwise the first extension item of that name. */
  lemma {:induction false} NamedOfExtended(items: seq<Item>, extension: seq<Item>, name: string)
    ensures Named(Extended(items, extension), name) ==
            if Named(items, name) != [] then Named(items, name)
            else if Named(extension, name) != [] then [Named(extension, name)[0]]
            else []
    decreases |extension|
  {
    if extension != [] {
      var front, e := extension[..|extension| - 1], extension[|extension| - 1];
      assert extension == front + [e];
      NamedOfExtended(items, front, name);
      NamedGrows(front, e, name);
      var r := Extended(items, front);
      NamedNone(r, e.name);
      NamedGrows(r, e, name);
    }
  }

  /** White-listed items become changeable, and nothing else about any item changes. */
  lemma WhitenedExactly(items: seq<Item>, whiteList: seq<string>, i: nat)
    requires i < |items|
    ensures Whitened(items, whiteList)[i] ==
            items[i].(isUserChangeable := if items[i].name in whiteList then 1 else items[i].isUserChangeable)
  {
  }

  lemma WhitenedGrows(items: seq<Item>, item: Item, whiteList: seq<string>)
    ensures Whitened(items + [item], whiteList) == Whitened(items, whiteList) + [Whiten(item, whiteList)]
  {
  }

  lemma {:induction false} NamedOfWhitened(items: seq<Item>, whiteList: seq<string>, name: string)
    ensures Named(Whitened(items, whiteList), name) == Whitened(Named(items, name), whiteList)
    decreases |items|
  {
    if items != [] {
      var front, last := items[..|items| - 1], items[|items| - 1];
      hide Named, Whitened;
      assert items == front + [last];
      WhitenedGrows(front, last, whiteList);
      NamedOfWhitened(front, whiteList, name);
      NamedGrows(front, last, name);
      NamedGrows(Whitened(front, whiteList), Whiten(last, whiteList), name);
      WhitenedGrows(Named(front, name), last, whiteList);
    } else {
      assert Whitened(items, whiteList) == [];
    }
  }

  /** The template query keeps names distinct, whatever the extension repeats. */
  lemma {:induction false} TemplateQueryKeepsNamesDistinct(items: seq<Item>, whiteList: seq<string>, extension: seq<Item>)
    requires DistinctNames(items)
    ensures DistinctNames(Extended(Whitened(items, whiteList), extension))
  {
    var whitened := Whitened(items, whiteList);
    forall name
      ensures |Named(Extended(whitened, extension), name)| <= 1
    {
      NamedOfExtended(whitened, extension, name);
      NamedOfWhitened(items, whiteList, name);
      DistinctIffNamed(items);
    }
    DistinctIffNamed(Extended(whitened, extension));
  }

  // ---------- class parameters ----------

  /** One class parameter: the first item of its name takes its value, or it joins at the end. */
  function WithClassParam(items: seq<Item>, name: string, value: string): seq<Item> {
    var i := FirstIndex(items, name);
    if i == -1 then items + [Joined(name, value)]
    else items[i := items[i].(defaultValue := value)]
  }

  /** All class parameters, in the order in which their map is walked. */
  function Merged(items: seq<Item>, order: seq<string>, classParams: map<string, string>): seq<Item>
    requires forall i :: 0 <= i < |order| ==> order[i] in classParams
  {
    if order == [] then items
    else
      var name := order[|order| - 1];
      WithClassParam(Merged(items, order[..|order| - 1], classParams), name, classParams[name])
  }

  /** What the merged list holds under a name, said without any order. */
  function MergedNamed(items: seq<Item>, classParams: map<string, string>, name: string): seq<Item> {
    var named := Named(items, name);
    if name !in classParams then named
    else if named == [] then [Joined(name, classParams[name])]
    else named[0 := named[0].(defaultValue := classParams[name])]
  }

  /** With distinct names: the base item with the class's value, or, for a class parameter that the
      template lacks, a dynamic item that users may not change; otherwise none. */
  lemma ItemOfKey(items: seq<Item>, classParams: map<string, string>, key: string)
    requires DistinctNames(items)
    ensures forall i :: 0 <= i < |items| && items[i].name == key ==>
              MergedNamed(items, classParams, key) ==
              [if key in classParams then items[i].(defaultValue := classParams[key]) else items[i]]
    ensures (forall i :: 0 <= i < |items| ==> items[i].name != key) ==>
              MergedNamed(items, classParams, key) ==
              if key in classParams then [Item(key, classParams[key], 1, 0, 0, "", "", "", 0, "")] else []
  {
    hide Named, FirstIndex, DistinctNames;
    NamedNone(items, key);
    forall i | 0 <= i < |items| && items[i].name == key
      ensures Named(items, key) == [items[i]]
    {
      OnlyNamed(items, i);
    }
  }

  lemma OnlyNamed(items: seq<Item>, i: nat)
    requires DistinctNames(items) && i < |items|
    ensures Named(items, items[i].name) == [items[i]]
  {
    hide Named;
    var j := FirstIndex(items, items[i].name);
    assert j == i;
    FirstOfNamed(items, items[i].name);
    AtMostOneNamed(items, items[i].name);
  }

  lemma NamedOfWithClassParam(items: seq<Item>, key: string, value: string, name: string)
    ensures Named(WithClassParam(items, key, value), name) ==
            if name != key then Named(items, name)
            else if Named(items, name) == [] then [Joined(key, value)]
            else Named(items, name)[0 := Named(items, name)[0].(defaultValue := value)]
  {
    hide Named, FirstIndex;
    var i := FirstIndex(items, key);
    NamedNone(items, key);
    if i == -1 {
      NamedGrows(items, Joined(key, value), name);
    } else {
      var changed := items[i].(defaultValue := value);
      SplitAround(items, i, changed);
      NamedNone(items[..i], key);
      NamedOfReplaced(items[..i], items[i], items[i + 1..], changed, name);
    }
  }

  lemma SplitAround(items: seq<Item>, i: nat, changed: Item)
    requires i < |items|
    ensures items == items[..i] + ([items[i]] + items[i + 1..])
    ensures items[i := changed] == items[..i] + ([changed] + items[i + 1..])
  {
  }

  lemma NamedOfReplaced(before: seq<Item>, item: Item, after: seq<Item>, changed: Item, name: string)
    requires Named(before, item.name) == [] && changed.name == item.name
    ensures var named := Named(before + ([item] + after), name);
      Named(before + ([changed] + after), name) ==
      if name != item.name then named else if named == [] then [] else named[0 := changed]
    ensures name == item.name ==>
              Named(before + ([item] + after), name) != [] && Named(before + ([item] + after), name)[0] == item
  {
    hide Named;
    NamedAround(before, item, after, name);
    NamedAround(before, changed, after, name);
    if name == item.name {
      NoneBefore([item] + Named(after, name));
      NoneBefore([changed] + Named(after, name));
      FirstReplaced(item, Named(after, name), changed);
    }
  }

  lemma NoneBefore(items: seq<Item>)
    ensures [] + items == items
  {
  }

  lemma FirstReplaced(item: Item, rest: seq<Item>, changed: Item)
    ensures ([item] + rest)[0 := changed] == [changed] + rest
  {
  }

  lemma NamedAround(before: seq<Item>, item: Item, after: seq<Item>, name: string)
    ensures Named(before + ([item] + after), name) ==
            if item.name == name then Named(before, name) + ([item] + Named(after, name))
            else Named(before, name) + Named(after, name)
  {
    hide Named;
    NamedAppend(before, [item] + after, name);
    NamedAppend([item], after, name);
    NamedOne(item, name);
  }

  lemma NamedOne(item: Item, name: string)
    ensures Named([item], name) == if item.name == name then [item] else []
  {
  }

  lemma {:induction false} NamedOfMergedPrefix(items: seq<Item>, order: seq<string>, classParams: map<string, string>, name: string)
    requires forall i :: 0 <= i < |order| ==> order[i] in classParams
    requires forall i, j :: 0 <= i < j < |order| ==> order[i] != order[j]
    ensures Named(Merged(items, order, classParams), name) ==
            if name in order then MergedNamed(items, classParams, name) else Named(items, name)
    decreases |order|
  {
    if order != [] {
      var front, key := order[..|order| - 1], order[|order| - 1];
      assert order == front + [key];
      NamedOfMergedPrefix(items, front, classParams, name);
      NamedOfWithClassParam(Merged(items, front, classParams), key, classParams[key], name);
    }
  }

  /** For every order: the merged list holds the same items under every name. */
  lemma NamedOfMerged(items: seq<Item>, order: seq<string>, classParams: map<string, string>, name: string)
    requires IsOrder(order, classParams)
    ensures Named(Merged(items, order, classParams), name) == MergedNamed(items, classParams, name)
  {
    NamedOfMergedPrefix(items, order, classParams, name);
  }

  /** Merging keeps names distinct, for every order. */
  lemma MergeKeepsNamesDistinct(items: seq<Item>, order: seq<string>, classParams: map<string, string>)
    requires IsOrder(order, classParams) && DistinctNames(items)
    ensures DistinctNames(Merged(items, order, classParams))
  {
    DistinctIffNamed(items);
    forall name
      ensures |Named(Merged(items, order, classParams), name)| <= 1
    {
      hide Named, Merged;
      NamedOfMerged(items, order, classParams, name);
      assert |Named(items, name)| <= 1;
    }
    DistinctIffNamed(Merged(items, order, classParams));
  }

  // ---------- names to defaults ----------

  /** The list read as a map from names to defaults; a later item wins. */
  function Defaults(items: seq<Item>): map<string, string> {
    if items == [] then map[]
    else Defaults(items[..|items| - 1])[items[|items| - 1].name := items[|items| - 1].defaultValue]
  }

  lemma {:induction false} DefaultsOfNamed(items: seq<Item>, name: string)
    ensures name in Defaults(items) <==> Named(items, name) != []
    ensures name in Defaults(items) ==>
              Defaults(items)[name] == Named(items, name)[|Named(items, name)| - 1].defaultValue
    decreases |items|
  {
    if items != [] {
      DefaultsOfNamed(items[..|items| - 1], name);
    }
  }

  lemma DefaultsOfMerged(items: seq<Item>, order: seq<string>, classParams: map<string, string>, name: string)
    requires IsOrder(order, classParams)
    ensures var r := Defaults(Merged(items, order, classParams));
      var named := Named(items, name);
      && (name in r <==> name in Defaults(items) || name in classParams)
      && (name in r && name !in classParams ==> r[name] == Defaults(items)[name])
      && (name in classParams ==>
            r[name] == if |named| <= 1 then classParams[name] else named[|named| - 1].defaultValue)
  {
    hide Named, Defaults, Merged;
    NamedOfMerged(items, order, classParams, name);
    DefaultsOfNamed(items, name);
    DefaultsOfNamed(Merged(items, order, classParams), name);
  }

  /** When base names are distinct, the merged list, read as a map, is the initial parameters of the
      class, for every order. */
  lemma MergedReadsAsInitParams(items: seq<Item>, order: seq<string>, classParams: map<string, string>)
    requires IsOrder(order, classParams) && DistinctNames(items)
    ensures Defaults(Merged(items, order, classParams)) == Defaults(items) + classParams
  {
    DistinctIffNamed(items);
    var r := Defaults(Merged(items, order, classParams));
    forall name
      ensures name in r <==> name in Defaults(items) + classParams
      ensures name in r ==> r[name] == (Defaults(items) + classParams)[name]
    {
      DefaultsOfMerged(items, order, classParams, name);
    }
  }

  /** With a repeated base name this fails for some class: give that name any class value other than
      the default of its last item. */
  lemma RepeatedNameBreaksInitParams(items: seq<Item>, i: nat, j: nat, value: string)
    requires i < j < |items| && items[i].name == items[j].name
    requires Defaults(items) != Defaults(items)[items[i].name := value]
    ensures var name := items[i].name;
      Defaults(Merged(items, [name], map[name := value])) != Defaults(items) + map[name := value]
  {
    hide Named, Defaults, Merged;
    var name := items[i].name;
    var classParams := map[name := value];
    assert IsOrder([name], classParams);
    DefaultsOfMerged(items, [name], classParams, name);
    DefaultsOfNamed(items, name);
    TwoNamed(items, i, j);
  }
}
