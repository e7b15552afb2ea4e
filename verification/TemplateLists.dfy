/** The template as the mutable lists of items that the program builds and edits in place. */
module TemplateLists {
  import opened MapOrders
  import opened Templates

  class ParamTemplateItem {
    var name: string
    var defaultValue: string
    var isDynamic: int
    var isVisible: int
    var isUserChangeable: int
    var optional: string
    var unit: string
    var divideBase: string
    var isDeleted: int
    var comment: string

    function View(): Item
      reads this
    {
      Item(name, defaultValue, isDynamic, isVisible, isUserChangeable, optional, unit, divideBase, isDeleted, comment)
    }

    constructor (name: string, defaultValue: string, isDynamic: int, isVisible: int, isUserChangeable: int,
                 optional: string, unit: string, divideBase: string, isDeleted: int, comment: string)
      ensures View() == Item(name, defaultValue, isDynamic, isVisible, isUserChangeable, optional, unit,
                             divideBase, isDeleted, comment)
    {
      this.name, this.defaultValue, this.isDynamic, this.isVisible := name, defaultValue, isDynamic, isVisible;
      this.isUserChangeable, this.optional, this.unit := isUserChangeable, optional, unit;
      this.divideBase, this.isDeleted, this.comment := divideBase, isDeleted, comment;
    }
  }

  type ItemList = seq<ParamTemplateItem>

  function Views(items: ItemList): (views: seq<Item>)
    reads items
    ensures |views| == |items| && forall i :: 0 <= i < |items| ==> views[i] == items[i].View()
  {
    if items == [] then [] else Views(items[..|items| - 1]) + [items[|items| - 1].View()]
  }

  /** No item is in the list twice. */
  predicate NoSharing(items: ItemList) {
    forall i, j :: 0 <= i < j < |items| ==> items[i] != items[j]
  }

  method FindTemplate(name: string, allTemplate: ItemList) returns (template: ParamTemplateItem?)
    ensures var i := FirstIndex(Views(allTemplate), name);
      template == if i == -1 then null else allTemplate[i]
  {
    hide FirstIndex;
    for i := 0 to |allTemplate|
      invariant forall j :: 0 <= j < i ==> allTemplate[j].name != name
    {
      if allTemplate[i].name == name {
        assert Views(allTemplate)[i].name == name;
        return allTemplate[i];
      }
    }
    return null;
  }

  /** The base list with white-listed items made changeable in place, followed by the extension items
      whose names it lacks. */
  method GetTemplateParams(base: ItemList, whiteList: seq<string>, extendTemplates: ItemList)
    returns (result: ItemList)
    requires NoSharing(base) && NoSharing(extendTemplates)
    requires forall i :: 0 <= i < |extendTemplates| ==> extendTemplates[i] !in base
    modifies base
    ensures Views(result) == Extended(Whitened(old(Views(base)), whiteList), old(Views(extendTemplates)))
    ensures NoSharing(result)
  {
    hide Extended, Views, Whitened;
    ghost var extension := Views(extendTemplates);
    WhiteListItems(base, whiteList);
    assert Views(extendTemplates) == extension;
    result := ExtendItems(base, extendTemplates);
  }

  method ExtendItems(base: ItemList, extendTemplates: ItemList) returns (result: ItemList)
    requires NoSharing(base) && NoSharing(extendTemplates)
    requires forall i :: 0 <= i < |extendTemplates| ==> extendTemplates[i] !in base
    ensures Views(result) == Extended(Views(base), Views(extendTemplates))
    ensures NoSharing(result)
  {
    hide Extended, Views, FirstIndex;
    ghost var before, extension := Views(base), Views(extendTemplates);
    result := base;
    assert extension[..0] == [];
    ExtendedStep(before, []);
    for i := 0 to |extendTemplates|
      invariant Views(result) == Extended(before, extension[..i])
      invariant NoSharing(result) && forall r :: r in result ==> r in base || r in extendTemplates[..i]
    {
      var e := extendTemplates[i];
      assert e !in result;
      assert extension[..i + 1][..i] == extension[..i];
      ExtendedStep(before, extension[..i + 1]);
      var t := FindTemplate(e.name, result);
      if t == null {
        result := result + [e];
      }
    }
    assert extension[..|extendTemplates|] == extension;
  }

  lemma ExtendedStep(items: seq<Item>, extension: seq<Item>)
    ensures extension == [] ==> Extended(items, extension) == items
    ensures extension != [] ==>
              var r := Extended(items, extension[..|extension| - 1]);
              var e := extension[|extension| - 1];
              Extended(items, extension) == if FirstIndex(r, e.name) == -1 then r + [e] else r
  {
  }

  method WhiteListItems(items: ItemList, whiteList: seq<string>)
    requires NoSharing(items)
    modifies items
    ensures Views(items) == Whitened(old(Views(items)), whiteList)
  {
    hide Views;
    for i := 0 to |items|
      invariant forall j :: 0 <= j < i ==> items[j].View() == Whiten(old(items[j].View()), whiteList)
      invariant forall j :: i <= j < |items| ==> items[j].View() == old(items[j].View())
    {
      if items[i].name in whiteList {
        items[i].isUserChangeable := 1;
      }
    }
  }

  class ParamsTemplate {
    var templateParams: ItemList
    var classParams: map<string, string>

    constructor (templateParams: ItemList, classParams: map<string, string>)
      ensures this.templateParams == templateParams && this.classParams == classParams
    {
      this.templateParams, this.classParams := templateParams, classParams;
    }

    /** The merged list, on fresh items: the template it was made from is left as it was. */
    method GetClassParamsTemplate() returns (merged: ItemList)
      ensures fresh(merged) && NoSharing(merged)
      ensures exists order :: IsOrder(order, classParams) &&
                Views(merged) == Merged(Views(templateParams), order, classParams)
      ensures Views(templateParams) == old(Views(templateParams))
    {
      hide Views, Merged, IsOrder;
      merged := CopyItems(templateParams);
      merged := MergeClassParams(merged, classParams);
    }

    /** The template's defaults overridden by the class parameters. */
    method GetClassInitParams() returns (result: map<string, string>)
      ensures result == Defaults(Views(templateParams)) + classParams
    {
      hide Views, Defaults;
      result := GetParamsTemplateDefaultValues();
      ghost var defaults := result;
      var rest := classParams.Keys;
      while rest != {}
        invariant rest <= classParams.Keys
        invariant result == defaults + (classParams - rest)
        decreases rest
      {
        var k :| k in rest;
        assert classParams - (rest - {k}) == (classParams - rest)[k := classParams[k]];
        result := result[k := classParams[k]];
        rest := rest - {k};
      }
      assert classParams - {} == classParams;
    }

    method GetParamsTemplateDefaultValues() returns (result: map<string, string>)
      ensures result == Defaults(Views(templateParams))
    {
      hide Views;
      result := map[];
      ghost var views := Views(templateParams);
      for i := 0 to |templateParams|
        invariant result == Defaults(views[..i])
      {
        assert views[..i + 1][..i] == views[..i];
        result := result[templateParams[i].name := templateParams[i].defaultValue];
      }
      assert views[..|templateParams|] == views;
    }
  }

  method CopyItems(items: ItemList) returns (copies: ItemList)
    ensures fresh(copies) && NoSharing(copies)
    ensures Views(copies) == Views(items)
  {
    hide Views;
    copies := [];
    for i := 0 to |items|
      invariant |copies| == i && fresh(copies) && NoSharing(copies)
      invariant forall j :: 0 <= j < i ==> copies[j].View() == items[j].View()
    {
      var t := items[i];
      var copy := new ParamTemplateItem(t.name, t.defaultValue, t.isDynamic, t.isVisible, t.isUserChangeable,
                                        t.optional, t.unit, t.divideBase, t.isDeleted, t.comment);
      copies := copies + [copy];
    }
  }

  method MergeClassParams(items: ItemList, classParams: map<string, string>) returns (merged: ItemList)
    requires NoSharing(items)
    modifies items
    ensures NoSharing(merged) && forall i :: 0 <= i < |merged| ==> merged[i] in items || fresh(merged[i])
    ensures exists order :: IsOrder(order, classParams) &&
              Views(merged) == Merged(old(Views(items)), order, classParams)
  {
    hide Views, Merged, IsOrder;
    ghost var base := Views(items);
    ghost var order: seq<string> := [];
    merged := items;
    MergedNone(base, classParams);
    var rest := classParams.Keys;
    while rest != {}
      invariant NoSharing(merged)
      invariant forall i :: 0 <= i < |merged| ==> merged[i] in items || fresh(merged[i])
      invariant rest <= classParams.Keys
      invariant forall i :: 0 <= i < |order| ==> order[i] in classParams && order[i] !in rest
      invariant forall key :: key in classParams && key !in rest ==> key in order
      invariant forall i, j :: 0 <= i < j < |order| ==> order[i] != order[j]
      invariant Views(merged) == Merged(base, order, classParams)
      decreases rest
    {
      var k :| k in rest;
      MergedOneMore(base, order, k, classParams);
      merged := ApplyClassParam(merged, k, classParams[k]);
      order := order + [k];
      rest := rest - {k};
    }
    OrderOf(order, classParams);
  }

  /** Overwrites the default of the first item of that name, through its pointer, or appends one. */
  method ApplyClassParam(items: ItemList, name: string, value: string) returns (result: ItemList)
    requires NoSharing(items)
    modifies items
    ensures Views(result) == WithClassParam(old(Views(items)), name, value)
    ensures NoSharing(result) && items <= result
    ensures forall i :: |items| <= i < |result| ==> fresh(result[i])
  {
    hide Views, FirstIndex;
    ghost var before := Views(items);
    var item := FindTemplate(name, items);
    if item != null {
      item.defaultValue := value;
      ghost var i := FirstIndex(before, name);
      assert forall j :: 0 <= j < |items| && j != i ==> items[j].View() == before[j];
      result := items;
      assert Views(result) == before[i := before[i].(defaultValue := value)];
    } else {
      var joined := new ParamTemplateItem(name, value, 1, 0, 0, "", "", "", 0, "");
      result := items + [joined];
      assert Views(result) == before + [Joined(name, value)];
    }
  }

  lemma MergedNone(base: seq<Item>, classParams: map<string, string>)
    ensures Merged(base, [], classParams) == base
  {
  }

  lemma MergedOneMore(base: seq<Item>, order: seq<string>, key: string, classParams: map<string, string>)
    requires key in classParams && forall i :: 0 <= i < |order| ==> order[i] in classParams
    ensures Merged(base, order + [key], classParams) ==
            WithClassParam(Merged(base, order, classParams), key, classParams[key])
  {
  }
}
