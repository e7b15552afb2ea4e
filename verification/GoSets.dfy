/** The mutable set of ports the node scan fills in. */
module GoSets {
  type int32 = n: int | -0x8000_0000 <= n <= 0x7fff_ffff

  function Elems(vals: seq<int32>): set<int32> {
    set v | v in vals
  }

  /** A list of a set's elements, each once, in whatever order the map was walked. */
  predicate IsListing(vals: seq<int32>, elements: set<int32>) {
    && Elems(vals) == elements
    && forall i, j :: 0 <= i < j < |vals| ==> vals[i] != vals[j]
  }

  lemma ListingGrows(vals: seq<int32>, elements: set<int32>, k: int32)
    requires IsListing(vals, elements) && k !in elements
    ensures IsListing(vals + [k], elements + {k})
  {
  }

  class GoSet {
    var bufContainer: map<int32, bool>

    ghost function Elements(): set<int32>
      reads this
    {
      bufContainer.Keys
    }

    constructor ()
      ensures Elements() == {}
    {
      bufContainer := map[];
    }

    method Add(vals: seq<int32>) returns (ok: bool)
      modifies this
      ensures ok
      ensures Elements() == old(Elements()) + Elems(vals)
    {
      var i := 0;
      while i < |vals|
        invariant 0 <= i <= |vals|
        invariant Elements() == old(Elements()) + Elems(vals[..i])
      {
        assert vals[..i + 1] == vals[..i] + [vals[i]];
        if vals[i] !in bufContainer {
          bufContainer := bufContainer[vals[i] := true];
        }
        i := i + 1;
      }
      assert vals[..i] == vals;
      return true;
    }

    method Contains(vals: seq<int32>) returns (all: bool)
      ensures all <==> Elems(vals) <= Elements()
    {
      var i := 0;
      while i < |vals|
        invariant 0 <= i <= |vals|
        invariant forall j :: 0 <= j < i ==> vals[j] in Elements()
      {
        if vals[i] !in bufContainer {
          assert vals[i] in Elems(vals);
          return false;
        }
        i := i + 1;
      }
      return true;
    }

    method GetAll() returns (res: seq<int32>)
      ensures IsListing(res, Elements())
    {
      res := [];
      var rest := bufContainer.Keys;
      while rest != {}
        invariant rest <= Elements()
        invariant IsListing(res, Elements() - rest)
        decreases rest
      {
        var k :| k in rest;
        ListingGrows(res, Elements() - rest, k);
        assert Elements() - (rest - {k}) == Elements() - rest + {k};
        res := res + [k];
        rest := rest - {k};
      }
    }

    method ClearAll() returns (res: seq<int32>)
      modifies this
      ensures Elements() == {}
      ensures IsListing(res, old(Elements()))
    {
      res := [];
      var rest := bufContainer.Keys;
      while rest != {}
        invariant rest == Elements() <= old(Elements())
        invariant IsListing(res, old(Elements()) - rest)
        decreases rest
      {
        var k :| k in rest;
        ListingGrows(res, old(Elements()) - rest, k);
        assert old(Elements()) - (rest - {k}) == old(Elements()) - rest + {k};
        res := res + [k];
        bufContainer := bufContainer - {k};
        rest := rest - {k};
      }
    }

    method Remove(vals: seq<int32>) returns (res: seq<int32>)
      modifies this
      ensures Elements() == old(Elements()) - Elems(vals)
      ensures IsListing(res, old(Elements()) * Elems(vals))
    {
      res := [];
      var i := 0;
      while i < |vals|
        invariant 0 <= i <= |vals|
        invariant Elements() == old(Elements()) - Elems(vals[..i])
        invariant IsListing(res, old(Elements()) * Elems(vals[..i]))
      {
        assert vals[..i + 1] == vals[..i] + [vals[i]];
        var k := vals[i];
        assert Elems(vals[..i + 1]) == Elems(vals[..i]) + {k};
        if k in bufContainer {
          ListingGrows(res, old(Elements()) * Elems(vals[..i]), k);
          assert old(Elements()) * Elems(vals[..i + 1]) == old(Elements()) * Elems(vals[..i]) + {k};
          res := res + [k];
          bufContainer := bufContainer - {k};
        }
        i := i + 1;
      }
      assert vals[..i] == vals;
    }
  }
}
