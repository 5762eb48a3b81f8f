/**
 * `deepupdate(dict_base, other)`: every entry of `other` is written into
 * `dict_base`, except that where both sides hold a mapping under the same
 * key the two mappings are merged the same way, one level further down.
 */
module Util {
  /** A dictionary value: a mapping of its own, or anything else. */
  datatype Value = Atom(n: int) | Mapping(m: map<string, Value>)

  /** `dict_base` and `other` both hold a mapping under `k`. */
  predicate BothMappings(base: map<string, Value>, k: string, v: Value) {
    v.Mapping? && k in base && base[k].Mapping?
  }

  /** What `deepupdate` leaves under key `k` of `base` when `other[k] == v`. */
  function Entry(base: map<string, Value>, k: string, v: Value): Value
    decreases v, 1
  {
    if BothMappings(base, k, v) then Mapping(Merge(base[k].m, v.m)) else v
  }

  /**
   * The dictionary `deepupdate` leaves behind: the keys of both sides;
   * keys only in `base` keep their values; a key of `other` overwrites,
   * unless both values are mappings, which are merged, so that the keys of
   * the base's nested mapping that `other` does not mention survive.
   */
  function Merge(base: map<string, Value>, other: map<string, Value>): (r: map<string, Value>)
    decreases Mapping(other), 0
    ensures r.Keys == base.Keys + other.Keys
    ensures forall k :: k in base && k !in other ==> r[k] == base[k]
    ensures forall k :: k in other && !BothMappings(base, k, other[k]) ==> r[k] == other[k]
    ensures forall k :: k in other && BothMappings(base, k, other[k]) ==>
      r[k].Mapping? && r[k].m.Keys == base[k].m.Keys + other[k].m.Keys &&
      forall j :: j in base[k].m && j !in other[k].m ==> r[k].m[j] == base[k].m[j]
  {
    map k | k in base.Keys + other.Keys :: if k in other then Entry(base, k, other[k]) else base[k]
  }

  /** An empty `other` leaves the dictionary as it was. */
  lemma MergeEmpty(base: map<string, Value>)
    ensures Merge(base, map[]) == base
  {
  }

  /** Into an empty dictionary, `deepupdate` copies `other` unchanged. */
  lemma MergeIntoEmpty(other: map<string, Value>)
    ensures Merge(map[], other) == other
  {
  }

  /**
   * Where no key holds a mapping on both sides, `deepupdate` is the plain
   * `dict.update`: `other`'s entries win.
   */
  lemma MergeShallow(base: map<string, Value>, other: map<string, Value>)
    requires forall k :: k in other ==> !BothMappings(base, k, other[k])
    ensures Merge(base, other) == base + other
  {
  }

  /**
   * Everything `other` says is found in `r`, all the way down: each key of
   * `other` is in `r`; a mapping of `other` meets a mapping in `r` that
   * covers it; any other value is in `r` as it is.
   */
  ghost predicate Covers(r: map<string, Value>, other: map<string, Value>)
    decreases Mapping(other)
  {
    forall k :: k in other ==>
      (k in r && if other[k].Mapping? then r[k].Mapping? && Covers(r[k].m, other[k].m) else r[k] == other[k])
  }

  /** After `deepupdate`, the dictionary covers `other` at every depth. */
  lemma {:induction false} MergeCovers(base: map<string, Value>, other: map<string, Value>)
    decreases Mapping(other)
    ensures Covers(Merge(base, other), other)
  {
    var r := Merge(base, other);
    forall k | k in other
      ensures k in r && if other[k].Mapping? then r[k].Mapping? && Covers(r[k].m, other[k].m) else r[k] == other[k]
    {
      if BothMappings(base, k, other[k]) {
        assert r[k] == Entry(base, k, other[k]);
        MergeCovers(base[k].m, other[k].m);
      } else if other[k].Mapping? {
        CoversSelf(other[k].m);
      }
    }
  }

  /** A dictionary covers itself. */
  lemma {:induction false} CoversSelf(d: map<string, Value>)
    decreases Mapping(d)
    ensures Covers(d, d)
  {
    forall k | k in d && d[k].Mapping? ensures Covers(d[k].m, d[k].m) {
      CoversSelf(d[k].m);
    }
  }

  /** Merging a dictionary into itself changes nothing. */
  lemma {:induction false} MergeSelf(d: map<string, Value>)
    decreases Mapping(d)
    ensures Merge(d, d) == d
  {
    var r := Merge(d, d);
    forall k | k in d ensures r[k] == d[k] {
      if d[k].Mapping? {
        MergeSelf(d[k].m);
      }
    }
  }

  /** Applying the same `other` a second time changes nothing more. */
  lemma {:induction false} MergeIdempotent(base: map<string, Value>, other: map<string, Value>)
    decreases Mapping(other)
    ensures Merge(Merge(base, other), other) == Merge(base, other)
  {
    var r := Merge(base, other);
    var r2 := Merge(r, other);
    forall k | k in other ensures r2[k] == r[k] {
      if BothMappings(base, k, other[k]) {
        MergeIdempotent(base[k].m, other[k].m);
      } else if other[k].Mapping? {
        MergeSelf(other[k].m);
      }
    }
  }

  /**
   * `{"a": 1, "b": {"c": 2}}` updated with `{"b": {"d": 3}, "e": 4}` is
   * `{"a": 1, "b": {"c": 2, "d": 3}, "e": 4}`.
   */
  lemma MergeExample()
    ensures Merge(map["a" := Atom(1), "b" := Mapping(map["c" := Atom(2)])],
                  map["b" := Mapping(map["d" := Atom(3)]), "e" := Atom(4)])
         == map["a" := Atom(1), "b" := Mapping(map["c" := Atom(2), "d" := Atom(3)]), "e" := Atom(4)]
  {
    var base := map["a" := Atom(1), "b" := Mapping(map["c" := Atom(2)])];
    var other := map["b" := Mapping(map["d" := Atom(3)]), "e" := Atom(4)];
    var inner := Merge(map["c" := Atom(2)], map["d" := Atom(3)]);
    assert inner == map["c" := Atom(2), "d" := Atom(3)];
    assert BothMappings(base, "b", other["b"]);
  }

  /** The entries of `other` whose keys are not in `todo`. */
  function Without(other: map<string, Value>, todo: set<string>): (r: map<string, Value>)
    ensures r.Keys == other.Keys - todo
  {
    map k | k in other && k !in todo :: other[k]
  }

  /** Handling one more key of `other` adds its entry and touches nothing else. */
  lemma MergeStep(base: map<string, Value>, other: map<string, Value>, todo: set<string>, k: string)
    requires k in todo && k in other
    ensures Merge(base, Without(other, todo - {k})) ==
      Merge(base, Without(other, todo))[k := Entry(base, k, other[k])]
  {
    var after := Merge(base, Without(other, todo - {k}));
    var before := Merge(base, Without(other, todo))[k := Entry(base, k, other[k])];
    forall j | j in after ensures j in before && after[j] == before[j] {
      if j != k && j in other && j !in todo {
        assert Without(other, todo - {k})[j] == Without(other, todo)[j];
      }
    }
  }

  /** A dictionary, changed in place. */
  class Dict {
    var entries: map<string, Value>

    constructor (entries: map<string, Value>)
      ensures this.entries == entries
    {
      this.entries := entries;
    }

    /**
     * `deepupdate(self, other)`: writes `other` into this dictionary,
     * merging nested mappings in place, and returns this same dictionary.
     */
    method DeepUpdate(other: map<string, Value>) returns (r: Dict)
      modifies this
      decreases Mapping(other)
      ensures r == this
      ensures entries == Merge(old(entries), other)
    {
      ghost var base := entries;
      var todo := other.Keys;
      assert Without(other, todo) == map[];
      while todo != {}
        invariant todo <= other.Keys
        invariant entries == Merge(base, Without(other, todo))
        decreases todo
      {
        var k :| k in todo;
        var v := other[k];
        MergeStep(base, other, todo, k);
        if v.Mapping? && k in entries && entries[k].Mapping? {
          var nested := new Dict(entries[k].m);
          var same := nested.DeepUpdate(v.m);
          entries := entries[k := Mapping(nested.entries)];
        } else {
          entries := entries[k := v];
        }
        todo := todo - {k};
      }
      assert Without(other, todo) == other;
      return this;
    }
  }
}
