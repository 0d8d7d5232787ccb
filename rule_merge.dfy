/**
 * The rule-set merge of test/index.ts: `mergeArrayValueObject` joins two
 * objects whose values are arrays, and `combineCheckList` folds it over a
 * list of rule sets starting from `{}`. Objects are maps; as Dafny maps are
 * values, neither input can be changed by a merge.
 */
module RuleMerge {

  /** The array under `k`, or the empty array when `k` is absent. */
  function Lookup<V>(m: map<string, seq<V>>, k: string): (entries: seq<V>)
  {
    if k in m then m[k] else []
  }

  /**
   * `mergeArrayValueObject(obj, source)`: the keys of both; a key in both
   * gets `obj[k]` followed by `source[k]`, any other key keeps its array.
   */
  function Merge<V>(obj: map<string, seq<V>>, source: map<string, seq<V>>): (r: map<string, seq<V>>)
    ensures r.Keys == obj.Keys + source.Keys
    ensures forall k :: Lookup(r, k) == Lookup(obj, k) + Lookup(source, k)
  {
    map k | k in obj.Keys + source.Keys ::
      if k in obj && k in source then obj[k] + source[k]
      else if k in obj then obj[k]
      else source[k]
  }

  /** Two maps with the same keys and the same arrays are equal. */
  lemma LookupExtensional<V>(m1: map<string, seq<V>>, m2: map<string, seq<V>>)
    requires m1.Keys == m2.Keys
    requires forall k :: Lookup(m1, k) == Lookup(m2, k)
    ensures m1 == m2
  {
    forall k | k in m1
      ensures m1[k] == m2[k]
    {
      assert Lookup(m1, k) == Lookup(m2, k);
    }
  }

  /** Per key, the three cases of the reducer body. */
  lemma MergeCases<V>(obj: map<string, seq<V>>, source: map<string, seq<V>>, k: string)
    requires k in obj || k in source
    ensures k in Merge(obj, source)
    ensures k in obj && k in source ==> Merge(obj, source)[k] == obj[k] + source[k]
    ensures k in obj && k !in source ==> Merge(obj, source)[k] == obj[k]
    ensures k !in obj && k in source ==> Merge(obj, source)[k] == source[k]
  {
  }

  /** `{}` is an identity on either side. */
  lemma MergeIdentity<V>(m: map<string, seq<V>>)
    ensures Merge(map[], m) == m
    ensures Merge(m, map[]) == m
  {
  }

  lemma AppendAssociative<V>(x: seq<V>, y: seq<V>, z: seq<V>)
    ensures (x + y) + z == x + (y + z)
  {
  }

  /** Merging is associative. */
  lemma MergeAssociative<V>(a: map<string, seq<V>>, b: map<string, seq<V>>, c: map<string, seq<V>>)
    ensures Merge(Merge(a, b), c) == Merge(a, Merge(b, c))
  {
    var ab, bc := Merge(a, b), Merge(b, c);
    var left, right := Merge(ab, c), Merge(a, bc);
    forall k
      ensures Lookup(left, k) == Lookup(right, k)
    {
      var x, y, z := Lookup(a, k), Lookup(b, k), Lookup(c, k);
      assert Lookup(ab, k) == x + y;
      assert Lookup(bc, k) == y + z;
      assert Lookup(left, k) == (x + y) + z;
      assert Lookup(right, k) == x + (y + z);
      AppendAssociative(x, y, z);
    }
    LookupExtensional(left, right);
  }

  /**
   * The reducer `combineAllKey`: walk the union of the keys, writing each
   * merged array into the accumulator `pre`, which starts as `{}`.
   */
  method MergeArrayValueObject<V>(obj: map<string, seq<V>>, source: map<string, seq<V>>)
    returns (newObj: map<string, seq<V>>)
    ensures newObj == Merge(obj, source)
  {
    var keys := obj.Keys + source.Keys;
    var pre: map<string, seq<V>> := map[];
    while keys != {}
      invariant keys <= obj.Keys + source.Keys
      invariant pre.Keys == obj.Keys + source.Keys - keys
      invariant forall k :: k in pre ==> pre[k] == Merge(obj, source)[k]
      decreases keys
    {
      var cur :| cur in keys;
      MergeCases(obj, source, cur);
      if cur in obj && cur in source {
        pre := pre[cur := obj[cur] + source[cur]];
      } else {
        pre := pre[cur := if cur in obj then obj[cur] else source[cur]];
      }
      keys := keys - {cur};
    }
    newObj := pre;
  }

  /** Every key of every rule set in the list. */
  function AllKeys<V>(list: seq<map<string, seq<V>>>): (keys: set<string>)
  {
    if |list| == 0 then {} else list[0].Keys + AllKeys(list[1..])
  }

  /** The arrays under `k`, concatenated in list order: the reference for the fold. */
  function Gather<V>(list: seq<map<string, seq<V>>>, k: string): (entries: seq<V>)
  {
    if |list| == 0 then [] else Lookup(list[0], k) + Gather(list[1..], k)
  }

  /**
   * The fold `mergeArr` from an accumulator: it adds every key of the list
   * and, under each key, appends the list's arrays in list order.
   */
  function CombineFrom<V>(acc: map<string, seq<V>>, list: seq<map<string, seq<V>>>): (r: map<string, seq<V>>)
    ensures r.Keys == acc.Keys + AllKeys(list)
    ensures forall k :: Lookup(r, k) == Lookup(acc, k) + Gather(list, k)
    decreases |list|
  {
    if |list| == 0 then acc
    else
      var next := Merge(acc, list[0]);
      var r := CombineFrom(next, list[1..]);
      assert forall k :: Lookup(r, k) == Lookup(acc, k) + Gather(list, k) by {
        forall k
          ensures Lookup(r, k) == Lookup(acc, k) + Gather(list, k)
        {
          var x, y, z := Lookup(acc, k), Lookup(list[0], k), Gather(list[1..], k);
          assert Lookup(next, k) == x + y;
          assert Lookup(r, k) == (x + y) + z;
          assert Gather(list, k) == y + z;
          AppendAssociative(x, y, z);
        }
      }
      r
  }

  /**
   * `combineCheckList`: the keys of all rule sets, and under each key the
   * arrays of the rule sets that have it, in list order.
   */
  function CombineCheckList<V>(list: seq<map<string, seq<V>>>): (r: map<string, seq<V>>)
    ensures r.Keys == AllKeys(list)
    ensures forall k :: Lookup(r, k) == Gather(list, k)
  {
    CombineFrom(map[], list)
  }

  /** An empty list gives `{}`; a single rule set comes back unchanged. */
  lemma CombineSmallLists<V>(m: map<string, seq<V>>)
    ensures CombineCheckList<V>([]) == map[]
    ensures CombineCheckList([m]) == m
  {
    var single := [m];
    assert single[1..] == [];
    assert CombineFrom(map[], single) == Merge(map[], m);
    MergeIdentity(m);
  }

  lemma {:induction false} GatherAppend<V>(a: seq<map<string, seq<V>>>, b: seq<map<string, seq<V>>>, k: string)
    ensures Gather(a + b, k) == Gather(a, k) + Gather(b, k)
  {
    if |a| == 0 {
      assert a + b == b;
    } else {
      assert (a + b)[1..] == a[1..] + b;
      GatherAppend(a[1..], b, k);
    }
  }

  lemma {:induction false} AllKeysAppend<V>(a: seq<map<string, seq<V>>>, b: seq<map<string, seq<V>>>)
    ensures AllKeys(a + b) == AllKeys(a) + AllKeys(b)
  {
    if |a| == 0 {
      assert a + b == b;
    } else {
      assert (a + b)[1..] == a[1..] + b;
      AllKeysAppend(a[1..], b);
    }
  }

  /** Combining a concatenated list is merging the two combined halves. */
  lemma CombineAppend<V>(a: seq<map<string, seq<V>>>, b: seq<map<string, seq<V>>>)
    ensures CombineCheckList(a + b) == Merge(CombineCheckList(a), CombineCheckList(b))
  {
    forall k
      ensures Lookup(CombineCheckList(a + b), k) == Lookup(Merge(CombineCheckList(a), CombineCheckList(b)), k)
    {
      GatherAppend(a, b, k);
    }
    AllKeysAppend(a, b);
    LookupExtensional(CombineCheckList(a + b), Merge(CombineCheckList(a), CombineCheckList(b)));
  }
}
