/** `TreeMap` (tree.hpp): a string-to-string map stored as a splay tree of
    key-value pairs. Every operation, lookups included, returns the map with
    its restructured tree. */
module TreeMaps {
  import opened Keys
  import opened Pairs
  import opened Trees
  import SplayTree

  datatype TreeMap = TreeMap(tree: Tree)

  ghost predicate Valid(m: TreeMap)
  {
    Bst(m.tree)
  }

  /** What the map stores. */
  function Contents(m: TreeMap): map<Key, string>
  {
    Content(m.tree)
  }

  /** The result `get` gives for a key of a content map: the stored value,
      or the empty string for a missing key. */
  function ValueOr(c: map<Key, string>, key: Key): string
  {
    if key in c then c[key] else ""
  }

  /** A newly constructed map. */
  function Empty(): (m: TreeMap)
    ensures Valid(m) && Contents(m) == map[] && Size(m.tree) == 0
  {
    TreeMap(Leaf)
  }

  /** `insert`: insert or overwrite; the written pair ends up at the root. */
  function Insert(m: TreeMap, key: Key, value: string): (r: TreeMap)
    requires Valid(m)
    ensures Valid(r)
    ensures Contents(r) == Contents(m)[key := value]
    ensures r.tree.Node? && r.tree.kv == KeyValuePair(key, value)
    ensures Size(r.tree) == if key in Contents(m) then Size(m.tree) else Size(m.tree) + 1
  {
    TreeMap(SplayTree.Insert(m.tree, KeyValuePair(key, value)))
  }

  /** `get`: look the key up with an empty-valued search pair (the
      one-argument `KeyValuePair` constructor); the stored value if the found
      node's key matches, the empty string otherwise. */
  function Get(m: TreeMap, key: Key): (r: (TreeMap, string))
    requires Valid(m)
    ensures Valid(r.0) && Contents(r.0) == Contents(m)
    ensures key in Contents(m) ==> r.1 == Contents(m)[key]
    ensures key !in Contents(m) ==> r.1 == ""
    ensures r.1 == ValueOr(Contents(m), key)
    ensures key in Contents(m) ==> r.0.tree.Node? && r.0.tree.kv == KeyValuePair(key, Contents(m)[key])
  {
    var lk := SplayTree.FindNode(m.tree, KeyValuePair(key, ""));
    var value :=
      if lk.found.Some? && lk.found.value.key == key then lk.found.value.value else "";
    (TreeMap(lk.tree), value)
  }

  /** `deleteKey`: erase the key if present, searching with the empty-valued
      pair. */
  function DeleteKey(m: TreeMap, key: Key): (r: TreeMap)
    requires Valid(m)
    ensures Valid(r)
    ensures Contents(r) == Contents(m) - {key}
    ensures Size(r.tree) == if key in Contents(m) then Size(m.tree) - 1 else Size(m.tree)
  {
    TreeMap(SplayTree.Erase(m.tree, KeyValuePair(key, "")))
  }

  /** A put immediately followed by a get returns the value just put. */
  lemma PutThenGet(m: TreeMap, key: Key, value: string)
    requires Valid(m)
    ensures Get(Insert(m, key, value), key).1 == value
  {
  }

  /** Putting a key twice keeps the second value and adds no node. */
  lemma OverwriteKeepsSize(m: TreeMap, key: Key, v1: string, v2: string)
    requires Valid(m)
    ensures var m2 := Insert(Insert(m, key, v1), key, v2);
      && Get(m2, key).1 == v2
      && Size(m2.tree) == Size(Insert(m, key, v1).tree)
  {
  }

  /** After a delete the key reads as missing and every other key reads as
      before. */
  lemma DeleteThenGet(m: TreeMap, key: Key, other: Key)
    requires Valid(m)
    ensures Get(DeleteKey(m, key), key).1 == ""
    ensures other != key ==> Get(DeleteKey(m, key), other).1 == Get(m, other).1
  {
  }

  /** Deleting a missing key changes nothing a caller can observe. */
  lemma DeleteAbsentIsNoOp(m: TreeMap, key: Key)
    requires Valid(m) && key !in Contents(m)
    ensures Contents(DeleteKey(m, key)) == Contents(m)
    ensures InOrder(DeleteKey(m, key).tree) == InOrder(m.tree)
  {
  }

  /** Storing the empty string is indistinguishable through `get` from
      storing nothing. */
  lemma EmptyValueLooksMissing(m: TreeMap, key: Key)
    requires Valid(m)
    ensures Get(Insert(m, key, ""), key).1 == Get(DeleteKey(m, key), key).1
  {
  }

  /** A lookup of a stored key splays it to the root, and looking it up
      again reads the same value. */
  lemma RepeatedGet(m: TreeMap, key: Key)
    requires Valid(m) && key in Contents(m)
    ensures Get(m, key).0.tree.kv.key == key
    ensures Get(Get(m, key).0, key).1 == Get(m, key).1 == Contents(m)[key]
  {
  }

  /** A call on the map, for sequences of calls. */
  datatype Op = Put(key: Key, value: string) | Delete(key: Key) | Fetch(key: Key)

  function Apply(m: TreeMap, op: Op): (r: TreeMap)
    requires Valid(m)
    ensures Valid(r)
  {
    match op
    case Put(k, v) => Insert(m, k, v)
    case Delete(k) => DeleteKey(m, k)
    case Fetch(k) => Get(m, k).0
  }

  function Run(m: TreeMap, ops: seq<Op>): (r: TreeMap)
    requires Valid(m)
    ensures Valid(r)
    decreases |ops|
  {
    if |ops| == 0 then m else Run(Apply(m, ops[0]), ops[1..])
  }

  /** The same calls on a plain map: put overwrites, delete removes, a
      lookup changes nothing. */
  function RunSpec(c: map<Key, string>, ops: seq<Op>): map<Key, string>
    decreases |ops|
  {
    if |ops| == 0 then c
    else
      var c' := match ops[0]
        case Put(k, v) => c[k := v]
        case Delete(k) => c - {k}
        case Fetch(_) => c;
      RunSpec(c', ops[1..])
  }

  /** Whatever the order of calls and whatever shapes splaying produces, the
      map holds what a plain map would hold after the same calls, and `get`
      reads from it. */
  lemma {:induction false} RunMatchesSpec(m: TreeMap, ops: seq<Op>, key: Key)
    requires Valid(m)
    ensures Contents(Run(m, ops)) == RunSpec(Contents(m), ops)
    ensures Get(Run(m, ops), key).1 == ValueOr(RunSpec(Contents(m), ops), key)
    decreases |ops|
  {
    if |ops| > 0 {
      RunMatchesSpec(Apply(m, ops[0]), ops[1..], key);
    }
  }

  ghost predicate Distinct(ks: seq<Key>)
  {
    forall i, j :: 0 <= i < j < |ks| ==> ks[i] != ks[j]
  }

  function PutAll(m: TreeMap, ks: seq<Key>, vs: seq<string>): (r: TreeMap)
    requires Valid(m) && |ks| == |vs|
    ensures Valid(r)
    decreases |ks|
  {
    if |ks| == 0 then m else PutAll(Insert(m, ks[0], vs[0]), ks[1..], vs[1..])
  }

  function DeleteAll(m: TreeMap, ds: seq<Key>): (r: TreeMap)
    requires Valid(m)
    ensures Valid(r)
    decreases |ds|
  {
    if |ds| == 0 then m else DeleteAll(DeleteKey(m, ds[0]), ds[1..])
  }

  /** Proof step, no counterpart in the C++ code: splitting off the first of
      a distinct sequence of keys. */
  lemma DistinctTail(ks: seq<Key>)
    requires |ks| > 0 && Distinct(ks)
    ensures Distinct(ks[1..])
    ensures ks[0] !in ks[1..]
    ensures (set k | k in ks) == {ks[0]} + (set k | k in ks[1..])
  {
    assert ks == [ks[0]] + ks[1..];
  }

  /** Putting distinct keys into a map that has none of them adds exactly
      those keys with their values, one node each. */
  lemma {:induction false} PutAllContents(m: TreeMap, ks: seq<Key>, vs: seq<string>)
    requires Valid(m) && |ks| == |vs| && Distinct(ks)
    requires forall i :: 0 <= i < |ks| ==> ks[i] !in Contents(m)
    ensures Contents(PutAll(m, ks, vs)).Keys == Contents(m).Keys + (set k | k in ks)
    ensures forall k :: k in Contents(m) ==> Contents(PutAll(m, ks, vs))[k] == Contents(m)[k]
    ensures forall i :: 0 <= i < |ks| ==> Contents(PutAll(m, ks, vs))[ks[i]] == vs[i]
    ensures Size(PutAll(m, ks, vs).tree) == Size(m.tree) + |ks|
    decreases |ks|
  {
    if |ks| > 0 {
      var m' := Insert(m, ks[0], vs[0]);
      var ks', vs' := ks[1..], vs[1..];
      var r := PutAll(m', ks', vs');
      assert PutAll(m, ks, vs) == r;
      DistinctTail(ks);
      forall i | 0 <= i < |ks'| ensures ks'[i] !in Contents(m') {
        assert ks'[i] == ks[i + 1];
      }
      PutAllContents(m', ks', vs');
      forall i | 0 <= i < |ks| ensures Contents(r)[ks[i]] == vs[i] {
        if i > 0 {
          assert ks'[i - 1] == ks[i] && vs'[i - 1] == vs[i];
        }
      }
    }
  }

  /** Deleting distinct present keys removes exactly those keys, one node
      each, and leaves the rest alone. */
  lemma {:induction false} DeleteAllContents(m: TreeMap, ds: seq<Key>)
    requires Valid(m) && Distinct(ds)
    requires forall i :: 0 <= i < |ds| ==> ds[i] in Contents(m)
    ensures Contents(DeleteAll(m, ds)) == Contents(m) - (set k | k in ds)
    ensures Size(DeleteAll(m, ds).tree) == Size(m.tree) - |ds|
    decreases |ds|
  {
    if |ds| > 0 {
      var m' := DeleteKey(m, ds[0]);
      var ds' := ds[1..];
      assert DeleteAll(m, ds) == DeleteAll(m', ds');
      DistinctTail(ds);
      forall i | 0 <= i < |ds'| ensures ds'[i] in Contents(m') {
        assert ds'[i] == ds[i + 1];
      }
      DeleteAllContents(m', ds');
      MinusTwice(Contents(m), {ds[0]}, set k | k in ds');
    }
  }

  /** Proof step, no counterpart in the C++ code: removing two key sets one
      after the other removes their union. */
  lemma MinusTwice(c: map<Key, string>, a: set<Key>, b: set<Key>)
    ensures c - a - b == c - (a + b)
  {
  }

  /** A freshly constructed map: a valid map with nothing in it. By
      `FreshIsEmpty` this is exactly the map `Empty()` makes, so the scenarios
      that start from a `Fresh` map start from `TreeMap map;`. */
  ghost predicate Fresh(m: TreeMap)
  {
    Valid(m) && Contents(m) == map[]
  }

  /** The only valid map with no content is the newly constructed one. */
  lemma FreshIsEmpty(m: TreeMap)
    ensures Fresh(m) <==> m == Empty()
  {
    if Fresh(m) && m.tree.Node? {
      ContentKeys(m.tree);
      KeySetNode(m.tree.left, m.tree.kv, m.tree.right);
      assert m.tree.kv.key in Contents(m);
    }
  }

  /** Putting n distinct keys into a new map and then deleting m of them
      leaves exactly n - m keys, each with the value it was put with. */
  lemma BulkContents(m0: TreeMap, ks: seq<Key>, vs: seq<string>, ds: seq<Key>)
    requires Fresh(m0)
    requires |ks| == |vs| && Distinct(ks) && Distinct(ds)
    requires forall i :: 0 <= i < |ds| ==> ds[i] in ks
    ensures var c := Contents(DeleteAll(PutAll(m0, ks, vs), ds));
      && Size(DeleteAll(PutAll(m0, ks, vs), ds).tree) == |c| == |ks| - |ds|
      && (forall i :: 0 <= i < |ks| && ks[i] !in ds ==> ks[i] in c && c[ks[i]] == vs[i])
      && (forall i :: 0 <= i < |ds| ==> ds[i] !in c)
  {
    var m1 := PutAll(m0, ks, vs);
    BulkPut(m0, ks, vs);
    DeleteAllContents(m1, ds);
    BstSizeIsKeyCount(DeleteAll(m1, ds).tree);
    RemovedKeys(Contents(m1), Contents(DeleteAll(m1, ds)), ks, vs, ds);
  }

  /** The put half: into a new map, the put keys are all the keys. */
  lemma BulkPut(m0: TreeMap, ks: seq<Key>, vs: seq<string>)
    requires Fresh(m0)
    requires |ks| == |vs| && Distinct(ks)
    ensures Contents(PutAll(m0, ks, vs)).Keys == set k | k in ks
    ensures forall i :: 0 <= i < |ks| ==> Contents(PutAll(m0, ks, vs))[ks[i]] == vs[i]
    ensures Size(PutAll(m0, ks, vs).tree) == |ks|
  {
    BstSizeIsKeyCount(m0.tree);
    PutAllContents(m0, ks, vs);
  }

  /** Proof step, no counterpart in the C++ code: the put keys not deleted
      keep their put values. */
  lemma RemovedKeys(c1: map<Key, string>, c: map<Key, string>, ks: seq<Key>, vs: seq<string>, ds: seq<Key>)
    requires |ks| == |vs| && c1.Keys == set k | k in ks
    requires forall i :: 0 <= i < |ks| ==> c1[ks[i]] == vs[i]
    requires c == c1 - (set k | k in ds)
    ensures forall i :: 0 <= i < |ks| && ks[i] !in ds ==> ks[i] in c && c[ks[i]] == vs[i]
    ensures forall i :: 0 <= i < |ds| ==> ds[i] !in c
  {
  }

  /** The same, read back through `get`. */
  lemma BulkPutDelete(m0: TreeMap, ks: seq<Key>, vs: seq<string>, ds: seq<Key>)
    requires Fresh(m0)
    requires |ks| == |vs| && Distinct(ks) && Distinct(ds)
    requires forall i :: 0 <= i < |ds| ==> ds[i] in ks
    ensures var m := DeleteAll(PutAll(m0, ks, vs), ds);
      && (forall i :: 0 <= i < |ks| && ks[i] !in ds ==> Get(m, ks[i]).1 == vs[i])
      && (forall i :: 0 <= i < |ds| ==> Get(m, ds[i]).1 == "")
  {
    BulkContents(m0, ks, vs, ds);
  }

  /** The map the basic test case starts from: three keys put into a new map. */
  function ThreeKeys(m0: TreeMap): (m: TreeMap)
    requires Fresh(m0)
    ensures Valid(m)
    ensures Contents(m) == map["keyOne" := "valueOne", "keyTwo" := "valueTwo", "keyThree" := "valueThree"]
  {
    Insert(Insert(Insert(m0, "keyOne", "valueOne"), "keyTwo", "valueTwo"), "keyThree", "valueThree")
  }

  /** Proof step, no counterpart in the C++ code: what the three-key content
      answers for the keys the tests look up. */
  lemma ThreeKeysLookups(c: map<Key, string>)
    requires c == map["keyOne" := "valueOne", "keyTwo" := "valueTwo", "keyThree" := "valueThree"]
    ensures ValueOr(c, "keyOne") == "valueOne"
    ensures ValueOr(c, "keyTwo") == "valueTwo"
    ensures ValueOr(c, "keyThree") == "valueThree"
    ensures ValueOr(c, "doesNotExist") == ""
    ensures ValueOr(c, "anotherMissing") == ""
    ensures ValueOr(c, "keyDoesNotExist") == ""
  {
  }

  /** Basic test, first section: every key put reads back its value. */
  method ExistingKeysSection(m0: TreeMap) returns (one: string, two: string, three: string)
    requires Fresh(m0)
    ensures one == "valueOne" && two == "valueTwo" && three == "valueThree"
  {
    var m := ThreeKeys(m0);
    ThreeKeysLookups(Contents(m));
    var r1 := Get(m, "keyOne");
    var r2 := Get(r1.0, "keyTwo");
    var r3 := Get(r2.0, "keyThree");
    one, two, three := r1.1, r2.1, r3.1;
  }

  /** Basic test, second section: keys never put read as empty. */
  method MissingKeysSection(m0: TreeMap) returns (a: string, b: string)
    requires Fresh(m0)
    ensures a == "" && b == ""
  {
    var m := ThreeKeys(m0);
    ThreeKeysLookups(Contents(m));
    var r1 := Get(m, "doesNotExist");
    var r2 := Get(r1.0, "anotherMissing");
    a, b := r1.1, r2.1;
  }

  /** The calls of the demo program: two lookups of stored keys, a lookup of
      a missing key, and a delete, after which the other two keys remain. */
  method DemoRun(m0: TreeMap) returns (one: string, three: string, missing: string, last: TreeMap)
    requires Fresh(m0)
    ensures one == "valueOne" && three == "valueThree" && missing == ""
    ensures Valid(last) && Contents(last) == map["keyTwo" := "valueTwo", "keyThree" := "valueThree"]
  {
    var m := ThreeKeys(m0);
    ThreeKeysLookups(Contents(m));
    var r1 := Get(m, "keyOne");
    var r2 := Get(r1.0, "keyThree");
    var r3 := Get(r2.0, "keyDoesNotExist");
    last := DeleteKey(r3.0, "keyOne");
    ThreeKeysWithoutOne(Contents(r3.0), Contents(last));
    one, three, missing := r1.1, r2.1, r3.1;
  }

  /** Proof step, no counterpart in the C++ code: the three-key content
      without "keyOne". */
  lemma ThreeKeysWithoutOne(c: map<Key, string>, c': map<Key, string>)
    requires c == map["keyOne" := "valueOne", "keyTwo" := "valueTwo", "keyThree" := "valueThree"]
    requires c' == c - {"keyOne"}
    ensures c' == map["keyTwo" := "valueTwo", "keyThree" := "valueThree"]
  {
  }

  /** Update test, first section: putting an existing key overwrites its
      value and adds no node. */
  method OverwriteSection(m0: TreeMap) returns (before: string, after: string, nodes: nat)
    requires Fresh(m0)
    ensures before == "Brad" && after == "Bellinder" && nodes == 1
  {
    var m := Insert(m0, "user", "Brad");
    var r1 := Get(m, "user");
    var m' := Insert(r1.0, "user", "Bellinder");
    var r2 := Get(m', "user");
    BstSizeIsKeyCount(r2.0.tree);
    assert Contents(r2.0) == map["user" := "Bellinder"];
    before, after, nodes := r1.1, r2.1, Size(r2.0.tree);
  }

  /** Update test, second section: a deleted key reads as empty. */
  method DeleteSection(m0: TreeMap) returns (before: string, after: string)
    requires Fresh(m0)
    ensures before == "Brad" && after == ""
  {
    var m := Insert(m0, "user", "Brad");
    var r1 := Get(m, "user");
    var r2 := Get(DeleteKey(r1.0, "user"), "user");
    before, after := r1.1, r2.1;
  }

  /** Update test, third section: deleting a missing key leaves the others. */
  method DeleteMissingSection(m0: TreeMap) returns (after: string)
    requires Fresh(m0)
    ensures after == "Brad"
  {
    var m := Insert(m0, "user", "Brad");
    var r := Get(DeleteKey(m, "doesNotExist"), "user");
    after := r.1;
  }

  /** The map of the multiple-keys test: five keys put out of order. */
  function FiveFruits(m0: TreeMap): (m: TreeMap)
    requires Fresh(m0)
    ensures Valid(m)
    ensures Contents(m) ==
      map["mango" := "yellow", "apple" := "red", "banana" := "yellow", "grape" := "purple", "cherry" := "red"]
  {
    var m := Insert(Insert(m0, "mango", "yellow"), "apple", "red");
    Insert(Insert(Insert(m, "banana", "yellow"), "grape", "purple"), "cherry", "red")
  }

  /** Proof step, no counterpart in the C++ code: what the five-key content
      answers for each of its keys. */
  lemma FiveFruitsLookups(c: map<Key, string>)
    requires c == map["mango" := "yellow", "apple" := "red", "banana" := "yellow", "grape" := "purple", "cherry" := "red"]
    ensures ValueOr(c, "apple") == "red" && ValueOr(c, "banana") == "yellow"
    ensures ValueOr(c, "cherry") == "red" && ValueOr(c, "grape") == "purple"
    ensures ValueOr(c, "mango") == "yellow"
  {
  }

  /** Multiple-keys test, first section: all five keys read back. */
  method AllFruitsSection(m0: TreeMap) returns (apple: string, banana: string, cherry: string, grape: string, mango: string)
    requires Fresh(m0)
    ensures apple == "red" && banana == "yellow" && cherry == "red"
    ensures grape == "purple" && mango == "yellow"
  {
    var m := FiveFruits(m0);
    FiveFruitsLookups(Contents(m));
    var r1 := Get(m, "apple");
    var r2 := Get(r1.0, "banana");
    var r3 := Get(r2.0, "cherry");
    var r4 := Get(r3.0, "grape");
    var r5 := Get(r4.0, "mango");
    apple, banana, cherry, grape, mango := r1.1, r2.1, r3.1, r4.1, r5.1;
  }

  /** The five-key map after deleting "banana" and "apple". */
  function ThreeFruits(m0: TreeMap): (m: TreeMap)
    requires Fresh(m0)
    ensures Valid(m)
    ensures Contents(m) == map["mango" := "yellow", "grape" := "purple", "cherry" := "red"]
  {
    var m5 := FiveFruits(m0);
    var m3 := DeleteKey(DeleteKey(m5, "banana"), "apple");
    FruitsWithout(Contents(m5), Contents(m3));
    m3
  }

  /** Proof step, no counterpart in the C++ code: the five-key content
      without "banana" and "apple". */
  lemma FruitsWithout(c5: map<Key, string>, c3: map<Key, string>)
    requires c5 == map["mango" := "yellow", "apple" := "red", "banana" := "yellow", "grape" := "purple", "cherry" := "red"]
    requires c3 == c5 - {"banana"} - {"apple"}
    ensures c3 == map["mango" := "yellow", "grape" := "purple", "cherry" := "red"]
    ensures ValueOr(c3, "banana") == "" && ValueOr(c3, "apple") == ""
    ensures ValueOr(c3, "cherry") == "red" && ValueOr(c3, "grape") == "purple"
    ensures ValueOr(c3, "mango") == "yellow"
  {
  }

  /** Multiple-keys test, second section: after deleting two keys they read
      as empty and the other three keep their values. */
  method DeleteFruitsSection(m0: TreeMap) returns (banana: string, apple: string, cherry: string, grape: string, mango: string)
    requires Fresh(m0)
    ensures banana == "" && apple == ""
    ensures cherry == "red" && grape == "purple" && mango == "yellow"
  {
    var m5 := FiveFruits(m0);
    var m := DeleteKey(DeleteKey(m5, "banana"), "apple");
    FruitsWithout(Contents(m5), Contents(m));
    var r1 := Get(m, "banana");
    var r2 := Get(r1.0, "apple");
    var r3 := Get(r2.0, "cherry");
    var r4 := Get(r3.0, "grape");
    var r5 := Get(r4.0, "mango");
    banana, apple, cherry, grape, mango := r1.1, r2.1, r3.1, r4.1, r5.1;
  }
}
