/**
 * Callback requirements (ArduinoGenerator.callBackFunctions) and the order in
 * which their headers are written (the comparator in generateHeaders).
 */
module Callbacks {
  import opened Wrappers
  import opened MenuTree

  /** CallbackRequirement: the callback name (None for null) and the item it serves. */
  datatype CallbackRequirement = CallbackRequirement(callbackName: Option<string>, item: Item)

  /** An item needs a callback when it names a function or needs runtime structure. */
  predicate NeedsCallback(i: Item)
  {
    (i.functionName.Some? && i.functionName.value != "") || i.runtimeNeeded
  }

  /** The filter and map of callBackFunctions, before collecting into a map. */
  function Requirements(items: seq<Item>): (r: seq<CallbackRequirement>)
    ensures |r| <= |items|
    ensures forall k :: 0 <= k < |r| ==> NeedsCallback(r[k].item) && r[k].callbackName == r[k].item.functionName
  {
    if items == [] then []
    else
      (if NeedsCallback(items[0]) then [CallbackRequirement(items[0].functionName, items[0])] else [])
      + Requirements(items[1..])
  }

  /** No two requirements are for items with the same identity. */
  predicate DistinctItems(reqs: seq<CallbackRequirement>)
  {
    forall j, k :: 0 <= j < k < |reqs| ==> reqs[j].item.id != reqs[k].item.id
  }

  /** Every requirement of the map is stored under its own item. */
  predicate KeyedByItem(m: map<Id, CallbackRequirement>)
  {
    forall id :: id in m ==> m[id].item.id == id
  }

  /**
   * Collectors.toMap keyed by item: None when a key repeats (toMap throws
   * IllegalStateException), otherwise each requirement under its item.
   */
  function ToMap(reqs: seq<CallbackRequirement>): Option<map<Id, CallbackRequirement>>
  {
    if reqs == [] then Some(map[])
    else
      var last := reqs[|reqs| - 1];
      match ToMap(reqs[..|reqs| - 1])
      case None => None
      case Some(m) =>
        if last.item.id in m then None else Some(m[last.item.id := last])
  }

  /** callBackFunctions: requirements for the children of every sub-menu, keyed by item. */
  function CallBackFunctions(t: Menu): Option<map<Id, CallbackRequirement>>
  {
    ToMap(Requirements(ChildrenOfSubMenus(t)))
  }

  // ---------------------------------------------------------------------
  // Ordering

  /** String.compareTo: the first differing character decides, else the length. */
  function CompareTo(a: string, b: string): int
  {
    if a == [] || b == [] then |a| - |b|
    else if a[0] != b[0] then a[0] as int - b[0] as int
    else CompareTo(a[1..], b[1..])
  }

  /** Lexical order, stated directly: a prefix, or smaller at the first difference. */
  predicate LexLessOrEqual(a: string, b: string)
  {
    (|a| <= |b| && a == b[..|a|])
    || exists k :: 0 <= k < |a| && k < |b| && a[..k] == b[..k] && a[k] < b[k]
  }

  /** The header comparator: null names first and equal to each other, the rest by compareTo. */
  function CompareCallbacks(x: CallbackRequirement, y: CallbackRequirement): int
  {
    match (x.callbackName, y.callbackName)
    case (None, None) => 0
    case (None, Some(_)) => -1
    case (Some(_), None) => 1
    case (Some(a), Some(b)) => CompareTo(a, b)
  }

  predicate Sorted(cs: seq<CallbackRequirement>)
  {
    forall j, k :: 0 <= j < k < |cs| ==> CompareCallbacks(cs[j], cs[k]) <= 0
  }

  /** Insert `x` before the first element it does not follow. */
  function Insert(x: CallbackRequirement, s: seq<CallbackRequirement>): (r: seq<CallbackRequirement>)
    ensures multiset(r) == multiset(s) + multiset{x}
    ensures |r| == |s| + 1
  {
    if s == [] || CompareCallbacks(x, s[0]) <= 0 then [x] + s
    else
      assert s == [s[0]] + s[1..];
      [s[0]] + Insert(x, s[1..])
  }

  /** List.sort with the header comparator. */
  function SortCallbacks(cs: seq<CallbackRequirement>): (r: seq<CallbackRequirement>)
    ensures multiset(r) == multiset(cs)
    ensures |r| == |cs|
  {
    if cs == [] then []
    else
      assert cs == [cs[0]] + cs[1..];
      Insert(cs[0], SortCallbacks(cs[1..]))
  }

  // ---------------------------------------------------------------------
  // Lemmas: the map

  /** Taking the first item of `a` out of both sides of a permutation leaves a permutation. */
  lemma RemoveMatching(a: seq<Item>, b: seq<Item>, i: nat)
    requires multiset(a) == multiset(b) && a != [] && i < |b| && b[i] == a[0]
    ensures multiset(a[1..]) == multiset(b[..i] + b[i + 1..])
  {
    var x := a[0];
    var b' := b[..i] + b[i + 1..];
    assert a == [x] + a[1..];
    assert b == b[..i] + [x] + b[i + 1..];
    assert multiset(a) == multiset{x} + multiset(a[1..]);
    assert multiset(b) == multiset(b[..i]) + multiset{x} + multiset(b[i + 1..]);
    assert multiset(b') == multiset(b[..i]) + multiset(b[i + 1..]);
    forall y ensures multiset(a[1..])[y] == multiset(b')[y] {
      assert multiset(a)[y] == multiset(b)[y];
    }
  }

  /** The identities of a list are those of the list without one of its items, plus that item's. */
  lemma IdsWithout(l: seq<Item>, x: Item, r: seq<Item>)
    ensures multiset(Ids(l + [x] + r)) == multiset(Ids(l + r)) + multiset{x.id}
  {
    IdsAppend(l + [x], r);
    IdsAppend(l, [x]);
    IdsAppend(l, r);
    assert Ids([x]) == [x.id];
    MultisetSplice(Ids(l), x.id, Ids(r));
  }

  lemma IdsWithoutAt(b: seq<Item>, i: nat)
    requires i < |b|
    ensures multiset(Ids(b)) == multiset(Ids(b[..i] + b[i + 1..])) + multiset{b[i].id}
  {
    SpliceAt(b, i);
    IdsWithout(b[..i], b[i], b[i + 1..]);
  }

  /** A list is its part before position i, the element at i, and its part after. */
  lemma SpliceAt<T>(b: seq<T>, i: nat)
    requires i < |b|
    ensures b == b[..i] + [b[i]] + b[i + 1..]
  {
  }

  lemma MultisetSplice<T>(l: seq<T>, x: T, r: seq<T>)
    ensures multiset(l + [x] + r) == multiset(l + r) + multiset{x}
  {
  }

  lemma {:induction false} IdsOfPermutation(a: seq<Item>, b: seq<Item>)
    requires multiset(a) == multiset(b)
    ensures multiset(Ids(a)) == multiset(Ids(b))
    decreases |a|
  {
    if a != [] {
      var x := a[0];
      assert x in multiset(b);
      var i :| 0 <= i < |b| && b[i] == x;
      RemoveMatching(a, b, i);
      IdsOfPermutation(a[1..], b[..i] + b[i + 1..]);
      IdsWithoutAt(b, i);
      assert Ids(a) == [x.id] + Ids(a[1..]);
    }
  }

  lemma UniqueIdsOfPermutation(a: seq<Item>, b: seq<Item>)
    requires multiset(a) == multiset(b) && UniqueIds(a)
    ensures UniqueIds(b)
  {
    IdsOfPermutation(a, b);
  }

  /** Distinct positions of a list with unique identities hold distinct identities. */
  lemma UniqueIdsDistinct(s: seq<Item>, j: nat, k: nat)
    requires UniqueIds(s) && j < k < |s|
    ensures s[j].id != s[k].id
  {
    assert s == s[..j + 1] + s[j + 1..];
    UniqueIdsSplit(s[..j + 1], s[j + 1..]);
    assert s[..j + 1][j] == s[j];
    assert s[j + 1..][k - j - 1] == s[k];
    assert s[j].id in Ids(s[..j + 1]);
    assert s[k].id in Ids(s[j + 1..]);
  }

  /** The position in `items` of the item the k-th requirement was made for. */
  ghost function SourceIndex(items: seq<Item>, k: nat): (b: nat)
    requires k < |Requirements(items)|
    ensures b < |items| && Requirements(items)[k].item == items[b]
    decreases |items|
  {
    var head := if NeedsCallback(items[0]) then [CallbackRequirement(items[0].functionName, items[0])] else [];
    assert Requirements(items) == head + Requirements(items[1..]);
    if k < |head| then 0 else 1 + SourceIndex(items[1..], k - |head|)
  }

  /** The filter keeps the items' order: later requirements come from later items. */
  lemma {:induction false} RequirementsOrder(items: seq<Item>, j: nat, k: nat)
    requires j < k < |Requirements(items)|
    ensures SourceIndex(items, j) < SourceIndex(items, k)
    decreases |items|
  {
    var head := if NeedsCallback(items[0]) then [CallbackRequirement(items[0].functionName, items[0])] else [];
    assert Requirements(items) == head + Requirements(items[1..]);
    if j >= |head| {
      RequirementsOrder(items[1..], j - |head|, k - |head|);
    }
  }

  /** The requirements are exactly those of the items that need a callback. */
  lemma {:induction false} RequirementsMembers(items: seq<Item>)
    ensures forall c :: c in Requirements(items) <==>
      exists i :: i in items && NeedsCallback(i) && c == CallbackRequirement(i.functionName, i)
  {
    if items != [] {
      RequirementsMembers(items[1..]);
      assert items == [items[0]] + items[1..];
    }
  }

  lemma RequirementsDistinct(items: seq<Item>)
    requires UniqueIds(items)
    ensures DistinctItems(Requirements(items))
  {
    var r := Requirements(items);
    forall j, k | 0 <= j < k < |r| ensures r[j].item.id != r[k].item.id {
      RequirementsOrder(items, j, k);
      UniqueIdsDistinct(items, SourceIndex(items, j), SourceIndex(items, k));
    }
  }

  /** After toMap succeeds, every requirement is found under its item's identity. */
  lemma {:induction false} ToMapLookup(reqs: seq<CallbackRequirement>, k: nat)
    requires ToMap(reqs).Some? && k < |reqs|
    ensures reqs[k].item.id in ToMap(reqs).value && ToMap(reqs).value[reqs[k].item.id] == reqs[k]
    decreases |reqs|
  {
    var p := reqs[..|reqs| - 1];
    var last := reqs[|reqs| - 1];
    var m := ToMap(p).value;
    assert last.item.id !in m && ToMap(reqs).value == m[last.item.id := last];
    if k < |p| {
      ToMapLookup(p, k);
      assert p[k] == reqs[k];
    }
  }

  /** After toMap succeeds, every key is the identity of some requirement's item. */
  lemma {:induction false} ToMapKeys(reqs: seq<CallbackRequirement>, id: Id)
    requires ToMap(reqs).Some? && id in ToMap(reqs).value
    ensures exists k :: 0 <= k < |reqs| && reqs[k].item.id == id
    decreases |reqs|
  {
    var p := reqs[..|reqs| - 1];
    var last := reqs[|reqs| - 1];
    if id != last.item.id {
      ToMapKeys(p, id);
      var k :| 0 <= k < |p| && p[k].item.id == id;
      assert reqs[k] == p[k];
    }
  }

  lemma DistinctItemsSnoc(reqs: seq<CallbackRequirement>)
    requires reqs != []
    ensures DistinctItems(reqs) <==>
      DistinctItems(reqs[..|reqs| - 1])
      && forall j :: 0 <= j < |reqs| - 1 ==> reqs[j].item.id != reqs[|reqs| - 1].item.id
  {
    var p := reqs[..|reqs| - 1];
    assert forall j :: 0 <= j < |p| ==> p[j] == reqs[j];
  }

  /** toMap succeeds exactly when no two requirements share an item identity. */
  lemma {:induction false} ToMapDefined(reqs: seq<CallbackRequirement>)
    ensures ToMap(reqs).Some? <==> DistinctItems(reqs)
    decreases |reqs|
  {
    if reqs != [] {
      var p := reqs[..|reqs| - 1];
      var last := reqs[|reqs| - 1];
      ToMapDefined(p);
      DistinctItemsSnoc(reqs);
      if ToMap(p).Some? {
        var m := ToMap(p).value;
        if last.item.id in m {
          ToMapKeys(p, last.item.id);
          var j :| 0 <= j < |p| && p[j].item.id == last.item.id;
          assert reqs[j] == p[j];
        } else {
          forall j | 0 <= j < |p| ensures p[j].item.id != last.item.id {
            ToMapLookup(p, j);
          }
        }
      }
    }
  }

  /** Over items with unique identities the map holds exactly the items that need a callback. */
  lemma ToMapOfItems(cs: seq<Item>)
    requires UniqueIds(cs)
    ensures ToMap(Requirements(cs)).Some?
    ensures forall i :: i in cs ==>
      (i.id in ToMap(Requirements(cs)).value <==> NeedsCallback(i))
      && (NeedsCallback(i) ==> ToMap(Requirements(cs)).value[i.id] == CallbackRequirement(i.functionName, i))
    ensures forall id :: id in ToMap(Requirements(cs)).value ==> exists i :: i in cs && i.id == id && NeedsCallback(i)
  {
    var reqs := Requirements(cs);
    RequirementsDistinct(cs);
    ToMapDefined(reqs);
    RequirementsMembers(cs);
    var m := ToMap(reqs).value;
    forall i | i in cs ensures (i.id in m <==> NeedsCallback(i))
      && (NeedsCallback(i) ==> m[i.id] == CallbackRequirement(i.functionName, i))
    {
      if NeedsCallback(i) {
        var c := CallbackRequirement(i.functionName, i);
        assert c in reqs;
        var k :| 0 <= k < |reqs| && reqs[k] == c;
        ToMapLookup(reqs, k);
      }
      if i.id in m {
        ToMapKeys(reqs, i.id);
        var k :| 0 <= k < |reqs| && reqs[k].item.id == i.id;
        ToMapLookup(reqs, k);
        assert reqs[k] in reqs;
        var i' :| i' in cs && NeedsCallback(i') && reqs[k] == CallbackRequirement(i'.functionName, i');
        SameIdSameItem(cs, i, i');
      }
    }
    forall id | id in m ensures exists i :: i in cs && i.id == id && NeedsCallback(i) {
      ToMapKeys(reqs, id);
      var k :| 0 <= k < |reqs| && reqs[k].item.id == id;
      assert reqs[k] in reqs;
    }
  }

  lemma ItemsBelowRoot(t: Menu)
    requires WellFormed(t)
    ensures UniqueIds(AllItems(t))
    ensures forall i :: i in AllItems(t) ==> i.id != RootId
  {
    UniqueIdsSplit([t.item], Items(t.children));
    assert Ids([t.item])[0] == RootId;
    assert RootId in Ids([t.item]);
    forall i | i in AllItems(t) ensures i.id != RootId {
      var k :| 0 <= k < |Items(t.children)| && Items(t.children)[k] == i;
      assert Ids(Items(t.children))[k] == i.id;
      assert i.id in Ids(Items(t.children));
    }
  }

  /**
   * On a well-formed tree callBackFunctions never fails, and it holds exactly
   * one requirement for each item below ROOT that needs one: keyed by the
   * item, carrying its function name. ROOT itself never has one.
   */
  lemma CallBackFunctionsOfTree(t: Menu)
    requires WellFormed(t)
    ensures CallBackFunctions(t).Some?
    ensures forall i :: i in AllItems(t) ==>
      (i.id in CallBackFunctions(t).value <==> NeedsCallback(i))
      && (NeedsCallback(i) ==> CallBackFunctions(t).value[i.id] == CallbackRequirement(i.functionName, i))
    ensures forall id :: id in CallBackFunctions(t).value ==>
      exists i :: i in AllItems(t) && i.id == id && NeedsCallback(i)
    ensures RootId !in CallBackFunctions(t).value
  {
    var cs := ChildrenOfSubMenus(t);
    ChildrenOfSubMenusAreAllItems(t);
    ItemsBelowRoot(t);
    UniqueIdsOfPermutation(AllItems(t), cs);
    ToMapOfItems(cs);
    assert forall i :: i in cs <==> i in AllItems(t) by {
      forall i ensures i in cs <==> i in AllItems(t) {
        assert i in cs <==> i in multiset(cs);
        assert i in AllItems(t) <==> i in multiset(AllItems(t));
      }
    }
  }

  /** The map callBackFunctions builds stores every requirement under its own item. */
  lemma CallBackFunctionsKeyedByItem(t: Menu)
    requires WellFormed(t)
    ensures CallBackFunctions(t).Some? && KeyedByItem(CallBackFunctions(t).value)
  {
    CallBackFunctionsOfTree(t);
    var m := CallBackFunctions(t).value;
    forall id | id in m ensures m[id].item.id == id {
      var i :| i in AllItems(t) && i.id == id && NeedsCallback(i);
    }
  }

  /**
   * The values of the map callBackFunctions builds, which generateHeaders
   * lists and sorts, are the requirements of the items below ROOT that need
   * one.
   */
  lemma CallBackFunctionsValues(t: Menu)
    requires WellFormed(t)
    ensures CallBackFunctions(t).Some?
    ensures forall c :: c in CallBackFunctions(t).value.Values <==>
      exists i :: i in AllItems(t) && NeedsCallback(i) && c == CallbackRequirement(i.functionName, i)
  {
    CallBackFunctionsOfTree(t);
    var m := CallBackFunctions(t).value;
    forall c ensures c in m.Values <==>
      exists i :: i in AllItems(t) && NeedsCallback(i) && c == CallbackRequirement(i.functionName, i)
    {
      if c in m.Values {
        var id :| id in m && m[id] == c;
        var i :| i in AllItems(t) && i.id == id && NeedsCallback(i);
      }
      if exists i :: i in AllItems(t) && NeedsCallback(i) && c == CallbackRequirement(i.functionName, i) {
        var i :| i in AllItems(t) && NeedsCallback(i) && c == CallbackRequirement(i.functionName, i);
        assert m[i.id] == c;
      }
    }
  }

  /** A requirement occurs at most once in a list whose items are distinct. */
  lemma {:induction false} DistinctItemsCount(a: seq<CallbackRequirement>, c: CallbackRequirement)
    requires DistinctItems(a)
    ensures multiset(a)[c] <= 1
  {
    if a != [] {
      assert a == [a[0]] + a[1..];
      assert DistinctItems(a[1..]) by {
        forall j, k | 0 <= j < k < |a[1..]| ensures a[1..][j].item.id != a[1..][k].item.id {
          assert a[1..][j] == a[j + 1] && a[1..][k] == a[k + 1];
        }
      }
      DistinctItemsCount(a[1..], c);
      if a[0] == c {
        forall k | 0 <= k < |a[1..]| ensures a[1..][k] != c {
          assert a[1..][k] == a[k + 1];
        }
        assert c !in a[1..];
      }
    }
  }

  /** Reordering a list with distinct items keeps its items distinct. */
  lemma DistinctItemsOfPermutation(a: seq<CallbackRequirement>, b: seq<CallbackRequirement>)
    requires multiset(a) == multiset(b) && DistinctItems(a)
    ensures DistinctItems(b)
  {
    forall j, k | 0 <= j < k < |b| ensures b[j].item.id != b[k].item.id {
      if b[j] == b[k] {
        assert b == b[..k] + [b[k]] + b[k + 1..];
        assert b[j] in b[..k];
        DistinctItemsCount(a, b[k]);
        assert false;
      } else {
        assert b[j] in multiset(a) && b[k] in multiset(a);
        var p :| 0 <= p < |a| && a[p] == b[j];
        var q :| 0 <= q < |a| && a[q] == b[k];
        if p < q {
          assert a[p].item.id != a[q].item.id;
        } else {
          assert a[q].item.id != a[p].item.id;
        }
      }
    }
  }

  lemma SameIdSameItem(s: seq<Item>, x: Item, y: Item)
    requires UniqueIds(s) && x in s && y in s && x.id == y.id
    ensures x == y
  {
    var a :| 0 <= a < |s| && s[a] == x;
    var b :| 0 <= b < |s| && s[b] == y;
    if a < b { UniqueIdsDistinct(s, a, b); }
    if b < a { UniqueIdsDistinct(s, b, a); }
  }

  // ---------------------------------------------------------------------
  // Lemmas: the order

  /** compareTo is zero exactly for equal strings. */
  lemma {:induction false} CompareToZero(a: string, b: string)
    ensures CompareTo(a, b) == 0 <==> a == b
  {
    if a != [] && b != [] && a[0] == b[0] {
      CompareToZero(a[1..], b[1..]);
      assert a == [a[0]] + a[1..] && b == [b[0]] + b[1..];
    }
  }

  /** compareTo is antisymmetric. */
  lemma {:induction false} CompareToAntisymmetric(a: string, b: string)
    ensures CompareTo(a, b) == -CompareTo(b, a)
  {
    if a != [] && b != [] && a[0] == b[0] {
      CompareToAntisymmetric(a[1..], b[1..]);
    }
  }

  lemma LexOfEmpty(a: string, b: string)
    requires a == [] || b == []
    ensures LexLessOrEqual(a, b) <==> |a| <= |b|
  {
  }

  lemma LexFirstDiffers(a: string, b: string)
    requires a != [] && b != [] && a[0] != b[0]
    ensures LexLessOrEqual(a, b) <==> a[0] < b[0]
  {
    if a[0] < b[0] {
      assert a[..0] == b[..0];
    }
  }

  lemma LexSameFirstDown(a: string, b: string)
    requires a != [] && b != [] && a[0] == b[0]
    requires LexLessOrEqual(a[1..], b[1..])
    ensures LexLessOrEqual(a, b)
  {
    var a', b' := a[1..], b[1..];
    if |a'| <= |b'| && a' == b'[..|a'|] {
      assert a == [a[0]] + a' && b[..|a|] == [b[0]] + b'[..|a'|];
    } else {
      var k :| 0 <= k < |a'| && k < |b'| && a'[..k] == b'[..k] && a'[k] < b'[k];
      assert a[..k + 1] == [a[0]] + a'[..k] && b[..k + 1] == [b[0]] + b'[..k];
      assert a[k + 1] == a'[k] && b[k + 1] == b'[k];
    }
  }

  lemma LexSameFirstUp(a: string, b: string)
    requires a != [] && b != [] && a[0] == b[0]
    requires LexLessOrEqual(a, b)
    ensures LexLessOrEqual(a[1..], b[1..])
  {
    var a', b' := a[1..], b[1..];
    if |a| <= |b| && a == b[..|a|] {
      assert a' == b'[..|a'|];
    } else {
      var k :| 0 <= k < |a| && k < |b| && a[..k] == b[..k] && a[k] < b[k];
      assert k > 0;
      assert a'[..k - 1] == a[1..k] == b[1..k] == b'[..k - 1];
      assert a'[k - 1] == a[k] && b'[k - 1] == b[k];
    }
  }

  lemma LexSameFirst(a: string, b: string)
    requires a != [] && b != [] && a[0] == b[0]
    ensures LexLessOrEqual(a, b) <==> LexLessOrEqual(a[1..], b[1..])
  {
    if LexLessOrEqual(a[1..], b[1..]) {
      LexSameFirstDown(a, b);
    }
    if LexLessOrEqual(a, b) {
      LexSameFirstUp(a, b);
    }
  }

  /** compareTo orders strings lexically. */
  lemma {:induction false} CompareToIsLexical(a: string, b: string)
    ensures CompareTo(a, b) <= 0 <==> LexLessOrEqual(a, b)
  {
    if a == [] || b == [] {
      LexOfEmpty(a, b);
    } else if a[0] != b[0] {
      LexFirstDiffers(a, b);
    } else {
      CompareToIsLexical(a[1..], b[1..]);
      LexSameFirst(a, b);
    }
  }

  /** compareTo is transitive. */
  lemma {:induction false} CompareToTransitive(a: string, b: string, c: string)
    requires CompareTo(a, b) <= 0 && CompareTo(b, c) <= 0
    ensures CompareTo(a, c) <= 0
  {
    if a != [] && b != [] && c != [] && a[0] == b[0] && b[0] == c[0] {
      CompareToTransitive(a[1..], b[1..], c[1..]);
    }
  }

  /** The header comparator is a total preorder with null names first. */
  lemma CompareCallbacksOrder(x: CallbackRequirement, y: CallbackRequirement, z: CallbackRequirement)
    ensures CompareCallbacks(x, y) <= 0 || CompareCallbacks(y, x) <= 0
    ensures CompareCallbacks(x, y) <= 0 && CompareCallbacks(y, z) <= 0 ==> CompareCallbacks(x, z) <= 0
    ensures x.callbackName.None? ==> CompareCallbacks(x, y) <= 0
    ensures x.callbackName.None? && y.callbackName.Some? ==> CompareCallbacks(x, y) < 0
    ensures x.callbackName.Some? && y.callbackName.Some? ==>
      (CompareCallbacks(x, y) <= 0 <==> LexLessOrEqual(x.callbackName.value, y.callbackName.value))
  {
    if x.callbackName.Some? && y.callbackName.Some? {
      CompareToAntisymmetric(x.callbackName.value, y.callbackName.value);
      CompareToIsLexical(x.callbackName.value, y.callbackName.value);
      if z.callbackName.Some? && CompareCallbacks(x, y) <= 0 && CompareCallbacks(y, z) <= 0 {
        CompareToTransitive(x.callbackName.value, y.callbackName.value, z.callbackName.value);
      }
    }
  }

  lemma InsertAtFront(x: CallbackRequirement, s: seq<CallbackRequirement>)
    requires Sorted(s) && (s == [] || CompareCallbacks(x, s[0]) <= 0)
    ensures Sorted([x] + s)
  {
    var r := [x] + s;
    forall j, k | 0 <= j < k < |r| ensures CompareCallbacks(r[j], r[k]) <= 0 {
      if j == 0 && k > 1 {
        CompareCallbacksOrder(x, s[0], s[k - 1]);
      }
    }
  }

  lemma HeadPrecedesInsert(x: CallbackRequirement, s: seq<CallbackRequirement>)
    requires Sorted(s) && s != [] && CompareCallbacks(x, s[0]) > 0
    ensures forall k :: 0 <= k < |Insert(x, s[1..])| ==> CompareCallbacks(s[0], Insert(x, s[1..])[k]) <= 0
  {
    var tail := Insert(x, s[1..]);
    CompareCallbacksOrder(x, s[0], x);
    forall k | 0 <= k < |tail| ensures CompareCallbacks(s[0], tail[k]) <= 0 {
      assert tail[k] in multiset(tail);
      assert tail[k] == x || tail[k] in multiset(s[1..]);
      if tail[k] != x {
        var m :| 0 <= m < |s[1..]| && s[1..][m] == tail[k];
        assert s[m + 1] == tail[k];
      }
    }
  }

  lemma {:induction false} InsertSorted(x: CallbackRequirement, s: seq<CallbackRequirement>)
    requires Sorted(s)
    ensures Sorted(Insert(x, s))
  {
    if s == [] || CompareCallbacks(x, s[0]) <= 0 {
      InsertAtFront(x, s);
    } else {
      var r := Insert(x, s);
      var tail := Insert(x, s[1..]);
      InsertSorted(x, s[1..]);
      HeadPrecedesInsert(x, s);
      assert r == [s[0]] + tail;
      forall j, k | 0 <= j < k < |r| ensures CompareCallbacks(r[j], r[k]) <= 0 {
        assert r[k] == tail[k - 1];
        if j > 0 { assert r[j] == tail[j - 1]; }
      }
    }
  }

  /** The sorted header list is a permutation of the requirements in comparator order. */
  lemma {:induction false} SortCallbacksSorted(cs: seq<CallbackRequirement>)
    ensures Sorted(SortCallbacks(cs))
    ensures multiset(SortCallbacks(cs)) == multiset(cs)
  {
    if cs != [] {
      SortCallbacksSorted(cs[1..]);
      InsertSorted(cs[0], SortCallbacks(cs[1..]));
    }
  }

  /** After sorting, every requirement with a null name precedes every named one. */
  lemma NullNamesFirst(cs: seq<CallbackRequirement>, j: nat, k: nat)
    requires j < |SortCallbacks(cs)| && k < |SortCallbacks(cs)|
    requires SortCallbacks(cs)[j].callbackName.None? && SortCallbacks(cs)[k].callbackName.Some?
    ensures j < k
  {
    SortCallbacksSorted(cs);
  }
}
