/**
 * The menu tree the generator reads: items, the ROOT sentinel, the child
 * lists of sub-menus, and the queries MenuTree offers (getMenuItems,
 * findParent, getAllMenuItems, getAllSubMenus).
 */
module MenuTree {
  import opened Wrappers

  type Id = nat

  const RootId: Id := 0

  /**
   * A menu item as the generator sees it. `functionName` is None for a null
   * callback name; `secured` is only read for sub-menus; `runtimeNeeded` is
   * the answer of MenuItemHelper.isRuntimeStructureNeeded for the item.
   */
  datatype Item = Item(
    id: Id,
    name: string,
    functionName: Option<string>,
    subMenu: bool,
    secured: bool,
    readOnly: bool,
    localOnly: bool,
    visible: bool,
    runtimeNeeded: bool)

  /** A node of the tree: an item and, for a sub-menu, its ordered children. */
  datatype Menu = Node(item: Item, children: seq<Menu>)

  /** MenuTree.ROOT: the sentinel sub-menu at the top, never emitted itself. */
  const Root: Item := Item(RootId, "Root", None, true, false, false, false, true, false)

  /** The items of a forest in pre-order. */
  function Items(f: seq<Menu>): (r: seq<Item>)
    ensures f != [] ==> |r| > 0 && r[0] == f[0].item
    decreases f
  {
    if f == [] then [] else [f[0].item] + Items(f[0].children) + Items(f[1..])
  }

  /** The items of the nodes of a sibling list, in order (getMenuItems). */
  function Heads(f: seq<Menu>): (r: seq<Item>)
    ensures |r| == |f|
    ensures forall k :: 0 <= k < |f| ==> r[k] == f[k].item
  {
    if f == [] then [] else [f[0].item] + Heads(f[1..])
  }

  function Ids(items: seq<Item>): (r: seq<Id>)
    ensures |r| == |items|
    ensures forall k :: 0 <= k < |items| ==> r[k] == items[k].id
  {
    if items == [] then [] else [items[0].id] + Ids(items[1..])
  }

  /** No two items share an identity. */
  ghost predicate UniqueIds(items: seq<Item>)
  {
    forall x :: multiset(Ids(items))[x] <= 1
  }

  /** Only sub-menus have child lists. */
  predicate OnlySubMenusHaveChildren(f: seq<Menu>)
    decreases f
  {
    f == []
    || ((f[0].item.subMenu || f[0].children == [])
        && OnlySubMenusHaveChildren(f[0].children)
        && OnlySubMenusHaveChildren(f[1..]))
  }

  /**
   * A tree as MenuTree holds it: ROOT at the top, child lists only under
   * sub-menus, and every item present once (MenuTree keys its child lists
   * by item, so an item cannot sit in two places).
   */
  ghost predicate WellFormed(t: Menu)
  {
    t.item == Root
    && OnlySubMenusHaveChildren(t.children)
    && UniqueIds([t.item] + Items(t.children))
  }

  /** getAllMenuItems, below ROOT, in pre-order. */
  function AllItems(t: Menu): seq<Item>
  {
    Items(t.children)
  }

  /** Some node of `f` holds the item with identity `id`. */
  predicate HasId(f: seq<Menu>, id: Id)
    decreases f
  {
    f != [] && (f[0].item.id == id || HasId(f[0].children, id) || HasId(f[1..], id))
  }

  /**
   * The items on the way from the top of `f` down to the node with identity
   * `id`, that node included; empty when no node of `f` has it.
   */
  function PathIn(f: seq<Menu>, id: Id): seq<Item>
    decreases f
  {
    if f == [] then []
    else if f[0].item.id == id then [f[0].item]
    else if HasId(f[0].children, id) then [f[0].item] + PathIn(f[0].children, id)
    else PathIn(f[1..], id)
  }

  /** The sub-menu whose child list, within `f` under `parent`, holds `id`. */
  function ParentIn(f: seq<Menu>, parent: Item, id: Id): Option<Item>
    decreases f
  {
    if f == [] then None
    else if f[0].item.id == id then Some(parent)
    else if HasId(f[0].children, id) then ParentIn(f[0].children, f[0].item, id)
    else ParentIn(f[1..], parent, id)
  }

  /** MenuTree.findParent: None for ROOT and for items not in the tree. */
  function FindParent(t: Menu, item: Item): Option<Item>
  {
    ParentIn(t.children, t.item, item.id)
  }

  /**
   * getAllSubMenus().flatMap(getMenuItems): the child list of ROOT followed
   * by the child list of every sub-menu, sub-menus taken in pre-order.
   */
  function ChildrenOfSubMenus(t: Menu): seq<Item>
  {
    Heads(t.children) + ChildrenBelow(t.children)
  }

  function ChildrenBelow(f: seq<Menu>): seq<Item>
    decreases f
  {
    if f == [] then []
    else
      (if f[0].item.subMenu then Heads(f[0].children) else [])
      + ChildrenBelow(f[0].children) + ChildrenBelow(f[1..])
  }

  // ---------------------------------------------------------------------
  // Lemmas

  lemma {:induction false} IdsAppend(a: seq<Item>, b: seq<Item>)
    ensures Ids(a + b) == Ids(a) + Ids(b)
  {
    assert |Ids(a + b)| == |Ids(a) + Ids(b)|;
    forall k | 0 <= k < |a + b| ensures Ids(a + b)[k] == (Ids(a) + Ids(b))[k] {
      if k < |a| { assert (a + b)[k] == a[k]; } else { assert (a + b)[k] == b[k - |a|]; }
    }
  }

  lemma {:induction false} ItemsUnfold(f: seq<Menu>)
    requires f != []
    ensures Ids(Items(f)) == [f[0].item.id] + Ids(Items(f[0].children)) + Ids(Items(f[1..]))
  {
    IdsAppend([f[0].item] + Items(f[0].children), Items(f[1..]));
    IdsAppend([f[0].item], Items(f[0].children));
  }

  /** Uniqueness of a concatenation splits into the parts and their disjointness. */
  lemma {:induction false} UniqueIdsSplit(a: seq<Item>, b: seq<Item>)
    requires UniqueIds(a + b)
    ensures UniqueIds(a) && UniqueIds(b)
    ensures forall x :: x in Ids(a) ==> x !in Ids(b)
  {
    IdsAppend(a, b);
    assert multiset(Ids(a + b)) == multiset(Ids(a)) + multiset(Ids(b));
    forall x ensures multiset(Ids(a))[x] <= 1 && multiset(Ids(b))[x] <= 1 {
      assert multiset(Ids(a + b))[x] <= 1;
    }
    forall x | x in Ids(a) ensures x !in Ids(b) {
      assert multiset(Ids(a + b))[x] <= 1;
    }
  }

  /** The three parts of a forest with unique identities. */
  lemma {:induction false} UniqueForest(f: seq<Menu>)
    requires f != [] && UniqueIds(Items(f))
    ensures UniqueIds(Items(f[0].children)) && UniqueIds(Items(f[1..]))
    ensures !HasId(f[0].children, f[0].item.id)
    ensures !HasId(f[1..], f[0].item.id)
    ensures forall x :: HasId(f[0].children, x) ==> !HasId(f[1..], x)
  {
    var h, c, r := [f[0].item], Items(f[0].children), Items(f[1..]);
    assert Items(f) == (h + c) + r;
    UniqueIdsSplit(h + c, r);
    UniqueIdsSplit(h, c);
    IdsAppend(h, c);
    HasIdIsInIds(f[0].children, f[0].item.id);
    HasIdIsInIds(f[1..], f[0].item.id);
    forall x | HasId(f[0].children, x) ensures !HasId(f[1..], x) {
      HasIdIsInIds(f[0].children, x);
      HasIdIsInIds(f[1..], x);
    }
  }

  lemma {:induction false} HasIdIsInIds(f: seq<Menu>, id: Id)
    ensures HasId(f, id) <==> id in Ids(Items(f))
    decreases f
  {
    if f != [] {
      ItemsUnfold(f);
      HasIdIsInIds(f[0].children, id);
      HasIdIsInIds(f[1..], id);
    }
  }

  lemma {:induction false} PathInFound(f: seq<Menu>, id: Id)
    ensures |PathIn(f, id)| > 0 <==> HasId(f, id)
    ensures |PathIn(f, id)| > 0 ==> PathIn(f, id)[|PathIn(f, id)| - 1].id == id
    decreases f
  {
    if f != [] {
      if f[0].item.id == id {
      } else if HasId(f[0].children, id) {
        PathInFound(f[0].children, id);
      } else {
        PathInFound(f[1..], id);
      }
    }
  }

  lemma {:induction false} PathInMembers(f: seq<Menu>, id: Id)
    ensures forall k :: 0 <= k < |PathIn(f, id)| ==> HasId(f, PathIn(f, id)[k].id)
    decreases f
  {
    if f != [] {
      var p := PathIn(f, id);
      if f[0].item.id == id {
      } else if HasId(f[0].children, id) {
        var q := PathIn(f[0].children, id);
        PathInMembers(f[0].children, id);
        assert p == [f[0].item] + q;
        forall k | 0 <= k < |p| ensures HasId(f, p[k].id) {
          if k > 0 { assert p[k] == q[k - 1]; }
        }
      } else {
        PathInMembers(f[1..], id);
      }
    }
  }

  /** findParent gives the item just above the node on its path, or `parent` at the top. */
  lemma {:induction false} ParentFromPath(f: seq<Menu>, parent: Item, id: Id)
    ensures var p := PathIn(f, id);
      ParentIn(f, parent, id) == if p == [] then None else if |p| == 1 then Some(parent) else Some(p[|p| - 2])
    decreases f
  {
    if f != [] && f[0].item.id != id {
      if HasId(f[0].children, id) {
        ParentFromPath(f[0].children, f[0].item, id);
        PathInFound(f[0].children, id);
      } else {
        ParentFromPath(f[1..], parent, id);
      }
    }
  }

  /** Every prefix of a path is the path of its own last item. */
  lemma {:induction false} PathPrefix(f: seq<Menu>, id: Id, k: nat)
    requires UniqueIds(Items(f))
    requires k < |PathIn(f, id)|
    ensures PathIn(f, PathIn(f, id)[k].id) == PathIn(f, id)[..k + 1]
    decreases f
  {
    var p := PathIn(f, id);
    UniqueForest(f);
    if f[0].item.id == id {
    } else if HasId(f[0].children, id) {
      var q := PathIn(f[0].children, id);
      assert p == [f[0].item] + q;
      if k > 0 {
        PathInMembers(f[0].children, id);
        assert p[k] == q[k - 1];
        PathPrefix(f[0].children, id, k - 1);
        assert p[..k + 1] == [f[0].item] + q[..k];
      }
    } else {
      PathInMembers(f[1..], id);
      PathPrefix(f[1..], id, k);
    }
  }

  /** In a well-formed tree no path reaches ROOT's identity. */
  lemma {:induction false} PathAvoidsRoot(t: Menu, id: Id)
    requires WellFormed(t)
    ensures forall k :: 0 <= k < |PathIn(t.children, id)| ==> PathIn(t.children, id)[k].id != RootId
  {
    UniqueIdsSplit([t.item], Items(t.children));
    HasIdIsInIds(t.children, RootId);
    PathInMembers(t.children, id);
  }

  /** Every non-root item sits in exactly one child list: the two enumerations agree. */
  lemma {:induction false} ChildrenBelowAreItems(f: seq<Menu>)
    requires OnlySubMenusHaveChildren(f)
    ensures multiset(Heads(f) + ChildrenBelow(f)) == multiset(Items(f))
    decreases f
  {
    if f != [] {
      var n := f[0];
      ChildrenBelowAreItems(n.children);
      ChildrenBelowAreItems(f[1..]);
      var hc := Heads(n.children);
      assert (if n.item.subMenu then hc else []) == hc;
      Regroup(n.item, Heads(f[1..]), hc, ChildrenBelow(n.children), ChildrenBelow(f[1..]));
    }
  }

  lemma Regroup<T>(x: T, h1: seq<T>, hc: seq<T>, c0: seq<T>, c1: seq<T>)
    ensures multiset([x] + h1 + (hc + c0 + c1)) == multiset([x] + (hc + c0) + (h1 + c1))
  {
  }

  lemma {:induction false} ChildrenOfSubMenusAreAllItems(t: Menu)
    requires WellFormed(t)
    ensures multiset(ChildrenOfSubMenus(t)) == multiset(AllItems(t))
  {
    ChildrenBelowAreItems(t.children);
  }
}
