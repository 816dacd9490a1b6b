/**
 * Linearising the menu tree into struct initialisers (renderMenu,
 * generateMenusInOrder and addNameAndKeyToStructure): the arguments every
 * item's generator receives, the pre-order in which they are produced, and
 * the group-wise reversal that lets each emitted struct refer only to
 * structs emitted before it.
 */
module Structures {
  import opened Wrappers
  import opened Sequences
  import opened MenuTree
  import opened VariableNames

  /** The name used for a missing sibling or child. */
  const NullName: string := "NULL"

  /**
   * What MenuItemToEmbeddedGenerator is constructed with for one item: the
   * item, its variable name, the name of its next sibling and, for a
   * sub-menu only, the name of its first child.
   */
  datatype Link = Link(item: Item, varName: string, next: string, firstChild: Option<string>)

  /** A parameter of a struct initialiser: quoted text or raw text. */
  datatype Param = Quoted(text: string) | Raw(text: string)

  /** BuildStructInitializer: one C struct definition to emit. */
  datatype StructInit = StructInit(
    item: Item,
    variableName: string,
    structType: string,
    params: seq<Param>,
    progMem: bool,
    requiresExtern: bool)

  /** The generator of one item's struct group, supplied from outside the model. */
  type StructGenerator = Link -> seq<StructInit>

  /** How items are named: makeNameToVar for a tree and a naming mode. */
  type Namer = Item -> string

  function NamerOf(t: Menu, recursive: bool): Namer
  {
    x => NameToVar(t, recursive, Some(x))
  }

  /** The link renderMenu builds for the item at index `i` of the sibling list `f`. */
  function LinkAt(name: Namer, f: seq<Menu>, i: nat): Link
    requires i < |f|
  {
    var next := if i + 1 < |f| then name(f[i + 1].item) else NullName;
    var child :=
      if f[i].item.subMenu then
        Some(if f[i].children != [] then name(f[i].children[0].item) else NullName)
      else None;
    Link(f[i].item, name(f[i].item), next, child)
  }

  /**
   * The links renderMenu produces for the siblings of `f` from index `i` on:
   * an item's link, then for a sub-menu the links of its children, then the
   * following siblings.
   */
  function LinksFrom(name: Namer, f: seq<Menu>, i: nat): seq<Link>
    requires i <= |f|
    decreases f, |f| - i
  {
    if i == |f| then []
    else
      [LinkAt(name, f, i)]
      + (if f[i].item.subMenu then LinksFrom(name, f[i].children, 0) else [])
      + LinksFrom(name, f, i + 1)
  }

  /** One struct group per link, in link order. */
  function Groups(gen: StructGenerator, links: seq<Link>): (r: seq<seq<StructInit>>)
    ensures |r| == |links|
    ensures forall k :: 0 <= k < |links| ==> r[k] == gen(links[k])
  {
    seq(|links|, k requires 0 <= k < |links| => gen(links[k]))
  }

  /** generateMenusInOrder: the groups of renderMenu from ROOT's children, reversed, then flattened. */
  function MenusInOrder(t: Menu, recursive: bool, gen: StructGenerator): seq<StructInit>
  {
    Flatten(Reverse(Groups(gen, LinksFrom(NamerOf(t, recursive), t.children, 0))))
  }

  /** The application identity record: name then uuid, in program memory, exported. */
  function ApplicationInfo(appName: string, uuid: string): StructInit
  {
    StructInit(Root, "applicationInfo", "ConnectorLocalInfo", [Quoted(appName), Quoted(uuid)], true, true)
  }

  /** addNameAndKeyToStructure: the identity record goes after every menu struct. */
  function AddNameAndKey(structs: seq<StructInit>, appName: string, uuid: string): (r: seq<StructInit>)
    ensures |r| == |structs| + 1
    ensures r[..|structs|] == structs
    ensures r[|structs|].variableName == "applicationInfo" && r[|structs|].structType == "ConnectorLocalInfo"
    ensures r[|structs|].params == [Quoted(appName), Quoted(uuid)]
    ensures r[|structs|].progMem && r[|structs|].requiresExtern && r[|structs|].item == Root
  {
    structs + [ApplicationInfo(appName, uuid)]
  }

  /** The items the links are about, in order. */
  function LinkItems(links: seq<Link>): (r: seq<Item>)
    ensures |r| == |links|
    ensures forall k :: 0 <= k < |links| ==> r[k] == links[k].item
  {
    seq(|links|, k requires 0 <= k < |links| => links[k].item)
  }

  /** Each name the link at `k` refers to belongs to a link further on. */
  predicate RefersAhead(links: seq<Link>, k: nat)
    requires k < |links|
  {
    (links[k].next == NullName
     || exists j :: k < j < |links| && links[j].varName == links[k].next)
    && (links[k].firstChild.None? || links[k].firstChild.value == NullName
        || exists j :: k < j < |links| && links[j].varName == links[k].firstChild.value)
  }

  /** Each name the link at `k` refers to belongs to an earlier link. */
  predicate RefersBack(links: seq<Link>, k: nat)
    requires k < |links|
  {
    (links[k].next == NullName
     || exists j :: 0 <= j < k && links[j].varName == links[k].next)
    && (links[k].firstChild.None? || links[k].firstChild.value == NullName
        || exists j :: 0 <= j < k && links[j].varName == links[k].firstChild.value)
  }

  // ---------------------------------------------------------------------
  // Lemmas

  lemma {:induction false} OnlySubMenusHaveChildrenAt(f: seq<Menu>, i: nat)
    requires OnlySubMenusHaveChildren(f) && i < |f|
    ensures f[i].item.subMenu || f[i].children == []
    ensures OnlySubMenusHaveChildren(f[i].children)
    ensures OnlySubMenusHaveChildren(f[i..])
  {
    if i > 0 {
      OnlySubMenusHaveChildrenAt(f[1..], i - 1);
      assert f[1..][i - 1] == f[i] && f[1..][i - 1..] == f[i..];
    }
  }

  lemma LinkItemsAppend(a: seq<Link>, b: seq<Link>)
    ensures LinkItems(a + b) == LinkItems(a) + LinkItems(b)
  {
    var l, r := LinkItems(a + b), LinkItems(a) + LinkItems(b);
    forall k | 0 <= k < |l| ensures l[k] == r[k] {
      if k < |a| { assert (a + b)[k] == a[k]; } else { assert (a + b)[k] == b[k - |a|]; }
    }
  }

  /**
   * renderMenu makes exactly one link per node below the siblings it starts
   * from, in pre-order: a sub-menu's link is followed by those of all its
   * descendants before its next sibling's.
   */
  lemma {:induction false} LinksFollowItems(name: Namer, f: seq<Menu>, i: nat)
    requires OnlySubMenusHaveChildren(f) && i <= |f|
    ensures LinkItems(LinksFrom(name, f, i)) == Items(f[i..])
    decreases f, |f| - i
  {
    if i < |f| {
      var h := LinkAt(name, f, i);
      var c := LinksFrom(name, f[i].children, 0);
      var r := LinksFrom(name, f, i + 1);
      OnlySubMenusHaveChildrenAt(f, i);
      LinksFollowItems(name, f[i].children, 0);
      assert f[i].children[0..] == f[i].children;
      if !f[i].item.subMenu {
        assert c == [];
      }
      assert LinksFrom(name, f, i) == [h] + c + r;
      LinksFollowItems(name, f, i + 1);
      LinkItemsAppend([h] + c, r);
      LinkItemsAppend([h], c);
      assert LinkItems([h]) == [f[i].item];
      assert LinkItems(c) == Items(f[i].children);
      assert LinkItems(r) == Items(f[i + 1..]);
      var fi := f[i..];
      assert fi[0] == f[i] && fi[1..] == f[i + 1..];
      assert Items(fi) == [f[i].item] + Items(f[i].children) + Items(f[i + 1..]);
    }
  }

  /** The link list of ROOT's children follows getAllMenuItems in pre-order, one per item. */
  lemma LinksCoverAllItems(t: Menu, recursive: bool)
    requires WellFormed(t)
    ensures LinkItems(LinksFrom(NamerOf(t, recursive), t.children, 0)) == AllItems(t)
  {
    LinksFollowItems(NamerOf(t, recursive), t.children, 0);
    assert t.children[0..] == t.children;
  }

  lemma FirstLink(name: Namer, f: seq<Menu>, i: nat)
    requires i < |f|
    ensures |LinksFrom(name, f, i)| > 0
    ensures LinksFrom(name, f, i)[0] == LinkAt(name, f, i)
  {
  }

  /** A link keeps its forward references when more links surround its list. */
  lemma RefersAheadInContext(l: seq<Link>, pre: seq<Link>, c: seq<Link>, post: seq<Link>, m: nat)
    requires l == pre + c + post
    requires m < |c| && RefersAhead(c, m)
    ensures RefersAhead(l, |pre| + m)
  {
    assert l[|pre| + m] == c[m];
    if c[m].next != NullName {
      var j :| m < j < |c| && c[j].varName == c[m].next;
      assert l[|pre| + j] == c[j];
    }
    if c[m].firstChild.Some? && c[m].firstChild.value != NullName {
      var j :| m < j < |c| && c[j].varName == c[m].firstChild.value;
      assert l[|pre| + j] == c[j];
    }
  }

  lemma AllReferAheadInContext(l: seq<Link>, pre: seq<Link>, c: seq<Link>, post: seq<Link>)
    requires l == pre + c + post
    requires forall m :: 0 <= m < |c| ==> RefersAhead(c, m)
    ensures forall k :: |pre| <= k < |pre| + |c| ==> RefersAhead(l, k)
  {
    forall k | |pre| <= k < |pre| + |c| ensures RefersAhead(l, k) {
      RefersAheadInContext(l, pre, c, post, k - |pre|);
    }
  }

  /** The link of sibling `i` refers to its next sibling's link and its first child's, both further on. */
  lemma FirstLinkRefersAhead(name: Namer, f: seq<Menu>, i: nat)
    requires i < |f|
    ensures RefersAhead(LinksFrom(name, f, i), 0)
  {
    var l := LinksFrom(name, f, i);
    var h := LinkAt(name, f, i);
    var c := if f[i].item.subMenu then LinksFrom(name, f[i].children, 0) else [];
    var r := LinksFrom(name, f, i + 1);
    assert l == [h] + c + r;
    if i + 1 < |f| {
      FirstLink(name, f, i + 1);
      assert l[1 + |c|] == r[0];
    }
    if f[i].item.subMenu && f[i].children != [] {
      FirstLink(name, f[i].children, 0);
      assert l[1] == c[0];
    }
  }

  /**
   * In renderMenu's order every next-sibling and first-child name that is
   * not "NULL" is the variable name of a later link.
   */
  lemma {:induction false} LinksReferAhead(name: Namer, f: seq<Menu>, i: nat)
    requires i <= |f|
    ensures forall k :: 0 <= k < |LinksFrom(name, f, i)| ==> RefersAhead(LinksFrom(name, f, i), k)
    decreases f, |f| - i
  {
    if i < |f| {
      var l := LinksFrom(name, f, i);
      var h := LinkAt(name, f, i);
      var c := if f[i].item.subMenu then LinksFrom(name, f[i].children, 0) else [];
      var r := LinksFrom(name, f, i + 1);
      assert l == [h] + c + r;
      if f[i].item.subMenu {
        LinksReferAhead(name, f[i].children, 0);
      }
      LinksReferAhead(name, f, i + 1);
      FirstLinkRefersAhead(name, f, i);
      AllReferAheadInContext(l, [h], c, r);
      assert l == ([h] + c) + r + [];
      AllReferAheadInContext(l, [h] + c, r, []);
    }
  }

  /** Reversing a list whose references all point ahead makes them all point back. */
  lemma ReverseRefersBack(l: seq<Link>)
    requires forall k :: 0 <= k < |l| ==> RefersAhead(l, k)
    ensures forall k :: 0 <= k < |Reverse(l)| ==> RefersBack(Reverse(l), k)
  {
    var r := Reverse(l);
    forall k | 0 <= k < |r| ensures RefersBack(r, k) {
      var m := |l| - 1 - k;
      assert r[k] == l[m];
      assert RefersAhead(l, m);
      if r[k].next != NullName {
        var j :| m < j < |l| && l[j].varName == l[m].next;
        assert r[|l| - 1 - j] == l[j];
      }
      if r[k].firstChild.Some? && r[k].firstChild.value != NullName {
        var j :| m < j < |l| && l[j].varName == l[m].firstChild.value;
        assert r[|l| - 1 - j] == l[j];
      }
    }
  }

  lemma GroupsAppend(gen: StructGenerator, a: seq<Link>, b: seq<Link>)
    ensures Groups(gen, a + b) == Groups(gen, a) + Groups(gen, b)
  {
    assert |Groups(gen, a + b)| == |Groups(gen, a) + Groups(gen, b)|;
  }

  lemma GroupsOfReverse(gen: StructGenerator, l: seq<Link>)
    ensures Reverse(Groups(gen, l)) == Groups(gen, Reverse(l))
  {
  }

  /**
   * generateMenusInOrder emits whole groups in reversed link order, and in
   * that order every non-"NULL" sibling or child name belongs to a link
   * whose group is emitted earlier.
   */
  lemma MenusInOrderRefersBack(t: Menu, recursive: bool, gen: StructGenerator, r: seq<Link>)
    requires r == Reverse(LinksFrom(NamerOf(t, recursive), t.children, 0))
    ensures MenusInOrder(t, recursive, gen) == Flatten(Groups(gen, r))
    ensures forall k :: 0 <= k < |r| ==> RefersBack(r, k)
  {
    var l := LinksFrom(NamerOf(t, recursive), t.children, 0);
    GroupsOfReverse(gen, l);
    LinksReferAhead(NamerOf(t, recursive), t.children, 0);
    ReverseRefersBack(l);
  }

  /**
   * Reversal works on whole groups: the groups of later links come first and
   * each group keeps its own internal order.
   */
  lemma {:induction false} ReversedGroupsSplit(gen: StructGenerator, a: seq<Link>, b: seq<Link>)
    ensures Flatten(Reverse(Groups(gen, a + b)))
         == Flatten(Reverse(Groups(gen, b))) + Flatten(Reverse(Groups(gen, a)))
  {
    assert Groups(gen, a + b) == Groups(gen, a) + Groups(gen, b);
    ReverseAppend(Groups(gen, a), Groups(gen, b));
    FlattenAppend(Reverse(Groups(gen, b)), Reverse(Groups(gen, a)));
  }
}
