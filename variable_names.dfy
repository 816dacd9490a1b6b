/**
 * The C variable name of a menu item (ArduinoGenerator.makeNameToVar and
 * makeRtFunctionName), stated over the item's path in the menu tree.
 */
module VariableNames {
  import opened Wrappers
  import opened Sequences
  import opened Naming
  import opened MenuTree

  /** The identifier fragment of every item's display name, in order. */
  function Fragments(items: seq<Item>): (r: seq<string>)
    ensures |r| == |items|
    ensures forall k :: 0 <= k < |items| ==> r[k] == NameFromVariable(items[k].name)
  {
    seq(|items|, k requires 0 <= k < |items| => NameFromVariable(items[k].name))
  }

  /**
   * The name makeNameToVar gives an item: "NULL" for no item; its own
   * fragment when naming is not recursive or when it sits directly under ROOT
   * (or is not in the tree at all); otherwise the fragments of its ancestors
   * from the top down, ROOT excluded, followed by its own fragment.
   */
  function NameToVar(t: Menu, recursive: bool, item: Option<Item>): string
  {
    match item
    case None => "NULL"
    case Some(x) =>
      var path := PathIn(t.children, x.id);
      if !recursive || |path| <= 1 then NameFromVariable(x.name)
      else Concat(Fragments(path[..|path| - 1])) + NameFromVariable(x.name)
  }

  /** makeRtFunctionName: the runtime callback of an item. */
  function RtFunctionName(t: Menu, recursive: bool, item: Option<Item>): (r: string)
    ensures |r| >= 8 && r[..2] == "fn" && r[|r| - 6..] == "RtCall"
    ensures r[2..|r| - 6] == NameToVar(t, recursive, item)
  {
    "fn" + NameToVar(t, recursive, item) + "RtCall"
  }

  // ---------------------------------------------------------------------
  // Lemmas

  lemma {:induction false} ConcatNoSeparator(parts: seq<string>)
    requires forall k :: 0 <= k < |parts| ==> NoSeparator(parts[k])
    ensures NoSeparator(Concat(parts))
  {
    if parts != [] {
      ConcatNoSeparator(parts[1..]);
      var c := Concat(parts);
      assert c == parts[0] + Concat(parts[1..]);
      forall k | 0 <= k < |c| ensures !IsSeparator(c[k]) {
        if k >= |parts[0]| {
          assert c[k] == Concat(parts[1..])[k - |parts[0]|];
        }
      }
    }
  }

  lemma {:induction false} FragmentsHaveNoSeparator(items: seq<Item>)
    ensures NoSeparator(Concat(Fragments(items)))
  {
    var fs := Fragments(items);
    forall k | 0 <= k < |fs| ensures NoSeparator(fs[k]) {
      NameFromVariableHasNoSeparator(items[k].name);
    }
    ConcatNoSeparator(fs);
  }

  /** Every name given to an item is a valid identifier body: no separator survives. */
  lemma NameToVarHasNoSeparator(t: Menu, recursive: bool, x: Item)
    ensures NoSeparator(NameToVar(t, recursive, Some(x)))
  {
    var path := PathIn(t.children, x.id);
    NameFromVariableHasNoSeparator(x.name);
    if recursive && |path| > 1 {
      FragmentsHaveNoSeparator(path[..|path| - 1]);
      NoSeparatorAppend(Concat(Fragments(path[..|path| - 1])), NameFromVariable(x.name));
    }
  }

  lemma NoSeparatorAppend(a: string, b: string)
    requires NoSeparator(a) && NoSeparator(b)
    ensures NoSeparator(a + b)
  {
    forall k | 0 <= k < |a + b| ensures !IsSeparator((a + b)[k]) {
      if k >= |a| { assert (a + b)[k] == b[k - |a|]; }
    }
  }

  lemma {:induction false} ConcatFragmentsSnoc(items: seq<Item>, x: Item)
    ensures Concat(Fragments(items + [x])) == Concat(Fragments(items)) + NameFromVariable(x.name)
  {
    var l, r := Fragments(items + [x]), Fragments(items) + [NameFromVariable(x.name)];
    assert |l| == |r|;
    forall k | 0 <= k < |l| ensures l[k] == r[k] {
      if k < |items| { assert (items + [x])[k] == items[k]; }
    }
    assert l == r;
    assert Concat([NameFromVariable(x.name)]) == NameFromVariable(x.name) + Concat([]);
    ConcatAppend(Fragments(items), [NameFromVariable(x.name)]);
  }

  /**
   * With recursive naming, the item at depth k of a path is named by the
   * fragments of the path down to it: ancestors first, ROOT excluded.
   */
  lemma NameToVarAlongPath(t: Menu, id: Id, k: nat)
    requires WellFormed(t)
    requires k < |PathIn(t.children, id)|
    ensures var p := PathIn(t.children, id);
      NameToVar(t, true, Some(p[k])) == Concat(Fragments(p[..k + 1]))
  {
    var p := PathIn(t.children, id);
    UniqueIdsSplit([t.item], Items(t.children));
    PathPrefix(t.children, id, k);
    assert p[..k + 1][k] == p[k];
    NameToVarOfPath(t, p[k], p[..k + 1]);
  }

  /** With recursive naming, an item is named by the fragments of its whole path. */
  lemma NameToVarOfPath(t: Menu, x: Item, path: seq<Item>)
    requires path == PathIn(t.children, x.id) && |path| >= 1 && path[|path| - 1] == x
    ensures NameToVar(t, true, Some(x)) == Concat(Fragments(path))
  {
    var front := path[..|path| - 1];
    assert path == front + [x];
    ConcatFragmentsSnoc(front, x);
    if |path| == 1 {
      assert Fragments(front) == [];
    }
  }

  /** A child of ROOT is named by its own fragment whether or not naming is recursive. */
  lemma NameToVarTopLevel(t: Menu, recursive: bool, k: nat)
    requires WellFormed(t)
    requires k < |t.children|
    ensures NameToVar(t, recursive, Some(t.children[k].item)) == NameFromVariable(t.children[k].item.name)
  {
    UniqueIdsSplit([t.item], Items(t.children));
    TopLevelPath(t.children, k);
  }

  lemma {:induction false} TopLevelPath(f: seq<Menu>, k: nat)
    requires UniqueIds(Items(f))
    requires k < |f|
    ensures PathIn(f, f[k].item.id) == [f[k].item]
    decreases f
  {
    if k > 0 {
      UniqueForest(f);
      assert f[1..][k - 1] == f[k];
      TopLevelPath(f[1..], k - 1);
      PathInFound(f[1..], f[k].item.id);
      assert HasId(f[1..], f[k].item.id);
      assert f[0].item.id != f[k].item.id;
    }
  }
}
