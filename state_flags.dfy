/**
 * The set-up calls generateReadOnlyLocal produces: one call per item and per
 * state flag it has, in four blocks (read-only, local-only, secured
 * sub-menu, invisible).
 */
module StateFlags {
  import opened MenuTree
  import opened Structures

  /** FunctionCallBuilder: a call of `functionName` on `objectName` with `params`. */
  datatype FunctionCall = FunctionCall(functionName: string, objectName: string, params: seq<string>)

  /** The four flags, in the order their blocks are emitted. */
  datatype StateFlag = ReadOnly | LocalOnly | Secured | Invisible

  /** Whether an item has a flag set; only a sub-menu can be secured. */
  predicate HasFlag(i: Item, f: StateFlag)
  {
    match f
    case ReadOnly => i.readOnly
    case LocalOnly => i.localOnly
    case Secured => i.subMenu && i.secured
    case Invisible => !i.visible
  }

  function FlagFunction(f: StateFlag): string
  {
    match f
    case ReadOnly => "setReadOnly"
    case LocalOnly => "setLocalOnly"
    case Secured => "setSecured"
    case Invisible => "setVisible"
  }

  function FlagArgument(f: StateFlag): string
  {
    if f == Invisible then "false" else "true"
  }

  /** The call made for one item and one flag. */
  function FlagCall(name: Namer, i: Item, f: StateFlag): FunctionCall
  {
    FunctionCall(FlagFunction(f), "menu" + name(i), [FlagArgument(f)])
  }

  /** The items with a flag set, in order. */
  function Flagged(items: seq<Item>, f: StateFlag): (r: seq<Item>)
    ensures forall k :: 0 <= k < |r| ==> HasFlag(r[k], f)
  {
    if items == [] then []
    else (if HasFlag(items[0], f) then [items[0]] else []) + Flagged(items[1..], f)
  }

  /** One block: a call for every item with the flag. */
  function FlagCalls(name: Namer, items: seq<Item>, f: StateFlag): (r: seq<FunctionCall>)
    ensures |r| == |Flagged(items, f)|
    ensures forall k :: 0 <= k < |r| ==> r[k] == FlagCall(name, Flagged(items, f)[k], f)
  {
    var fl := Flagged(items, f);
    seq(|fl|, k requires 0 <= k < |fl| => FlagCall(name, fl[k], f))
  }

  /** generateReadOnlyLocal: the four blocks, in emission order. */
  function StateCalls(name: Namer, items: seq<Item>): seq<FunctionCall>
  {
    FlagCalls(name, items, ReadOnly) + FlagCalls(name, items, LocalOnly)
    + FlagCalls(name, items, Secured) + FlagCalls(name, items, Invisible)
  }

  // ---------------------------------------------------------------------
  // Lemmas

  /** An item is in a block as often as it is in the list when it has the flag, and never otherwise. */
  lemma {:induction false} FlaggedCount(items: seq<Item>, f: StateFlag, x: Item)
    ensures multiset(Flagged(items, f))[x] == if HasFlag(x, f) then multiset(items)[x] else 0
  {
    if items != [] {
      FlaggedCount(items[1..], f, x);
      assert items == [items[0]] + items[1..];
    }
  }

  /** Each call names the flag's function and argument, on the item's menu variable. */
  lemma FlagCallShape(name: Namer, items: seq<Item>, f: StateFlag, k: nat)
    requires k < |FlagCalls(name, items, f)|
    ensures var c := FlagCalls(name, items, f)[k];
      c.functionName == FlagFunction(f) && c.params == [FlagArgument(f)]
      && c.objectName == "menu" + name(Flagged(items, f)[k])
      && HasFlag(Flagged(items, f)[k], f)
  {
  }

  /**
   * The blocks come in the fixed order: a call of an earlier flag never
   * follows a call of a later flag.
   */
  lemma StateCallsInBlockOrder(name: Namer, items: seq<Item>, j: nat, k: nat)
    requires j < k < |StateCalls(name, items)|
    ensures BlockIndex(StateCalls(name, items)[j].functionName) <= BlockIndex(StateCalls(name, items)[k].functionName)
  {
    var a, b, c, d := FlagCalls(name, items, ReadOnly), FlagCalls(name, items, LocalOnly),
                      FlagCalls(name, items, Secured), FlagCalls(name, items, Invisible);
    var s := StateCalls(name, items);
    assert s == a + b + c + d;
    assert forall m :: 0 <= m < |s| ==> (BlockIndex(s[m].functionName) ==
      if m < |a| then 0 else if m < |a| + |b| then 1 else if m < |a| + |b| + |c| then 2 else 3);
  }

  /** Appending an item to the list appends its call to the block when it has the flag. */
  lemma {:induction false} FlaggedSnoc(a: seq<Item>, x: Item, f: StateFlag)
    ensures Flagged(a + [x], f) == Flagged(a, f) + (if HasFlag(x, f) then [x] else [])
  {
    if a == [] {
      assert [x][1..] == [];
    } else {
      assert (a + [x])[0] == a[0];
      assert (a + [x])[1..] == a[1..] + [x];
      FlaggedSnoc(a[1..], x, f);
    }
  }

  lemma FlagCallsSnoc(name: Namer, a: seq<Item>, x: Item, f: StateFlag)
    ensures FlagCalls(name, a + [x], f)
         == FlagCalls(name, a, f) + (if HasFlag(x, f) then [FlagCall(name, x, f)] else [])
  {
    FlaggedSnoc(a, x, f);
    var l := FlagCalls(name, a + [x], f);
    var r := FlagCalls(name, a, f) + (if HasFlag(x, f) then [FlagCall(name, x, f)] else []);
    assert |l| == |r|;
    forall k | 0 <= k < |l| ensures l[k] == r[k] {
      if k < |Flagged(a, f)| {
        assert Flagged(a + [x], f)[k] == Flagged(a, f)[k];
      }
    }
  }

  /** The position of a flag function's block. */
  function BlockIndex(functionName: string): nat
  {
    if functionName == "setReadOnly" then 0
    else if functionName == "setLocalOnly" then 1
    else if functionName == "setSecured" then 2
    else 3
  }

  /**
   * A read-only, local-only item that is visible and not a secured sub-menu
   * gets exactly two calls: setReadOnly(true) then setLocalOnly(true).
   */
  lemma ReadOnlyLocalOnlyItem(name: Namer, x: Item)
    requires x.readOnly && x.localOnly && x.visible && !(x.subMenu && x.secured)
    ensures StateCalls(name, [x]) == [
      FunctionCall("setReadOnly", "menu" + name(x), ["true"]),
      FunctionCall("setLocalOnly", "menu" + name(x), ["true"])]
  {
    assert [x][1..] == [];
    assert Flagged([x], ReadOnly) == [x];
    assert Flagged([x], LocalOnly) == [x];
    assert Flagged([x], Secured) == [];
    assert Flagged([x], Invisible) == [];
  }
}
