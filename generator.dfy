/**
 * ArduinoGenerator: the code generator object. startConversion stores the
 * menu tree and the previously provisioned plugin files in its fields; the
 * naming, linearisation, state-flag and plugin-removal steps then read them.
 */
module Generator {
  import opened Wrappers
  import opened Sequences
  import opened Naming
  import opened MenuTree
  import opened VariableNames
  import opened Structures
  import opened StateFlags
  import opened Paths
  import opened Plugins

  class ArduinoGenerator {
    /** The tree being converted; set by startConversion. */
    var menuTree: Menu
    /** The plugin files the previous run provisioned; set by startConversion. */
    var previousPluginFiles: seq<string>
    /** CodeGeneratorOptions.isNamingRecursive. */
    const namingRecursive: bool

    /** A generator before any conversion: an empty tree and no previous plugin files. */
    constructor(namingRecursive: bool)
      ensures this.namingRecursive == namingRecursive
      ensures menuTree == Node(Root, []) && previousPluginFiles == []
    {
      this.namingRecursive := namingRecursive;
      menuTree := Node(Root, []);
      previousPluginFiles := [];
    }

    /**
     * makeNameToVar: "NULL" for no item; the item's own fragment when naming
     * is flat or the item has no parent other than ROOT; otherwise the
     * fragments collected while climbing the parents up to ROOT, reversed
     * and joined.
     */
    method MakeNameToVar(item: Option<Item>) returns (r: string)
      requires WellFormed(menuTree)
      ensures r == NameToVar(menuTree, namingRecursive, item)
    {
      if item.None? {
        return "NULL";
      }
      var x := item.value;
      var parent := FindParent(menuTree, x);
      if !namingRecursive || parent.None? || parent.value.id == RootId {
        NameToVarCases(menuTree, namingRecursive, x);
        return NameFromVariable(x.name);
      }
      DeepItem(menuTree, x);
      // The climb visits the path from the item upwards, the item itself first.
      ghost var p := PathIn(menuTree.children, x.id);
      ghost var q := p[..|p| - 1] + [x];
      ClimbChainOf(menuTree, x, q);
      var items := CollectFragments(x, q);
      ClimbFragmentsReversed(q, 0);
      assert q[0..] == q;
      NameToVarCases(menuTree, namingRecursive, x);
      items := Reverse(items);
      r := Concat(items);
    }

    /**
     * The climb of makeNameToVar: from the item through its parents up to
     * ROOT, the fragment of every item visited, the item's own first.
     */
    method CollectFragments(x: Item, ghost q: seq<Item>) returns (items: seq<string>)
      requires |q| > 0 && q[|q| - 1] == x && ClimbChain(menuTree, q)
      ensures items == ClimbFragments(q, 0)
    {
      ghost var j: nat := |q|;
      items := [];
      var par: Option<Item> := Some(x);
      while par.Some? && par.value.id != RootId
        invariant j <= |q|
        invariant par == if j > 0 then Some(q[j - 1]) else Some(Root)
        invariant items == ClimbFragments(q, j)
        decreases j
      {
        var fragment := NameFromVariable(par.value.name);
        ClimbChainAt(menuTree, q, j - 1);
        assert ClimbFragments(q, j - 1) == items + [fragment];
        items := items + [fragment];
        par := FindParent(menuTree, par.value);
        j := j - 1;
      }
    }

    /** makeRtFunctionName: the item's variable name between "fn" and "RtCall". */
    method MakeRtFunctionName(item: Option<Item>) returns (r: string)
      requires WellFormed(menuTree)
      ensures r == RtFunctionName(menuTree, namingRecursive, item)
    {
      var v := MakeNameToVar(item);
      r := "fn" + v + "RtCall";
    }

    /**
     * getFirstMenuVariable: "menu" and the name of ROOT's first child, which
     * is that child's own fragment in either naming mode; "" for an empty menu.
     */
    method GetFirstMenuVariable() returns (r: string)
      requires WellFormed(menuTree)
      ensures menuTree.children == [] ==> r == ""
      ensures menuTree.children != [] ==> r == "menu" + NameFromVariable(menuTree.children[0].item.name)
    {
      if menuTree.children == [] {
        r := "";
      } else {
        var v := MakeNameToVar(Some(menuTree.children[0].item));
        NameToVarTopLevel(menuTree, namingRecursive, 0);
        r := "menu" + v;
      }
    }

    /**
     * renderMenu: for each sibling its group, built from its name and the
     * name of the next sibling ("NULL" for the last), and for a sub-menu the
     * name of its first child ("NULL" when it has none) followed by the
     * groups of its children.
     */
    method RenderMenu(items: seq<Menu>, gen: StructGenerator) returns (groups: seq<seq<StructInit>>)
      requires WellFormed(menuTree)
      ensures groups == Groups(gen, LinksFrom(NamerOf(menuTree, namingRecursive), items, 0))
      decreases items
    {
      ghost var name := NamerOf(menuTree, namingRecursive);
      ghost var links: seq<Link> := [];
      groups := [];
      for i := 0 to |items|
        invariant links + LinksFrom(name, items, i) == LinksFrom(name, items, 0)
        invariant groups == Groups(gen, links)
      {
        var link := MakeLink(items, i);
        var sub: seq<seq<StructInit>> := [];
        ghost var subLinks: seq<Link> := [];
        if items[i].item.subMenu {
          sub := RenderMenu(items[i].children, gen);
          subLinks := LinksFrom(name, items[i].children, 0);
        }
        RenderStep(name, gen, items, i, links, link, subLinks, groups, sub);
        groups := groups + [gen(link)] + sub;
        links := links + [link] + subLinks;
      }
      assert LinksFrom(name, items, |items|) == [];
      assert links == LinksFrom(name, items, 0);
    }

    /**
     * The generator renderMenu builds for sibling `i`: the item's variable
     * name, the next sibling's (NULL after the last) and, for a sub-menu, the
     * first child's (NULL when it has none).
     */
    method MakeLink(items: seq<Menu>, i: nat) returns (link: Link)
      requires WellFormed(menuTree)
      requires i < |items|
      ensures link == LinkAt(NamerOf(menuTree, namingRecursive), items, i)
    {
      var own := MakeNameToVar(Some(items[i].item));
      var next := NullName;
      if i + 1 < |items| {
        next := MakeNameToVar(Some(items[i + 1].item));
      }
      if items[i].item.subMenu {
        var childItems := items[i].children;
        var nextChild := NullName;
        if childItems != [] {
          nextChild := MakeNameToVar(Some(childItems[0].item));
        }
        link := Link(items[i].item, own, next, Some(nextChild));
      } else {
        link := Link(items[i].item, own, next, None);
      }
    }

    /** generateMenusInOrder: renderMenu from ROOT's children, the groups reversed, then flattened. */
    method GenerateMenusInOrder(gen: StructGenerator) returns (structs: seq<StructInit>)
      requires WellFormed(menuTree)
      ensures structs == MenusInOrder(menuTree, namingRecursive, gen)
    {
      var itemsInOrder := RenderMenu(menuTree.children, gen);
      itemsInOrder := Reverse(itemsInOrder);
      structs := Flatten(itemsInOrder);
    }

    /** One pass of generateReadOnlyLocal: a call for every item with the flag, in item order. */
    method FlagPass(items: seq<Item>, f: StateFlag) returns (calls: seq<FunctionCall>)
      requires WellFormed(menuTree)
      ensures calls == FlagCalls(NamerOf(menuTree, namingRecursive), items, f)
    {
      ghost var name := NamerOf(menuTree, namingRecursive);
      calls := [];
      for i := 0 to |items|
        invariant calls == FlagCalls(name, items[..i], f)
      {
        if HasFlag(items[i], f) {
          var v := MakeNameToVar(Some(items[i]));
          calls := calls + [FunctionCall(FlagFunction(f), "menu" + v, [FlagArgument(f)])];
        }
        FlagCallsSnoc(name, items[..i], items[i], f);
        assert items[..i + 1] == items[..i] + [items[i]];
      }
      assert items[..|items|] == items;
    }

    /** generateReadOnlyLocal: the read-only, local-only, secured and invisible passes over every item. */
    method GenerateReadOnlyLocal() returns (calls: seq<FunctionCall>)
      requires WellFormed(menuTree)
      ensures calls == StateCalls(NamerOf(menuTree, namingRecursive), AllItems(menuTree))
    {
      var all := AllItems(menuTree);
      var readOnly := FlagPass(all, ReadOnly);
      var localOnly := FlagPass(all, LocalOnly);
      var secured := FlagPass(all, Secured);
      var invisible := FlagPass(all, Invisible);
      calls := readOnly + localOnly + secured + invisible;
    }

    /**
     * The removal loop of dealWithRequiredPlugins: each previous plugin file
     * not in `required` is resolved by its base name inside `directory` and
     * deleted when it exists; a failed delete is skipped, and an entry with no
     * base name stops the loop.
     */
    method RemoveUnusedPlugins(required: set<string>, directory: Path, existing: set<Path>, undeletable: set<Path>)
      returns (deleted: seq<Path>, remaining: set<Path>, completed: bool)
      ensures Removal(deleted, remaining, completed)
           == RemoveFrom(previousPluginFiles, required, directory, existing, undeletable)
    {
      var previous := previousPluginFiles;
      deleted, remaining, completed := [], existing, true;
      for i := 0 to |previous|
        invariant RemoveFrom(previous, required, directory, existing, undeletable)
          == Removal(deleted + RemoveFrom(previous[i..], required, directory, remaining, undeletable).deleted,
                     RemoveFrom(previous[i..], required, directory, remaining, undeletable).remaining,
                     RemoveFrom(previous[i..], required, directory, remaining, undeletable).completed)
      {
        var plugin := previous[i];
        assert previous[i..][0] == plugin && previous[i..][1..] == previous[i + 1..];
        if plugin !in required {
          var base := FileName(ParsePath(plugin));
          if base.None? {
            completed := false;
            assert deleted + [] == deleted;
            return;
          }
          var actual := Resolve(directory, base.value);
          if actual in remaining && actual !in undeletable {
            ghost var tail := RemoveFrom(previous[i + 1..], required, directory, remaining - {actual}, undeletable);
            assert deleted + ([actual] + tail.deleted) == (deleted + [actual]) + tail.deleted;
            remaining := remaining - {actual};
            deleted := deleted + [actual];
          }
        }
      }
      assert previous[|previous|..] == [];
      assert deleted + [] == deleted;
    }

    /**
     * startConversion: stores the tree and the previous plugin files, then
     * names the three source files after the directory. A directory without
     * a file name fails there, before any output; otherwise the menu
     * structure is the structs in order followed by the identity record, and
     * the result is true.
     */
    method StartConversion(directory: Path, tree: Menu, appName: string, uuid: string,
                           previous: seq<string>, gen: StructGenerator)
      returns (result: Result<bool, string>, sourceFiles: seq<string>, menuStructure: seq<StructInit>)
      requires WellFormed(tree)
      modifies this
      ensures menuTree == tree && previousPluginFiles == previous
      ensures result.Failure? <==> directory.absolute && directory.names == []
      ensures result.Success? ==> result.value
      ensures result.Success? ==> sourceFiles == [ToSourceFile(directory, ".ino").value,
                                                  ToSourceFile(directory, "_menu.cpp").value,
                                                  ToSourceFile(directory, "_menu.h").value]
      ensures result.Success? ==> menuStructure == AddNameAndKey(MenusInOrder(tree, namingRecursive, gen), appName, uuid)
    {
      menuTree := tree;
      previousPluginFiles := previous;
      sourceFiles, menuStructure := [], [];
      var inoFile := ToSourceFile(directory, ".ino");
      if inoFile.Failure? {
        return Failure(inoFile.error), sourceFiles, menuStructure;
      }
      var cppFile := ToSourceFile(directory, "_menu.cpp");
      var headerFile := ToSourceFile(directory, "_menu.h");
      sourceFiles := [inoFile.value, cppFile.value, headerFile.value];
      var structs := GenerateMenusInOrder(gen);
      menuStructure := AddNameAndKey(structs, appName, uuid);
      result := Success(true);
    }
  }

  /**
   * The two cases of makeNameToVar: with flat naming, or a parent that is
   * missing or ROOT, the item's own fragment; otherwise the item lies at
   * depth two or more and its name joins the fragments of its path with the
   * item's own name last.
   */
  lemma NameToVarCases(t: Menu, recursive: bool, x: Item)
    requires WellFormed(t)
    ensures var p := PathIn(t.children, x.id);
      var parent := FindParent(t, x);
      if !recursive || parent.None? || parent.value.id == RootId then
        NameToVar(t, recursive, Some(x)) == NameFromVariable(x.name)
      else
        |p| >= 2 && NameToVar(t, recursive, Some(x)) == Concat(Fragments(p[..|p| - 1] + [x]))
  {
    var p := PathIn(t.children, x.id);
    ParentFromPath(t.children, Root, x.id);
    PathAvoidsRoot(t, x.id);
    if |p| >= 2 {
      ConcatFragmentsSnoc(p[..|p| - 1], x);
    }
  }

  /** No item the climb visits is ROOT. */
  lemma ClimbAvoidsRoot(t: Menu, x: Item, q: seq<Item>)
    requires WellFormed(t)
    requires |PathIn(t.children, x.id)| > 0
    requires q == PathIn(t.children, x.id)[..|PathIn(t.children, x.id)| - 1] + [x]
    ensures forall j :: 0 <= j < |q| ==> q[j].id != RootId
  {
    var p := PathIn(t.children, x.id);
    PathInFound(t.children, x.id);
    PathAvoidsRoot(t, x.id);
    forall j | 0 <= j < |q| ensures q[j].id != RootId {
      assert q[j].id == p[j].id;
    }
  }

  /**
   * The climb from the last item of `q`: no item of `q` is ROOT, and the
   * parent of each is the one before it, ROOT for the first.
   */
  ghost predicate ClimbChain(t: Menu, q: seq<Item>)
  {
    forall j :: 0 <= j < |q| ==>
      q[j].id != RootId && FindParent(t, q[j]) == if j == 0 then Some(Root) else Some(q[j - 1])
  }

  lemma ClimbChainAt(t: Menu, q: seq<Item>, j: nat)
    requires ClimbChain(t, q) && j < |q|
    ensures q[j].id != RootId
    ensures FindParent(t, q[j]) == if j == 0 then Some(Root) else Some(q[j - 1])
  {
  }

  lemma ClimbChainOf(t: Menu, x: Item, q: seq<Item>)
    requires WellFormed(t)
    requires |PathIn(t.children, x.id)| > 0
    requires q == PathIn(t.children, x.id)[..|PathIn(t.children, x.id)| - 1] + [x]
    ensures ClimbChain(t, q)
  {
    ClimbAvoidsRoot(t, x, q);
    forall j | 0 <= j < |q| ensures FindParent(t, q[j]) == if j == 0 then Some(Root) else Some(q[j - 1]) {
      ClimbStep(t, x, q, j);
    }
  }

  /** An item whose parent is neither missing nor ROOT lies at depth two or more. */
  lemma DeepItem(t: Menu, x: Item)
    requires WellFormed(t)
    requires FindParent(t, x).Some? && FindParent(t, x).value.id != RootId
    ensures |PathIn(t.children, x.id)| >= 2
  {
    ParentFromPath(t.children, Root, x.id);
  }

  /** The fragments the climb collects from index `j` of `q` up: q's last item's first, q[j]'s last. */
  ghost function ClimbFragments(q: seq<Item>, j: nat): seq<string>
    requires j <= |q|
    decreases |q| - j
  {
    if j == |q| then [] else ClimbFragments(q, j + 1) + [NameFromVariable(q[j].name)]
  }

  lemma {:induction false} ClimbFragmentsReversed(q: seq<Item>, j: nat)
    requires j <= |q|
    ensures Reverse(ClimbFragments(q, j)) == Fragments(q[j..])
    decreases |q| - j
  {
    if j < |q| {
      ClimbFragmentsReversed(q, j + 1);
      ReverseAppend(ClimbFragments(q, j + 1), [NameFromVariable(q[j].name)]);
      FragmentsCons(q, j);
    }
  }

  lemma FragmentsCons(q: seq<Item>, k: nat)
    requires k < |q|
    ensures Fragments(q[k..]) == [NameFromVariable(q[k].name)] + Fragments(q[k + 1..])
  {
    var l, r := Fragments(q[k..]), [NameFromVariable(q[k].name)] + Fragments(q[k + 1..]);
    assert |l| == |r|;
    forall j | 0 <= j < |l| ensures l[j] == r[j] {
      if j > 0 { assert q[k..][j] == q[k + 1..][j - 1]; }
    }
  }

  /**
   * One step of renderMenu: after sibling `i`, the links done gain its own
   * link and its children's, and the groups built gain their groups.
   */
  lemma RenderStep(name: Namer, gen: StructGenerator, items: seq<Menu>, i: nat, links: seq<Link>,
                   link: Link, subLinks: seq<Link>, groups: seq<seq<StructInit>>, sub: seq<seq<StructInit>>)
    requires i < |items| && link == LinkAt(name, items, i)
    requires subLinks == if items[i].item.subMenu then LinksFrom(name, items[i].children, 0) else []
    requires links + LinksFrom(name, items, i) == LinksFrom(name, items, 0)
    requires groups == Groups(gen, links) && sub == Groups(gen, subLinks)
    ensures links + [link] + subLinks + LinksFrom(name, items, i + 1) == LinksFrom(name, items, 0)
    ensures groups + [gen(link)] + sub == Groups(gen, links + [link] + subLinks)
  {
    LinksStep(name, items, i, subLinks);
    SpliceStep(links, link, subLinks, LinksFrom(name, items, i + 1));
    GroupsStep(gen, links, link, subLinks);
  }

  /** The links from sibling `i` on are its own, its children's, then the rest. */
  lemma LinksStep(name: Namer, items: seq<Menu>, i: nat, subLinks: seq<Link>)
    requires i < |items|
    requires subLinks == if items[i].item.subMenu then LinksFrom(name, items[i].children, 0) else []
    ensures LinksFrom(name, items, i) == [LinkAt(name, items, i)] + subLinks + LinksFrom(name, items, i + 1)
  {
  }

  /** Moving the step's own link and its children's links from the links still to come onto those done. */
  lemma SpliceStep<T>(done: seq<T>, x: T, sub: seq<T>, rest: seq<T>)
    ensures done + [x] + sub + rest == done + ([x] + sub + rest)
  {
  }

  /** The groups of the links done, after a step: their groups, the step's own group, then its children's. */
  lemma GroupsStep(gen: StructGenerator, done: seq<Link>, x: Link, sub: seq<Link>)
    ensures Groups(gen, done + [x] + sub) == Groups(gen, done) + [gen(x)] + Groups(gen, sub)
  {
    GroupsAppend(gen, done, [x]);
    GroupsAppend(gen, done + [x], sub);
    assert Groups(gen, [x]) == [gen(x)];
  }

  /**
   * One step of the climb in makeNameToVar: the parent of the k-th item on
   * the item's path (the item itself at the end) is the one before it, or
   * ROOT for the first.
   */
  lemma ClimbStep(t: Menu, x: Item, q: seq<Item>, k: nat)
    requires WellFormed(t)
    requires k < |PathIn(t.children, x.id)|
    requires q == PathIn(t.children, x.id)[..|PathIn(t.children, x.id)| - 1] + [x]
    ensures FindParent(t, q[k]) == if k == 0 then Some(Root) else Some(q[k - 1])
  {
    var p := PathIn(t.children, x.id);
    PathInFound(t.children, x.id);
    assert q[k].id == p[k].id;
    UniqueIdsSplit([t.item], Items(t.children));
    PathPrefix(t.children, x.id, k);
    ParentFromPath(t.children, t.item, p[k].id);
    if k > 0 {
      assert p[..k + 1][k - 1] == p[k - 1] == q[k - 1];
    }
  }

}
