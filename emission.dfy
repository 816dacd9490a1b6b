/**
 * The text generateHeaders and generateSource assemble around the menu
 * structs: the callback header lines, and the struct definitions with each
 * callback's source scaffolding placed just before the first struct of its
 * item.
 */
module Emission {
  import opened Sequences
  import opened MenuTree
  import opened Structures
  import opened Callbacks

  /** LINE_BREAK, the platform line separator, fixed to a newline here. */
  const LineBreak: string := "\n"

  /** CallbackRequirement.generateHeader, supplied from outside the model. */
  type HeaderOf = CallbackRequirement -> string

  /** CallbackRequirement.generateSource, supplied from outside the model. */
  type SourceOf = CallbackRequirement -> seq<string>

  /** CodeVariableExtractor.mapStructSource, supplied from outside the model. */
  type StructSourceOf = StructInit -> string

  /** The header lines written for a list of requirements: every non-empty header, in order. */
  function HeaderLines(cs: seq<CallbackRequirement>, header: HeaderOf): seq<string>
  {
    if cs == [] then []
    else
      HeaderLines(cs[..|cs| - 1], header)
      + (if header(cs[|cs| - 1]) != "" then [header(cs[|cs| - 1]) + LineBreak] else [])
  }

  /** The header-writing loop of generateHeaders. */
  method WriteCallbackHeaders(sorted: seq<CallbackRequirement>, header: HeaderOf) returns (out: string)
    ensures out == Concat(HeaderLines(sorted, header))
  {
    out := "";
    for i := 0 to |sorted|
      invariant out == Concat(HeaderLines(sorted[..i], header))
    {
      var h := header(sorted[i]);
      assert sorted[..i + 1][..i] == sorted[..i] && sorted[..i + 1][i] == sorted[i];
      assert HeaderLines(sorted[..i + 1], header)
          == HeaderLines(sorted[..i], header) + (if h != "" then [h + LineBreak] else []);
      if h != "" {
        ConcatSnoc(HeaderLines(sorted[..i], header), h + LineBreak);
        out := out + (h + LineBreak);
      } else {
        assert HeaderLines(sorted[..i], header) + [] == HeaderLines(sorted[..i], header);
      }
    }
    assert sorted[..|sorted|] == sorted;
  }

  /**
   * new ArrayList<>(allCallbacks.values()): every value of the map, taken in
   * the map's iteration order, which is left open here.
   */
  method ValuesOf(callbacks: map<Id, CallbackRequirement>) returns (list: seq<CallbackRequirement>)
    ensures |list| == |callbacks|
    ensures forall c :: c in list <==> c in callbacks.Values
    ensures KeyedByItem(callbacks) ==> DistinctItems(list)
  {
    list := [];
    var rest := callbacks.Keys;
    ghost var done: set<Id> := {};
    while rest != {}
      invariant ValuesSoFar(callbacks, rest, list, done)
      decreases |rest|
    {
      var id :| id in rest;
      ValuesStep(callbacks, rest, list, done, id);
      list := list + [callbacks[id]];
      rest := rest - {id};
      done := done + {id};
    }
    ValuesDone(callbacks, list, done);
  }

  /** `list` holds the values of the keys in `done`, one for each; `rest` holds the other keys. */
  ghost predicate ValuesSoFar(callbacks: map<Id, CallbackRequirement>, rest: set<Id>,
                              list: seq<CallbackRequirement>, done: set<Id>)
  {
    && rest !! done && rest + done == callbacks.Keys
    && |list| == |done|
    && (forall c :: c in list ==> c in callbacks.Values)
    && (forall id :: id in done ==> callbacks[id] in list)
    && (KeyedByItem(callbacks) ==>
          DistinctItems(list) && forall j :: 0 <= j < |list| ==> list[j].item.id in done)
  }

  lemma ValuesStep(callbacks: map<Id, CallbackRequirement>, rest: set<Id>,
                   list: seq<CallbackRequirement>, done: set<Id>, id: Id)
    requires ValuesSoFar(callbacks, rest, list, done) && id in rest
    ensures ValuesSoFar(callbacks, rest - {id}, list + [callbacks[id]], done + {id})
    ensures |rest - {id}| < |rest|
  {
    if KeyedByItem(callbacks) {
      DistinctSnoc(list, callbacks[id], done);
    }
  }

  lemma ValuesDone(callbacks: map<Id, CallbackRequirement>, list: seq<CallbackRequirement>, done: set<Id>)
    requires ValuesSoFar(callbacks, {}, list, done)
    ensures |list| == |callbacks|
    ensures forall c :: c in list <==> c in callbacks.Values
    ensures KeyedByItem(callbacks) ==> DistinctItems(list)
  {
    assert done == callbacks.Keys;
    forall c | c in callbacks.Values ensures c in list {
      var id :| id in callbacks && callbacks[id] == c;
    }
  }

  /** Appending a requirement whose item is not among those met keeps the items distinct. */
  lemma DistinctSnoc(list: seq<CallbackRequirement>, x: CallbackRequirement, done: set<Id>)
    requires DistinctItems(list) && x.item.id !in done
    requires forall j :: 0 <= j < |list| ==> list[j].item.id in done
    ensures DistinctItems(list + [x])
    ensures forall j :: 0 <= j < |list + [x]| ==> (list + [x])[j].item.id in done + {x.item.id}
  {
  }

  /**
   * The callback part of generateHeaders: the map's values, sorted with the
   * header comparator, and the header lines written for them in that order.
   */
  method GenerateCallbackHeaders(callbacks: map<Id, CallbackRequirement>, header: HeaderOf)
    returns (sorted: seq<CallbackRequirement>, out: string)
    ensures Sorted(sorted)
    ensures |sorted| == |callbacks|
    ensures forall c :: c in sorted <==> c in callbacks.Values
    ensures KeyedByItem(callbacks) ==> DistinctItems(sorted)
    ensures out == Concat(HeaderLines(sorted, header))
  {
    var list := ValuesOf(callbacks);
    sorted := SortCallbacks(list);
    SortCallbacksSorted(list);
    forall c ensures c in sorted <==> c in list {
      assert c in sorted <==> c in multiset(sorted);
      assert c in list <==> c in multiset(list);
    }
    if KeyedByItem(callbacks) {
      DistinctItemsOfPermutation(list, sorted);
    }
    out := WriteCallbackHeaders(sorted, header);
  }

  /** The source scaffolding of one callback: its lines joined, then a line break; nothing if it has none. */
  function CallbackBlock(cb: CallbackRequirement, source: SourceOf): string
  {
    var src := source(cb);
    if src == [] then "" else Join(LineBreak, src) + LineBreak
  }

  /** No struct before index `k` is for the same item. */
  predicate FirstOfItem(structs: seq<StructInit>, k: nat)
    requires k < |structs|
  {
    forall j :: 0 <= j < k ==> structs[j].item.id != structs[k].item.id
  }

  /** Struct `k` is preceded by its item's callback scaffolding. */
  predicate CarriesCallback(structs: seq<StructInit>, cbs: map<Id, CallbackRequirement>, k: nat)
    requires k < |structs|
  {
    structs[k].item.id in cbs && FirstOfItem(structs, k)
  }

  /** What is written for struct `k`: its callback block when it carries one, then its source line. */
  function Declaration(structs: seq<StructInit>, cbs: map<Id, CallbackRequirement>,
                       source: SourceOf, structSource: StructSourceOf, k: nat): string
    requires k < |structs|
  {
    (if CarriesCallback(structs, cbs, k) then CallbackBlock(cbs[structs[k].item.id], source) else "")
    + structSource(structs[k]) + LineBreak
  }

  function Declarations(structs: seq<StructInit>, cbs: map<Id, CallbackRequirement>,
                        source: SourceOf, structSource: StructSourceOf): (r: seq<string>)
    ensures |r| == |structs|
    ensures forall k :: 0 <= k < |structs| ==> r[k] == Declaration(structs, cbs, source, structSource, k)
  {
    seq(|structs|, k requires 0 <= k < |structs| => Declaration(structs, cbs, source, structSource, k))
  }

  /** The items met before index `i`. */
  ghost function IdsBefore(structs: seq<StructInit>, i: nat): set<Id>
    requires i <= |structs|
  {
    set j | 0 <= j < i :: structs[j].item.id
  }

  lemma IdsBeforeStep(structs: seq<StructInit>, i: nat)
    requires i < |structs|
    ensures IdsBefore(structs, i + 1) == IdsBefore(structs, i) + {structs[i].item.id}
    ensures FirstOfItem(structs, i) <==> structs[i].item.id !in IdsBefore(structs, i)
  {
    assert structs[i].item.id in IdsBefore(structs, i + 1);
    if !FirstOfItem(structs, i) {
      var j :| 0 <= j < i && structs[j].item.id == structs[i].item.id;
      assert structs[i].item.id in IdsBefore(structs, i);
    }
  }

  /**
   * The menu item declaration loop of generateSource: each struct's source
   * follows its item's callback scaffolding, taken out of a local copy of
   * the callback map the first time the item is met.
   */
  method MenuItemDeclarations(structs: seq<StructInit>, cbs: map<Id, CallbackRequirement>,
                              source: SourceOf, structSource: StructSourceOf) returns (out: string)
    ensures out == Concat(Declarations(structs, cbs, source, structSource))
  {
    var local := cbs;
    out := "";
    ghost var all := Declarations(structs, cbs, source, structSource);
    for i := 0 to |structs|
      invariant local == cbs - IdsBefore(structs, i)
      invariant out == Concat(all[..i])
    {
      var s := structs[i];
      var piece := "";
      LocalCallbacksStep(structs, cbs, local, i);
      if s.item.id in local {
        var cb := local[s.item.id];
        local := local - {s.item.id};
        var src := source(cb);
        if src != [] {
          piece := Join(LineBreak, src) + LineBreak;
        }
      }
      DeclarationsStep(all, i);
      out := out + (piece + structSource(s) + LineBreak);
    }
    assert all[..|structs|] == all;
  }

  /**
   * The local copy of the callback map holds the item of struct `i` exactly
   * when the struct carries its callback, with the same requirement, and
   * after removing it the copy is right for the next struct.
   */
  lemma LocalCallbacksStep(structs: seq<StructInit>, cbs: map<Id, CallbackRequirement>,
                           local: map<Id, CallbackRequirement>, i: nat)
    requires i < |structs| && local == cbs - IdsBefore(structs, i)
    ensures structs[i].item.id in local <==> CarriesCallback(structs, cbs, i)
    ensures structs[i].item.id in local ==> local[structs[i].item.id] == cbs[structs[i].item.id]
    ensures (if structs[i].item.id in local then local - {structs[i].item.id} else local)
         == cbs - IdsBefore(structs, i + 1)
  {
    IdsBeforeStep(structs, i);
  }

  lemma DeclarationsStep(all: seq<string>, i: nat)
    requires i < |all|
    ensures Concat(all[..i + 1]) == Concat(all[..i]) + all[i]
  {
    assert all[..i + 1] == all[..i] + [all[i]];
    ConcatSnoc(all[..i], all[i]);
  }

  // ---------------------------------------------------------------------
  // Lemmas

  /**
   * Every header line is a non-empty header followed by a line break, and
   * every non-empty header gets its line.
   */
  lemma {:induction false} HeaderLinesAreNonEmptyHeaders(cs: seq<CallbackRequirement>, header: HeaderOf)
    ensures forall line :: line in HeaderLines(cs, header) <==>
      exists c :: c in cs && header(c) != "" && line == header(c) + LineBreak
  {
    if cs != [] {
      var init, last := cs[..|cs| - 1], cs[|cs| - 1];
      HeaderLinesAreNonEmptyHeaders(init, header);
      assert cs == init + [last];
      forall line ensures line in HeaderLines(cs, header) <==>
        exists c :: c in cs && header(c) != "" && line == header(c) + LineBreak
      {
        if exists c :: c in cs && header(c) != "" && line == header(c) + LineBreak {
          var c :| c in cs && header(c) != "" && line == header(c) + LineBreak;
          if c != last { assert c in init; }
        }
      }
    }
  }

  /** The positions below `n` whose header is not empty. */
  ghost function NonEmptyHeaders(cs: seq<CallbackRequirement>, header: HeaderOf, n: nat): set<nat>
    requires n <= |cs|
  {
    set k | 0 <= k < n && header(cs[k]) != ""
  }

  lemma {:induction false} HeaderLinesCountUpTo(cs: seq<CallbackRequirement>, header: HeaderOf, n: nat)
    requires n <= |cs|
    ensures |HeaderLines(cs[..n], header)| == |NonEmptyHeaders(cs, header, n)|
  {
    if n > 0 {
      HeaderLinesCountUpTo(cs, header, n - 1);
      assert cs[..n][..n - 1] == cs[..n - 1];
      assert cs[..n][n - 1] == cs[n - 1];
      if header(cs[n - 1]) != "" {
        assert NonEmptyHeaders(cs, header, n) == NonEmptyHeaders(cs, header, n - 1) + {n - 1};
      } else {
        assert NonEmptyHeaders(cs, header, n) == NonEmptyHeaders(cs, header, n - 1);
      }
    }
  }

  /** The number of header lines is the number of non-empty headers. */
  lemma HeaderLinesCount(cs: seq<CallbackRequirement>, header: HeaderOf)
    ensures |HeaderLines(cs, header)| == |set k | 0 <= k < |cs| && header(cs[k]) != ""|
  {
    HeaderLinesCountUpTo(cs, header, |cs|);
    assert cs[..|cs|] == cs;
  }

  /**
   * Each callback's scaffolding is written exactly once when some struct is
   * for its item — before the first such struct — and never otherwise.
   */
  lemma CallbackWrittenOnce(structs: seq<StructInit>, cbs: map<Id, CallbackRequirement>, id: Id)
    requires id in cbs
    ensures forall j, k ::
      (0 <= j < |structs| && 0 <= k < |structs|
       && structs[j].item.id == id && structs[k].item.id == id
       && CarriesCallback(structs, cbs, j) && CarriesCallback(structs, cbs, k)) ==> j == k
    ensures (exists k :: 0 <= k < |structs| && structs[k].item.id == id)
      ==> exists k :: 0 <= k < |structs| && structs[k].item.id == id && CarriesCallback(structs, cbs, k)
  {
    if exists k :: 0 <= k < |structs| && structs[k].item.id == id {
      var k := FirstIndexOf(structs, id);
      assert CarriesCallback(structs, cbs, k);
    }
  }

  /** The first index of a struct for item `id`. */
  function FirstIndexOf(structs: seq<StructInit>, id: Id): (k: nat)
    requires exists k :: 0 <= k < |structs| && structs[k].item.id == id
    ensures k < |structs| && structs[k].item.id == id
    ensures forall j :: 0 <= j < k ==> structs[j].item.id != id
  {
    if structs[0].item.id == id then 0
    else
      var k' :| 0 <= k' < |structs| && structs[k'].item.id == id;
      assert structs[1..][k' - 1] == structs[k'];
      1 + FirstIndexOf(structs[1..], id)
  }
}
