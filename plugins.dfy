/**
 * The removal half of dealWithRequiredPlugins: every file provisioned by a
 * previous run whose recorded name is no longer required is deleted from the
 * project directory by its base name, when it exists. The file system is a
 * set of existing paths plus the set of paths whose deletion fails.
 */
module Plugins {
  import opened Wrappers
  import opened Paths

  /** The outcome of the removal loop: files deleted in order, files left, and whether the loop ran to the end. */
  datatype Removal = Removal(deleted: seq<Path>, remaining: set<Path>, completed: bool)

  /**
   * The removal loop over `previous`, from a file system holding `existing`.
   * An unrequired entry with no base name (the root directory) dereferences
   * null and ends the loop; a delete that fails is skipped.
   */
  function RemoveFrom(previous: seq<string>, required: set<string>, directory: Path,
                      existing: set<Path>, undeletable: set<Path>): Removal
  {
    if previous == [] then Removal([], existing, true)
    else if previous[0] in required then RemoveFrom(previous[1..], required, directory, existing, undeletable)
    else match FileName(ParsePath(previous[0]))
      case None => Removal([], existing, false)
      case Some(base) =>
        var actual := Resolve(directory, base);
        if actual in existing && actual !in undeletable then
          var rest := RemoveFrom(previous[1..], required, directory, existing - {actual}, undeletable);
          Removal([actual] + rest.deleted, rest.remaining, rest.completed)
        else RemoveFrom(previous[1..], required, directory, existing, undeletable)
  }

  /** Every unrequired entry has a base name, so the loop does not stop early. */
  predicate AllHaveNames(previous: seq<string>, required: set<string>)
  {
    forall k :: 0 <= k < |previous| && previous[k] !in required ==> FileName(ParsePath(previous[k])).Some?
  }

  /** The files the unrequired entries designate: each base name resolved inside the directory. */
  function Targets(previous: seq<string>, required: set<string>, directory: Path): set<Path>
  {
    if previous == [] then {}
    else
      (if previous[0] !in required && FileName(ParsePath(previous[0])).Some?
       then {Resolve(directory, FileName(ParsePath(previous[0])).value)} else {})
      + Targets(previous[1..], required, directory)
  }

  /**
   * Only existing, deletable files are deleted, each at most once, and the
   * files left are exactly the existing ones that were not deleted.
   */
  ghost predicate Accounts(r: Removal, existing: set<Path>, undeletable: set<Path>)
  {
    (forall a :: a in r.deleted ==> a in existing && a !in undeletable && a !in r.remaining)
    && (forall a :: a in existing <==> a in r.remaining || a in r.deleted)
    && (forall j, k :: 0 <= j < k < |r.deleted| ==> r.deleted[j] != r.deleted[k])
  }

  // ---------------------------------------------------------------------
  // Lemmas

  /** The loop runs to the end exactly when every unrequired entry has a base name. */
  lemma {:induction false} RemovalCompletes(previous: seq<string>, required: set<string>, directory: Path,
                                            existing: set<Path>, undeletable: set<Path>)
    ensures RemoveFrom(previous, required, directory, existing, undeletable).completed
        <==> AllHaveNames(previous, required)
  {
    if previous != [] {
      var p := previous[0];
      var rest := previous[1..];
      assert forall k :: 0 <= k < |rest| ==> rest[k] == previous[k + 1];
      assert AllHaveNames(previous, required) <==>
        (p !in required ==> FileName(ParsePath(p)).Some?) && AllHaveNames(rest, required) by {
        if AllHaveNames(previous, required) {
          forall k | 0 <= k < |rest| && rest[k] !in required
            ensures FileName(ParsePath(rest[k])).Some?
          {
            assert rest[k] == previous[k + 1];
          }
        }
        if (p !in required ==> FileName(ParsePath(p)).Some?) && AllHaveNames(rest, required) {
          forall k | 0 <= k < |previous| && previous[k] !in required
            ensures FileName(ParsePath(previous[k])).Some?
          {
            if k > 0 { assert previous[k] == rest[k - 1]; }
          }
        }
      }
      if p in required {
        RemovalCompletes(rest, required, directory, existing, undeletable);
      } else if FileName(ParsePath(p)).Some? {
        var actual := Resolve(directory, FileName(ParsePath(p)).value);
        RemovalCompletes(rest, required, directory, existing - {actual}, undeletable);
        RemovalCompletes(rest, required, directory, existing, undeletable);
      }
    }
  }

  /** The removal loop keeps the account of deleted and remaining files. */
  lemma {:induction false} RemovalAccounts(previous: seq<string>, required: set<string>, directory: Path,
                                           existing: set<Path>, undeletable: set<Path>)
    ensures Accounts(RemoveFrom(previous, required, directory, existing, undeletable), existing, undeletable)
  {
    if previous != [] {
      var p := previous[0];
      var rest := previous[1..];
      if p in required {
        RemovalAccounts(rest, required, directory, existing, undeletable);
      } else if FileName(ParsePath(p)).Some? {
        var actual := Resolve(directory, FileName(ParsePath(p)).value);
        if actual in existing && actual !in undeletable {
          RemovalAccounts(rest, required, directory, existing - {actual}, undeletable);
          var tail := RemoveFrom(rest, required, directory, existing - {actual}, undeletable);
          var r := RemoveFrom(previous, required, directory, existing, undeletable);
          assert r.deleted == [actual] + tail.deleted;
          forall j, k | 0 <= j < k < |r.deleted| ensures r.deleted[j] != r.deleted[k] {
            if j == 0 {
              assert r.deleted[k] == tail.deleted[k - 1];
              assert tail.deleted[k - 1] in tail.deleted;
            } else {
              assert r.deleted[j] == tail.deleted[j - 1];
            }
          }
        } else {
          RemovalAccounts(rest, required, directory, existing, undeletable);
        }
      }
    }
  }

  /**
   * When the loop runs to the end, the files left are the existing ones
   * minus the deletable targets of the unrequired entries.
   */
  lemma {:induction false} RemovalRemaining(previous: seq<string>, required: set<string>, directory: Path,
                                            existing: set<Path>, undeletable: set<Path>)
    requires AllHaveNames(previous, required)
    ensures RemoveFrom(previous, required, directory, existing, undeletable).remaining
        == existing - (Targets(previous, required, directory) - undeletable)
  {
    if previous != [] {
      var p := previous[0];
      var rest := previous[1..];
      assert AllHaveNames(rest, required) by {
        forall k | 0 <= k < |rest| && rest[k] !in required ensures FileName(ParsePath(rest[k])).Some? {
          assert rest[k] == previous[k + 1];
        }
      }
      var t := Targets(rest, required, directory);
      if p in required {
        RemovalRemaining(rest, required, directory, existing, undeletable);
      } else {
        assert previous[0] !in required;
        var actual := Resolve(directory, FileName(ParsePath(p)).value);
        assert Targets(previous, required, directory) == {actual} + t;
        if actual in existing && actual !in undeletable {
          RemovalRemaining(rest, required, directory, existing - {actual}, undeletable);
        } else {
          RemovalRemaining(rest, required, directory, existing, undeletable);
        }
      }
    }
  }

  /** A plain file name parses to a relative path whose base name is itself. */
  lemma BaseNameOfName(n: string)
    requires ValidName(n)
    ensures ParsePath(n) == Path(false, [n]) && FileName(ParsePath(n)) == Some(n)
  {
    SegmentsOfName(n);
  }

  /**
   * An example: with a.h, b.h and c.h provisioned before and b.h and d.h
   * required now, a.h and c.h are deleted from the project directory and
   * b.h stays.
   */
  lemma RemovalExample()
    ensures var a, b, c := Path(true, ["proj", "a.h"]), Path(true, ["proj", "b.h"]), Path(true, ["proj", "c.h"]);
      RemoveFrom(["a.h", "b.h", "c.h"], {"b.h", "d.h"}, Path(true, ["proj"]), {a, b, c}, {})
      == Removal([a, c], {b}, true)
  {
    var dir := Path(true, ["proj"]);
    var a, b, c := Path(true, ["proj", "a.h"]), Path(true, ["proj", "b.h"]), Path(true, ["proj", "c.h"]);
    var req: set<string> := {"b.h", "d.h"};
    BaseNameOfName("a.h");
    BaseNameOfName("c.h");
    assert Resolve(dir, "a.h") == a && Resolve(dir, "c.h") == c;
    assert "a.h" !in req && "c.h" !in req && "b.h" in req;
    assert a != b && a != c && b != c;
    assert {a, b, c} - {a} == {b, c} && {b, c} - {c} == {b};
    assert ["a.h", "b.h", "c.h"][1..] == ["b.h", "c.h"];
    assert ["b.h", "c.h"][1..] == ["c.h"];
    assert ["c.h"][1..] == [];
    var r3 := RemoveFrom([], req, dir, {b}, {});
    assert r3 == Removal([], {b}, true);
    var r2 := RemoveFrom(["c.h"], req, dir, {b, c}, {});
    assert r2 == Removal([c], {b}, true);
    assert RemoveFrom(["b.h", "c.h"], req, dir, {b, c}, {}) == r2;
    assert RemoveFrom(["a.h", "b.h", "c.h"], req, dir, {a, b, c}, {}) == Removal([a, c], {b}, true);
  }
}
