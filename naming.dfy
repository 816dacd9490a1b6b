/**
 * Turning a menu item's display name into a C identifier fragment:
 * ArduinoGenerator.makeNameFromVariable and capitaliseFirst.
 */
module Naming {
  import opened CharClasses
  import opened Sequences

  /** The characters matched by the split pattern [\p{P}\p{Z}\t\r\n\v\f^]. */
  predicate IsSeparator(c: char)
  {
    IsPunctuation(c) || IsSpaceSeparator(c)
    || c in {'\t', '\r', '\n', '\U{000B}', '\U{000C}', '\U{0085}', '^'}
  }

  predicate NoSeparator(s: string)
  {
    forall k :: 0 <= k < |s| ==> !IsSeparator(s[k])
  }

  /** Index of the first separator at or after `from`, or |s| when there is none. */
  function FirstSeparator(s: string, from: nat): (i: nat)
    requires from <= |s|
    ensures from <= i <= |s|
    ensures forall k :: from <= k < i ==> !IsSeparator(s[k])
    ensures i < |s| ==> IsSeparator(s[i])
    decreases |s| - from
  {
    if from == |s| || IsSeparator(s[from]) then from else FirstSeparator(s, from + 1)
  }

  /** End of the maximal run of separators that starts at `from`. */
  function SeparatorRunEnd(s: string, from: nat): (j: nat)
    requires from <= |s|
    ensures from <= j <= |s|
    ensures forall k :: from <= k < j ==> IsSeparator(s[k])
    ensures j < |s| ==> !IsSeparator(s[j])
    decreases |s| - from
  {
    if from == |s| || !IsSeparator(s[from]) then from else SeparatorRunEnd(s, from + 1)
  }

  /**
   * The pieces of `s` between the matches of the pattern `[...]+`, that is
   * between maximal runs of separators; a leading or trailing run yields an
   * empty piece.
   */
  function Pieces(s: string): (r: seq<string>)
    ensures |r| >= 1
    ensures forall k :: 0 <= k < |r| ==> NoSeparator(r[k])
    decreases |s|
  {
    var i := FirstSeparator(s, 0);
    if i == |s| then [s]
    else
      var j := SeparatorRunEnd(s, i);
      [s[..i]] + Pieces(s[j..])
  }

  function DropTrailingEmpty(p: seq<string>): (r: seq<string>)
    ensures |r| <= |p| && r == p[..|r|]
    ensures r != [] ==> r[|r| - 1] != ""
    ensures forall k :: |r| <= k < |p| ==> p[k] == ""
  {
    if p != [] && p[|p| - 1] == "" then DropTrailingEmpty(p[..|p| - 1]) else p
  }

  /**
   * String.split with limit 0: a string without any match is returned whole
   * (so "" splits to [""]); otherwise trailing empty pieces are removed.
   */
  function Split(s: string): (r: seq<string>)
    ensures forall k :: 0 <= k < |r| ==> NoSeparator(r[k])
  {
    if FirstSeparator(s, 0) == |s| then [s] else DropTrailingEmpty(Pieces(s))
  }

  /** capitaliseFirst: upper-case the first character, keep the rest. */
  function CapitaliseFirst(s: string): (r: string)
    ensures |r| == |s|
    ensures s != "" ==> r[0] == ToUpperCase(s[0])
    ensures forall k :: 1 <= k < |s| ==> r[k] == s[k]
  {
    if s == "" then s else [ToUpperCase(s[0])] + s[1..]
  }

  function CapitaliseAll(parts: seq<string>): (r: seq<string>)
    ensures |r| == |parts|
    ensures forall k :: 0 <= k < |parts| ==> r[k] == CapitaliseFirst(parts[k])
  {
    if parts == [] then [] else [CapitaliseFirst(parts[0])] + CapitaliseAll(parts[1..])
  }

  /**
   * makeNameFromVariable: the pieces between separator runs, each
   * capitalised, joined with nothing; one piece at a time, so the text
   * before the first run comes first and the rest of the name follows.
   * NameFromVariableIsSplitJoin states that this is split, then
   * capitaliseFirst on every part, then joining.
   */
  function NameFromVariable(name: string): string
    decreases |name|
  {
    var i := FirstSeparator(name, 0);
    if i == |name| then CapitaliseFirst(name)
    else
      var j := SeparatorRunEnd(name, i);
      CapitaliseFirst(name[..i]) + NameFromVariable(name[j..])
  }

  /**
   * Reference reading of the naming rule, one character at a time: every
   * separator is dropped, every other character is kept, and a kept character
   * is upper-cased exactly when it starts a word (it is the first character or
   * follows a separator).
   */
  function WordCase(s: string, atWordStart: bool): string
  {
    if s == "" then ""
    else if IsSeparator(s[0]) then WordCase(s[1..], true)
    else [if atWordStart then ToUpperCase(s[0]) else s[0]] + WordCase(s[1..], false)
  }

  /** The characters of `s` that are not separators, in order. */
  function NonSeparators(s: string): string
  {
    if s == "" then ""
    else if IsSeparator(s[0]) then NonSeparators(s[1..])
    else [s[0]] + NonSeparators(s[1..])
  }

  lemma UpperCaseIsNoSeparator(c: char)
    requires !IsSeparator(c)
    ensures !IsSeparator(ToUpperCase(c))
  {
  }

  lemma {:induction false} WordCaseOfWord(w: string, atWordStart: bool)
    requires NoSeparator(w)
    ensures WordCase(w, atWordStart) == if atWordStart then CapitaliseFirst(w) else w
  {
    if w != "" {
      WordCaseOfWord(w[1..], false);
      assert w == [w[0]] + w[1..];
    }
  }

  lemma {:induction false} WordCaseAppendWord(w: string, rest: string, atWordStart: bool)
    requires NoSeparator(w)
    ensures WordCase(w + rest, atWordStart)
         == WordCase(w, atWordStart) + WordCase(rest, if w == "" then atWordStart else false)
  {
    if w == "" {
      assert w + rest == rest;
    } else {
      assert (w + rest)[1..] == w[1..] + rest;
      WordCaseAppendWord(w[1..], rest, false);
    }
  }

  lemma {:induction false} WordCaseSkipsRun(s: string, from: nat, atWordStart: bool)
    requires from <= |s|
    ensures WordCase(s[from..], atWordStart)
         == WordCase(s[SeparatorRunEnd(s, from)..], if SeparatorRunEnd(s, from) == from then atWordStart else true)
    decreases |s| - from
  {
    if from < |s| && IsSeparator(s[from]) {
      assert s[from..][1..] == s[from + 1..];
      WordCaseSkipsRun(s, from + 1, true);
    }
  }

  lemma {:induction false} PiecesAreWordCase(s: string)
    ensures Concat(CapitaliseAll(Pieces(s))) == WordCase(s, true)
    decreases |s|
  {
    var i := FirstSeparator(s, 0);
    if i == |s| {
      WordCaseOfWord(s, true);
    } else {
      var j := SeparatorRunEnd(s, i);
      var w := s[..i];
      assert NoSeparator(w);
      assert s == w + s[i..];
      PiecesAreWordCase(s[j..]);
      assert CapitaliseAll(Pieces(s)) == [CapitaliseFirst(w)] + CapitaliseAll(Pieces(s[j..]));
      WordCaseAppendWord(w, s[i..], true);
      WordCaseOfWord(w, true);
      WordCaseSkipsRun(s, i, if w == "" then true else false);
    }
  }

  lemma EmptyPieceAddsNothing(q: seq<string>)
    ensures Concat(CapitaliseAll(q + [""])) == Concat(CapitaliseAll(q))
  {
    var cq := CapitaliseAll(q);
    assert CapitaliseAll(q + [""]) == cq + [""] by {
      forall k | 0 <= k < |q| + 1 ensures CapitaliseAll(q + [""])[k] == (cq + [""])[k] {
        if k < |q| { assert (q + [""])[k] == q[k]; }
      }
    }
    ConcatSnoc(cq, "");
    assert Concat(cq) + "" == Concat(cq);
  }

  lemma TrailingEmptyAddsNothing(p: seq<string>)
    requires p != [] && p[|p| - 1] == ""
    ensures Concat(CapitaliseAll(p)) == Concat(CapitaliseAll(p[..|p| - 1]))
  {
    var q := p[..|p| - 1];
    assert p == q + [""];
    EmptyPieceAddsNothing(q);
  }

  lemma {:induction false} DropTrailingEmptyKeepsText(p: seq<string>)
    ensures Concat(CapitaliseAll(DropTrailingEmpty(p))) == Concat(CapitaliseAll(p))
    decreases |p|
  {
    if p != [] && p[|p| - 1] == "" {
      var q := p[..|p| - 1];
      assert DropTrailingEmpty(p) == DropTrailingEmpty(q);
      DropTrailingEmptyKeepsText(q);
      TrailingEmptyAddsNothing(p);
    }
  }

  lemma {:induction false} PiecesJoin(s: string)
    ensures Concat(CapitaliseAll(Pieces(s))) == NameFromVariable(s)
    decreases |s|
  {
    var i := FirstSeparator(s, 0);
    if i == |s| {
      assert Concat([CapitaliseFirst(s)]) == CapitaliseFirst(s) + Concat([]);
    } else {
      var j := SeparatorRunEnd(s, i);
      PiecesJoin(s[j..]);
      assert CapitaliseAll(Pieces(s)) == [CapitaliseFirst(s[..i])] + CapitaliseAll(Pieces(s[j..]));
    }
  }

  /**
   * makeNameFromVariable is String.split on the separator pattern, then
   * capitaliseFirst on every part, then joining with no separator.
   */
  lemma NameFromVariableIsSplitJoin(name: string)
    ensures NameFromVariable(name) == Concat(CapitaliseAll(Split(name)))
  {
    PiecesJoin(name);
    if FirstSeparator(name, 0) == |name| {
      assert CapitaliseAll([name]) == [CapitaliseFirst(name)];
      assert Concat([CapitaliseFirst(name)]) == CapitaliseFirst(name) + Concat([]);
    } else {
      DropTrailingEmptyKeepsText(Pieces(name));
    }
  }

  /** makeNameFromVariable agrees with the one-pass reference reading. */
  lemma NameFromVariableIsWordCase(name: string)
    ensures NameFromVariable(name) == WordCase(name, true)
  {
    PiecesJoin(name);
    PiecesAreWordCase(name);
  }

  lemma {:induction false} WordCaseHasNoSeparator(s: string, atWordStart: bool)
    ensures NoSeparator(WordCase(s, atWordStart))
  {
    if s != "" {
      if !IsSeparator(s[0]) {
        WordCaseHasNoSeparator(s[1..], false);
        UpperCaseIsNoSeparator(s[0]);
      } else {
        WordCaseHasNoSeparator(s[1..], true);
      }
    }
  }

  lemma {:induction false} WordCaseKeepsCharacters(s: string, atWordStart: bool)
    ensures |WordCase(s, atWordStart)| == |NonSeparators(s)|
    ensures forall k :: 0 <= k < |NonSeparators(s)| ==>
              WordCase(s, atWordStart)[k] == NonSeparators(s)[k]
              || WordCase(s, atWordStart)[k] == ToUpperCase(NonSeparators(s)[k])
  {
    if s != "" {
      WordCaseKeepsCharacters(s[1..], IsSeparator(s[0]));
      WordCaseKeepsCharacters(s[1..], false);
    }
  }

  /** The identifier fragment contains no separator character at all. */
  lemma NameFromVariableHasNoSeparator(name: string)
    ensures NoSeparator(NameFromVariable(name))
  {
    NameFromVariableIsWordCase(name);
    WordCaseHasNoSeparator(name, true);
  }

  /**
   * The identifier fragment keeps every non-separator character of the name,
   * in order, changing at most its case.
   */
  lemma NameFromVariableKeepsCharacters(name: string)
    ensures |NameFromVariable(name)| == |NonSeparators(name)|
    ensures forall k :: 0 <= k < |NonSeparators(name)| ==>
              NameFromVariable(name)[k] == NonSeparators(name)[k]
              || NameFromVariable(name)[k] == ToUpperCase(NonSeparators(name)[k])
  {
    NameFromVariableIsWordCase(name);
    WordCaseKeepsCharacters(name, true);
  }

  /** A name without separators only has its first character upper-cased. */
  lemma NameFromVariableOfWord(name: string)
    requires NoSeparator(name)
    ensures NameFromVariable(name) == CapitaliseFirst(name)
  {
    NameFromVariableIsWordCase(name);
    WordCaseOfWord(name, true);
  }

  /**
   * Different display names can give the same fragment: a name and the same
   * name behind a leading separator resolve identically (" Volume" and
   * "Volume" both give "Volume"), so resolved names are not injective over
   * display names, even among siblings.
   */
  lemma DistinctNamesCanCollide(sep: char, name: string)
    requires IsSeparator(sep)
    ensures [sep] + name != name
    ensures NameFromVariable([sep] + name) == NameFromVariable(name)
  {
    assert |[sep] + name| != |name|;
    NameFromVariableIsWordCase([sep] + name);
    NameFromVariableIsWordCase(name);
    assert ([sep] + name)[1..] == name;
  }
}
