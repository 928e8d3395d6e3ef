/**
 * `qmk multibuild`: list every keyboard, keep those that pass the `--filter`
 * expressions, sort them, and write one makefile rule per keyboard for a
 * parallel `make` to run. When no keyboard is left the command returns
 * before writing anything or running `make`.
 */
module Multibuild {
  import opened Wrappers
  import opened FilterExpr
  import opened RulesFilter
  import opened Ordering
  import opened BuildPlan

  /** The filters that parse, in the order they were given; the others are dropped. */
  function ParsedFilters(filterTexts: seq<string>): (filters: seq<Filter>)
    ensures |filters| <= |filterTexts|
    ensures (forall i :: 0 <= i < |filterTexts| ==> ParseFilter(filterTexts[i]).None?) ==> filters == []
    decreases |filterTexts|
  {
    if filterTexts == [] then []
    else
      var last := filterTexts[|filterTexts| - 1];
      ParsedFilters(filterTexts[..|filterTexts| - 1])
      + match ParseFilter(last) case Some(f) => [f] case None => []
  }

  /** Parsing two lists of filter strings one after the other keeps their order. */
  lemma {:induction false} ParsedFiltersAppend(a: seq<string>, b: seq<string>)
    ensures ParsedFilters(a + b) == ParsedFilters(a) + ParsedFilters(b)
    decreases |b|
  {
    if b == [] {
      assert a + b == a;
    } else {
      var last := |b| - 1;
      assert (a + b)[..|a + b| - 1] == a + b[..last];
      assert (a + b)[|a + b| - 1] == b[last];
      ParsedFiltersAppend(a, b[..last]);
    }
  }

  /**
   * A filter string that does not parse is ignored wherever it stands: the
   * filters in force are those of the other strings.
   */
  lemma MalformedFilterIgnored(before: seq<string>, bad: string, after: seq<string>)
    requires ParseFilter(bad).None?
    ensures ParsedFilters(before + [bad] + after) == ParsedFilters(before + after)
  {
    assert ParsedFilters([bad]) == [] by {
      assert [bad][..0] == [];
    }
    var withBad := before + [bad];
    ParsedFiltersAppend(withBad, after);
    ParsedFiltersAppend(before, [bad]);
    ParsedFiltersAppend(before, after);
    assert ParsedFilters(withBad) == ParsedFilters(before);
  }

  /**
   * The loop over `cli.args.filter`: each string that parses narrows the list
   * to the keyboards its filter accepts. The result is the keyboards, in their
   * order, that pass every parsed filter.
   */
  method ApplyFilters(keyboards: seq<string>, filterTexts: seq<string>, rulesMk: RulesLookup)
    returns (kept: seq<string>)
    ensures kept == KeepAll(keyboards, ParsedFilters(filterTexts), rulesMk)
  {
    kept := keyboards;
    KeepAllNoFilters(keyboards, rulesMk);
    for i := 0 to |filterTexts|
      invariant kept == KeepAll(keyboards, ParsedFilters(filterTexts[..i]), rulesMk)
    {
      var done := ParsedFilters(filterTexts[..i]);
      assert filterTexts[..i + 1][..i] == filterTexts[..i];
      assert filterTexts[..i + 1][i] == filterTexts[i];
      match ParseFilter(filterTexts[i]) {
        case Some(f) =>
          assert ParsedFilters(filterTexts[..i + 1]) == done + [f];
          KeepAfterKeepAll(keyboards, done, f, rulesMk);
          kept := Keep(kept, f, rulesMk);
        case None =>
          assert ParsedFilters(filterTexts[..i + 1]) == done;
      }
    }
    assert filterTexts[..|filterTexts|] == filterTexts;
  }

  /** The sorted list of keyboards that pass every parsed filter. */
  function Selection(keyboards: seq<string>, filterTexts: seq<string>, rulesMk: RulesLookup): (r: seq<string>)
    ensures IsSorted(r)
    ensures multiset(r) == multiset(KeepAll(keyboards, ParsedFilters(filterTexts), rulesMk))
  {
    Sort(KeepAll(keyboards, ParsedFilters(filterTexts), rulesMk))
  }

  /** What a run does: return early, or write the plan and hand it to `make -j`. */
  datatype Run =
    | NothingToBuild
    | Built(keyboards: seq<string>, makefile: string)

  /**
   * The command itself. `Built(ks, text)` means that `text` was written to
   * `.build/parallel_kb_builds.mk` and `make` was then run on it for the
   * keyboards `ks`; `NothingToBuild` means it returned before either.
   */
  method RunMultibuild(keyboards: seq<string>, filterTexts: seq<string>, rulesMk: RulesLookup, qmk: string)
    returns (run: Run)
    ensures run.NothingToBuild? <==> Selection(keyboards, filterTexts, rulesMk) == []
    ensures run.Built? ==> run.keyboards == Selection(keyboards, filterTexts, rulesMk)
    ensures run.Built? ==> run.makefile == Plan(run.keyboards, qmk)
  {
    var kept := ApplyFilters(keyboards, filterTexts, rulesMk);
    var sorted := Sort(kept);
    assert sorted == Selection(keyboards, filterTexts, rulesMk);
    if |sorted| == 0 {
      return NothingToBuild;
    }
    var text := WritePlan(sorted, qmk);
    run := Built(sorted, text);
  }

  /**
   * The selected keyboards are sorted, and each occurs as often as in the
   * listing when it passes every parsed filter, and not at all otherwise.
   */
  lemma SelectionContents(keyboards: seq<string>, filterTexts: seq<string>, rulesMk: RulesLookup, x: string)
    ensures IsSorted(Selection(keyboards, filterTexts, rulesMk))
    ensures multiset(Selection(keyboards, filterTexts, rulesMk))[x]
            == if PassesAll(rulesMk, ParsedFilters(filterTexts), x) then multiset(keyboards)[x] else 0
  {
    KeepAllCount(keyboards, ParsedFilters(filterTexts), rulesMk, x);
  }

  /** Filtering never adds a keyboard: every selected keyboard was listed. */
  lemma SelectionIsSubset(keyboards: seq<string>, filterTexts: seq<string>, rulesMk: RulesLookup, x: string)
    requires x in Selection(keyboards, filterTexts, rulesMk)
    ensures x in keyboards
    ensures PassesAll(rulesMk, ParsedFilters(filterTexts), x)
  {
    var kept := KeepAll(keyboards, ParsedFilters(filterTexts), rulesMk);
    assert x in multiset(Sort(kept));
    KeepAllMembership(keyboards, ParsedFilters(filterTexts), rulesMk, x);
  }

  /** With no filter that parses, every listed keyboard is built, duplicates included. */
  lemma SelectionWithoutFilters(keyboards: seq<string>, filterTexts: seq<string>, rulesMk: RulesLookup)
    requires ParsedFilters(filterTexts) == []
    ensures Selection(keyboards, filterTexts, rulesMk) == Sort(keyboards)
    ensures multiset(Selection(keyboards, filterTexts, rulesMk)) == multiset(keyboards)
  {
    KeepAllNoFilters(keyboards, rulesMk);
  }

  /**
   * The order in which the keyboards are listed does not matter: the same
   * keyboards give the same selection, and so the same makefile.
   */
  lemma SelectionDeterministic(ks1: seq<string>, ks2: seq<string>, filterTexts: seq<string>, rulesMk: RulesLookup)
    requires multiset(ks1) == multiset(ks2)
    ensures Selection(ks1, filterTexts, rulesMk) == Selection(ks2, filterTexts, rulesMk)
  {
    var filters := ParsedFilters(filterTexts);
    var kept1, kept2 := KeepAll(ks1, filters, rulesMk), KeepAll(ks2, filters, rulesMk);
    forall x ensures multiset(kept1)[x] == multiset(kept2)[x] {
      KeepAllCount(ks1, filters, rulesMk, x);
      KeepAllCount(ks2, filters, rulesMk, x);
    }
    assert multiset(kept1) == multiset(kept2);
    SortDeterministic(kept1, kept2);
  }

  /** The single filter `SPLIT_KEYBOARD=yes` is in force. */
  lemma SplitFilterParsed()
    ensures ParsedFilters(["SPLIT_KEYBOARD=yes"]) == [Filter("SPLIT_KEYBOARD", "yes")]
  {
    ParseSplitKeyboardFilter();
    assert ["SPLIT_KEYBOARD=yes"][..0] == [];
  }

  /**
   * Three keyboards, of which only `kb/b` is split: the filter
   * `SPLIT_KEYBOARD=yes` selects `kb/b` alone, so the makefile has one block.
   */
  lemma SplitKeyboardScenario(rulesMk: RulesLookup)
    requires IsSplit(rulesMk, "kb/b")
    requires !IsSplit(rulesMk, "kb/a") && !IsSplit(rulesMk, "kb/c")
    ensures Selection(["kb/a", "kb/b", "kb/c"], ["SPLIT_KEYBOARD=yes"], rulesMk) == ["kb/b"]
  {
    var f := Filter("SPLIT_KEYBOARD", "yes");
    SplitFilterParsed();
    IsSplitIsSplitFilter(rulesMk, "kb/a");
    IsSplitIsSplitFilter(rulesMk, "kb/b");
    IsSplitIsSplitFilter(rulesMk, "kb/c");
    assert PassesAll(rulesMk, [f], "kb/b") && !PassesAll(rulesMk, [f], "kb/a") && !PassesAll(rulesMk, [f], "kb/c") by {
      assert [f][0] == f;
    }
    var all := ["kb/a", "kb/b", "kb/c"];
    var tail, last := all[1..], all[2..];
    assert tail == ["kb/b", "kb/c"] && tail[1..] == last && last == ["kb/c"] && last[1..] == [];
    assert KeepAll(last, [f], rulesMk) == [];
    assert KeepAll(tail, [f], rulesMk) == ["kb/b"];
    assert KeepAll(all, [f], rulesMk) == ["kb/b"];
    assert Sort(["kb/b"]) == ["kb/b"] by {
      SortUnique(Sort(["kb/b"]), ["kb/b"]);
    }
  }
}
