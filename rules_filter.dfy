/**
 * Narrowing the keyboard list by the attributes each keyboard declares in its
 * rules.mk. The lookup `qmk.keyboard.rules_mk` is outside this model; it is
 * a parameter, a total function from a keyboard name to its key/value map.
 */
module RulesFilter {
  import opened FilterExpr

  /** `qmk.keyboard.rules_mk`: the attributes declared by each keyboard. */
  type RulesLookup = string -> map<string, string>

  /** `str.lower()` on one character, for the ASCII letters. */
  function LowerChar(c: char): char
  {
    if 'A' <= c <= 'Z' then (c as int - 'A' as int + 'a' as int) as char else c
  }

  /** `str.lower()`, for the ASCII letters. */
  function Lower(s: string): (r: string)
    ensures |r| == |s|
    ensures forall i :: 0 <= i < |s| ==> r[i] == LowerChar(s[i])
  {
    if s == [] then [] else [LowerChar(s[0])] + Lower(s[1..])
  }

  /** A string with no upper-case ASCII letter is its own lower-case form. */
  lemma LowerOfLowerCase(s: string)
    requires forall i :: 0 <= i < |s| ==> !('A' <= s[i] <= 'Z')
    ensures Lower(s) == s
  {
  }

  /** The two strings have the same length and agree letter by letter up to ASCII case. */
  predicate SameIgnoringCase(a: string, b: string)
  {
    |a| == |b| && forall i :: 0 <= i < |a| ==> LowerChar(a[i]) == LowerChar(b[i])
  }

  /**
   * The predicate built by `_make_rules_mk_filter(key, value)`: the keyboard
   * declares `key`, and its value equals `value` once both are lower-cased.
   */
  predicate Passes(rulesMk: RulesLookup, f: Filter, keyboard: string)
    ensures Passes(rulesMk, f, keyboard)
            <==> f.key in rulesMk(keyboard) && SameIgnoringCase(rulesMk(keyboard)[f.key], f.value)
  {
    var rules := rulesMk(keyboard);
    f.key in rules && Lower(rules[f.key]) == Lower(f.value)
  }

  /** `_is_split`: the keyboard declares `SPLIT_KEYBOARD` as `yes` in any case. */
  predicate IsSplit(rulesMk: RulesLookup, keyboard: string)
    ensures IsSplit(rulesMk, keyboard)
            <==> "SPLIT_KEYBOARD" in rulesMk(keyboard) && SameIgnoringCase(rulesMk(keyboard)["SPLIT_KEYBOARD"], "yes")
  {
    var rules := rulesMk(keyboard);
    "SPLIT_KEYBOARD" in rules && Lower(rules["SPLIT_KEYBOARD"]) == "yes"
  }

  /** `_is_split` is the filter `SPLIT_KEYBOARD=yes`. */
  lemma IsSplitIsSplitFilter(rulesMk: RulesLookup, keyboard: string)
    ensures IsSplit(rulesMk, keyboard) <==> Passes(rulesMk, Filter("SPLIT_KEYBOARD", "yes"), keyboard)
  {
    LowerOfLowerCase("yes");
  }

  /** A keyboard that does not declare the key never passes, whatever the value. */
  lemma MissingKeyExcluded(rulesMk: RulesLookup, f: Filter, keyboard: string)
    requires f.key !in rulesMk(keyboard)
    ensures !Passes(rulesMk, f, keyboard)
  {
  }

  /** Filters that differ only in the case of their value select the same keyboards. */
  lemma PassesIgnoresCase(rulesMk: RulesLookup, key: string, v: string, w: string, keyboard: string)
    requires Lower(v) == Lower(w)
    ensures Passes(rulesMk, Filter(key, v), keyboard) <==> Passes(rulesMk, Filter(key, w), keyboard)
  {
  }

  /** The filter `KEY=Yes` accepts a declared value of `yes`, `YES` or `yEs`. */
  lemma PassesCaseExamples(rulesMk: RulesLookup, keyboard: string)
    requires "KEY" in rulesMk(keyboard)
    requires rulesMk(keyboard)["KEY"] in {"yes", "YES", "yEs"}
    ensures Passes(rulesMk, Filter("KEY", "Yes"), keyboard)
  {
    var declared := rulesMk(keyboard)["KEY"];
    assert Lower(declared) == "yes" by {
      assert |declared| == 3;
      assert Lower(declared)[0] == 'y' && Lower(declared)[1] == 'e' && Lower(declared)[2] == 's';
    }
    assert Lower("Yes") == "yes" by {
      assert Lower("Yes")[0] == 'y' && Lower("Yes")[1] == 'e' && Lower("Yes")[2] == 's';
    }
  }

  /** The keyboard passes every filter of the sequence. */
  predicate PassesAll(rulesMk: RulesLookup, filters: seq<Filter>, keyboard: string)
  {
    forall i :: 0 <= i < |filters| ==> Passes(rulesMk, filters[i], keyboard)
  }

  /** `filter(pred, keyboards)` for the predicate of one filter. */
  function Keep(keyboards: seq<string>, f: Filter, rulesMk: RulesLookup): (r: seq<string>)
    ensures |r| <= |keyboards|
    ensures forall k :: k in r ==> k in keyboards && Passes(rulesMk, f, k)
  {
    if keyboards == [] then []
    else
      (if Passes(rulesMk, f, keyboards[0]) then [keyboards[0]] else []) + Keep(keyboards[1..], f, rulesMk)
  }

  /** The keyboards, in their order, that pass every filter of the sequence. */
  function KeepAll(keyboards: seq<string>, filters: seq<Filter>, rulesMk: RulesLookup): seq<string>
  {
    if keyboards == [] then []
    else
      (if PassesAll(rulesMk, filters, keyboards[0]) then [keyboards[0]] else []) + KeepAll(keyboards[1..], filters, rulesMk)
  }

  /**
   * Each keyboard occurs in the result as often as in the input when it
   * passes every filter, and not at all otherwise: duplicates are kept.
   */
  lemma {:induction false} KeepAllCount(keyboards: seq<string>, filters: seq<Filter>, rulesMk: RulesLookup, x: string)
    ensures multiset(KeepAll(keyboards, filters, rulesMk))[x]
            == if PassesAll(rulesMk, filters, x) then multiset(keyboards)[x] else 0
  {
    if keyboards != [] {
      KeepAllCount(keyboards[1..], filters, rulesMk, x);
      assert keyboards == [keyboards[0]] + keyboards[1..];
    }
  }

  /** With no filter every keyboard is kept. */
  lemma {:induction false} KeepAllNoFilters(keyboards: seq<string>, rulesMk: RulesLookup)
    ensures KeepAll(keyboards, [], rulesMk) == keyboards
  {
    if keyboards != [] {
      KeepAllNoFilters(keyboards[1..], rulesMk);
      assert keyboards == [keyboards[0]] + keyboards[1..];
    }
  }

  /** Applying one more filter to the survivors of some filters is applying all of them. */
  lemma {:induction false} KeepAfterKeepAll(keyboards: seq<string>, filters: seq<Filter>, f: Filter, rulesMk: RulesLookup)
    ensures Keep(KeepAll(keyboards, filters, rulesMk), f, rulesMk) == KeepAll(keyboards, filters + [f], rulesMk)
  {
    if keyboards != [] {
      var x := keyboards[0];
      KeepAfterKeepAll(keyboards[1..], filters, f, rulesMk);
      assert PassesAll(rulesMk, filters + [f], x) <==> PassesAll(rulesMk, filters, x) && Passes(rulesMk, f, x) by {
        var all := filters + [f];
        assert forall i :: 0 <= i < |filters| ==> all[i] == filters[i];
        assert all[|filters|] == f;
      }
      var rest := KeepAll(keyboards[1..], filters, rulesMk);
      if PassesAll(rulesMk, filters, x) {
        assert KeepAll(keyboards, filters, rulesMk) == [x] + rest;
        assert ([x] + rest)[1..] == rest;
        assert Keep([x] + rest, f, rulesMk) == (if Passes(rulesMk, f, x) then [x] else []) + Keep(rest, f, rulesMk);
      } else {
        assert KeepAll(keyboards, filters, rulesMk) == rest;
        assert KeepAll(keyboards, filters + [f], rulesMk) == KeepAll(keyboards[1..], filters + [f], rulesMk);
      }
    }
  }

  /** `a` is `b` with some elements removed, the rest in the same order. */
  predicate IsSubsequence(a: seq<string>, b: seq<string>)
    decreases |b|
  {
    a == [] || (b != [] && ((a[0] == b[0] && IsSubsequence(a[1..], b[1..])) || IsSubsequence(a, b[1..])))
  }

  /** Filtering only removes keyboards; it never adds or reorders them. */
  lemma {:induction false} KeepAllIsSubsequence(keyboards: seq<string>, filters: seq<Filter>, rulesMk: RulesLookup)
    ensures IsSubsequence(KeepAll(keyboards, filters, rulesMk), keyboards)
  {
    if keyboards != [] {
      KeepAllIsSubsequence(keyboards[1..], filters, rulesMk);
      var rest := KeepAll(keyboards[1..], filters, rulesMk);
      if PassesAll(rulesMk, filters, keyboards[0]) {
        assert KeepAll(keyboards, filters, rulesMk) == [keyboards[0]] + rest;
        assert ([keyboards[0]] + rest)[1..] == rest;
      } else {
        assert KeepAll(keyboards, filters, rulesMk) == rest;
      }
    }
  }

  /** A keyboard survives the filters exactly when it is listed and passes all of them. */
  lemma KeepAllMembership(keyboards: seq<string>, filters: seq<Filter>, rulesMk: RulesLookup, x: string)
    ensures x in KeepAll(keyboards, filters, rulesMk) <==> x in keyboards && PassesAll(rulesMk, filters, x)
  {
    KeepAllCount(keyboards, filters, rulesMk, x);
    assert x in KeepAll(keyboards, filters, rulesMk) <==> x in multiset(KeepAll(keyboards, filters, rulesMk));
    assert x in keyboards <==> x in multiset(keyboards);
  }
}
