/**
 * The filter expressions accepted by `qmk multibuild --filter`.
 *
 * The command matches every raw filter string against the regular expression
 *   ^(?P<key>[A-Z0-9_]+)\s*=\s*(?P<value>[^#]+)$
 * and ignores the strings that do not match. This module is a hand-coded
 * recogniser for that pattern (ParseFilter) together with a declarative
 * description of every way the pattern can match (Derivation), and the proof
 * that the recogniser accepts exactly the matching strings and returns the
 * groups that Python's backtracking matcher returns.
 */
module FilterExpr {
  import opened Wrappers

  /** A parsed `KEY=value` filter. */
  datatype Filter = Filter(key: string, value: string)

  /** The character class `[A-Z0-9_]`. */
  predicate IsKeyChar(c: char)
  {
    ('A' <= c <= 'Z') || ('0' <= c <= '9') || c == '_'
  }

  /** The class `\s` of a `str` pattern: the characters Python treats as whitespace. */
  predicate IsSpace(c: char)
  {
    ('\t' <= c <= '\r') || ('\U{1c}' <= c <= '\U{1f}') || c == ' '
    || c == '\U{85}' || c == '\U{a0}' || c == '\U{1680}'
    || ('\U{2000}' <= c <= '\U{200a}') || c == '\U{2028}' || c == '\U{2029}'
    || c == '\U{202f}' || c == '\U{205f}' || c == '\U{3000}'
  }

  /**
   * One way the pattern can match the whole of `s`: the key is `s[..a]`, the
   * spaces before `=` are `s[a..b]`, `s[b]` is the `=`, the spaces after it are
   * `s[b+1..d]` and the value is `s[d..]`.
   */
  predicate Derivation(s: string, a: nat, b: nat, d: nat)
  {
    0 < a <= b < d < |s|
    && (forall k :: 0 <= k < a ==> IsKeyChar(s[k]))
    && (forall k :: a <= k < b ==> IsSpace(s[k]))
    && s[b] == '='
    && (forall k :: b < k < d ==> IsSpace(s[k]))
    && (forall k :: d <= k < |s| ==> s[k] != '#')
  }

  /** `s` matches the filter pattern in at least one way. */
  ghost predicate Matches(s: string)
  {
    exists a: nat, b: nat, d: nat :: Derivation(s, a, b, d)
  }

  /** The end of the run of key characters that starts at `i`. */
  function KeyEnd(s: string, i: nat): (j: nat)
    requires i <= |s|
    ensures i <= j <= |s|
    ensures forall k :: i <= k < j ==> IsKeyChar(s[k])
    ensures j < |s| ==> !IsKeyChar(s[j])
    decreases |s| - i
  {
    if i < |s| && IsKeyChar(s[i]) then KeyEnd(s, i + 1) else i
  }

  /** The end of the run of whitespace that starts at `i`. */
  function SpaceEnd(s: string, i: nat): (j: nat)
    requires i <= |s|
    ensures i <= j <= |s|
    ensures forall k :: i <= k < j ==> IsSpace(s[k])
    ensures j < |s| ==> !IsSpace(s[j])
    decreases |s| - i
  {
    if i < |s| && IsSpace(s[i]) then SpaceEnd(s, i + 1) else i
  }

  /** No `#` occurs in `s` from position `i` on. */
  function HashFreeFrom(s: string, i: nat): (r: bool)
    requires i <= |s|
    ensures r <==> forall k :: i <= k < |s| ==> s[k] != '#'
    decreases |s| - i
  {
    i == |s| || (s[i] != '#' && HashFreeFrom(s, i + 1))
  }

  /**
   * `filter_re.match(s)`: the key and value groups when `s` matches, `None`
   * otherwise. Python's greedy `\s*` after `=` takes every space it can and
   * gives back only the last one when nothing else would be left for the value.
   */
  function ParseFilter(s: string): (r: Option<Filter>)
    ensures r.Some? ==> 0 < |r.value.key| < |s| && r.value.key == s[..|r.value.key|]
    ensures r.Some? ==> forall k :: 0 <= k < |r.value.key| ==> IsKeyChar(r.value.key[k])
    ensures r.Some? ==> 0 < |r.value.value| < |s| - |r.value.key|
    ensures r.Some? ==> r.value.value == s[|s| - |r.value.value|..]
    ensures r.Some? ==> forall k :: 0 <= k < |r.value.value| ==> r.value.value[k] != '#'
  {
    var a := KeyEnd(s, 0);
    var b := SpaceEnd(s, a);
    if a == 0 || b == |s| || s[b] != '=' || !HashFreeFrom(s, b + 1) then None
    else
      var c := SpaceEnd(s, b + 1);
      if c < |s| then Some(Filter(s[..a], s[c..]))
      else if b + 1 < |s| then Some(Filter(s[..a], s[|s| - 1..]))
      else None
  }

  /** Whatever ParseFilter returns is the key and value of a way the pattern matches. */
  lemma ParseSound(s: string)
    requires ParseFilter(s).Some?
    ensures exists a: nat, b: nat, d: nat :: Derivation(s, a, b, d)
              && ParseFilter(s).value == Filter(s[..a], s[d..])
  {
    var a := KeyEnd(s, 0);
    var b := SpaceEnd(s, a);
    var c := SpaceEnd(s, b + 1);
    var d := if c < |s| then c else |s| - 1;
    assert Derivation(s, a, b, d);
  }

  /**
   * Every way the pattern can match is found: the key is the same, and the
   * value is the shortest one any match allows (the spaces after `=` are
   * taken greedily), so it is a suffix of the value of the given match.
   */
  lemma ParseComplete(s: string, a: nat, b: nat, d: nat)
    requires Derivation(s, a, b, d)
    ensures ParseFilter(s).Some?
    ensures ParseFilter(s).value.key == s[..a]
    ensures exists e: nat :: d <= e && Derivation(s, a, b, e) && ParseFilter(s).value.value == s[e..]
  {
    assert KeyEnd(s, 0) == a by {
      assert !IsKeyChar(s[a]) by {
        if a < b { assert IsSpace(s[a]); } else { assert s[a] == '='; }
      }
    }
    assert SpaceEnd(s, a) == b by {
      assert !IsSpace(s[b]);
    }
    var c := SpaceEnd(s, b + 1);
    assert d <= c;
    var e := if c < |s| then c else |s| - 1;
    assert Derivation(s, a, b, e);
  }

  /** The recogniser accepts exactly the strings the pattern matches. */
  lemma ParseAcceptsExactly(s: string)
    ensures ParseFilter(s).Some? <==> Matches(s)
  {
    if ParseFilter(s).Some? {
      ParseSound(s);
    }
    if Matches(s) {
      var a: nat, b: nat, d: nat :| Derivation(s, a, b, d);
      ParseComplete(s, a, b, d);
    }
  }

  /** A value of nothing but whitespace still parses: it is the last space. */
  lemma ParseSpaceOnlyValue()
    ensures ParseFilter("K= ") == Some(Filter("K", " "))
  {
    var s := "K= ";
    assert KeyEnd(s, 0) == 1;
    assert SpaceEnd(s, 1) == 1;
    assert SpaceEnd(s, 2) == 3;
    assert HashFreeFrom(s, 2);
    assert s[..1] == "K" && s[2..] == " ";
  }

  /** The value is not trimmed on the right, and may itself contain `=`. */
  lemma ParseKeepsValueText()
    ensures ParseFilter("K = a ") == Some(Filter("K", "a "))
    ensures ParseFilter("K==x") == Some(Filter("K", "=x"))
  {
    var s := "K = a ";
    assert KeyEnd(s, 0) == 1;
    assert SpaceEnd(s, 1) == 2;
    assert SpaceEnd(s, 3) == 4;
    assert HashFreeFrom(s, 3);
    assert s[..1] == "K" && s[4..] == "a ";
    var t := "K==x";
    assert KeyEnd(t, 0) == 1;
    assert SpaceEnd(t, 1) == 1;
    assert SpaceEnd(t, 2) == 2;
    assert HashFreeFrom(t, 2);
    assert t[..1] == "K" && t[2..] == "=x";
  }

  /**
   * Writing a filter as `KEY=value` and parsing it gives the filter back, when
   * its value does not start with whitespace (which `\s*` would take) and
   * holds no `#`.
   */
  lemma ParseFormatted(key: string, value: string)
    requires 0 < |key| && forall k :: 0 <= k < |key| ==> IsKeyChar(key[k])
    requires 0 < |value| && !IsSpace(value[0])
    requires forall k :: 0 <= k < |value| ==> value[k] != '#'
    ensures ParseFilter(key + "=" + value) == Some(Filter(key, value))
  {
    var s := key + "=" + value;
    var a := |key|;
    assert s[..a] == key;
    assert s[a + 1..] == value;
    assert s[a + 1] == value[0];
    assert Derivation(s, a, a, a + 1);
    ParseComplete(s, a, a, a + 1);
  }

  /** The filter given as the example in the command's help text. */
  lemma ParseSplitKeyboardFilter()
    ensures ParseFilter("SPLIT_KEYBOARD=yes") == Some(Filter("SPLIT_KEYBOARD", "yes"))
  {
    assert forall k :: 0 <= k < 14 ==> IsKeyChar("SPLIT_KEYBOARD"[k]);
    ParseFormatted("SPLIT_KEYBOARD", "yes");
    assert "SPLIT_KEYBOARD" + "=" + "yes" == "SPLIT_KEYBOARD=yes";
  }

  /** A string with no key, such as one in lower case, does not parse. */
  lemma ParseRejects()
    ensures ParseFilter("not-a-filter") == None
    ensures ParseFilter("=yes") == None
  {
    assert KeyEnd("not-a-filter", 0) == 0;
    assert KeyEnd("=yes", 0) == 0;
  }
}
