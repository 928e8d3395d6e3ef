/**
 * The makefile that `qmk multibuild` writes to `.build/parallel_kb_builds.mk`:
 * one rule block per keyboard, each building that keyboard into its own log
 * and then classifying the log as `[ERRORS]`, `[WARNINGS]` or `[OK]`.
 * Opening and writing the file are modelled as appending to a string.
 */
module BuildPlan {

  /** `keyboard_name.replace('/', '_')`. */
  function SafeName(keyboard: string): (r: string)
    ensures |r| == |keyboard|
    ensures forall i :: 0 <= i < |r| ==> r[i] != '/'
    ensures forall i :: 0 <= i < |keyboard| ==> r[i] == if keyboard[i] == '/' then '_' else keyboard[i]
  {
    if keyboard == [] then []
    else [if keyboard[0] == '/' then '_' else keyboard[0]] + SafeName(keyboard[1..])
  }

  /** The characters that SafeName writes as `_`. */
  predicate IsSeparator(c: char)
  {
    c == '/' || c == '_'
  }

  /** Two names are equal up to writing `/` for `_` or `_` for `/`. */
  predicate SameUpToSeparators(a: string, b: string)
  {
    |a| == |b| && forall i :: 0 <= i < |a| ==> a[i] == b[i] || (IsSeparator(a[i]) && IsSeparator(b[i]))
  }

  /**
   * Two keyboard names get the same safe name exactly when they have the same
   * length and differ only by `/` standing where the other has `_`.
   */
  lemma SafeNameCollides(a: string, b: string)
    ensures SafeName(a) == SafeName(b) <==> SameUpToSeparators(a, b)
  {
    if SameUpToSeparators(a, b) {
      forall i | 0 <= i < |a| ensures SafeName(a)[i] == SafeName(b)[i] {
        assert a[i] == b[i] || (IsSeparator(a[i]) && IsSeparator(b[i]));
      }
    }
    if SafeName(a) == SafeName(b) {
      forall i | 0 <= i < |a|
        ensures a[i] == b[i] || (IsSeparator(a[i]) && IsSeparator(b[i]))
      {
        assert SafeName(a)[i] == SafeName(b)[i];
      }
    }
  }

  /** Among names without `_`, different keyboards get different safe names. */
  lemma SafeNameInjectiveWithoutUnderscore(a: string, b: string)
    requires forall i :: 0 <= i < |a| ==> a[i] != '_'
    requires forall i :: 0 <= i < |b| ==> b[i] != '_'
    requires SafeName(a) == SafeName(b)
    ensures a == b
  {
    SafeNameCollides(a, b);
  }

  /** The replacement is not injective: `a/b` and `a_b` share a safe name. */
  lemma SafeNameNotInjective()
    ensures SafeName("a/b") == SafeName("a_b")
  {
    SafeNameCollides("a/b", "a_b");
  }

  /** A piece of the block template: fixed text, or a value substituted into it. */
  datatype Piece = Text(text: string) | Safe | Keyboard | Root

  /** The first two lines of a block: the `all` dependency and the rule's target. */
  function HeaderTemplate(): seq<Piece>
  {
    [Text("all: "), Safe, Text("_binary\n"), Safe, Text("_binary:\n")]
  }

  /**
   * The recipe lines of the f-string written for each keyboard, with its
   * substitutions: `Safe` is `{keyboard_safe}`, `Keyboard` is
   * `{keyboard_name}` and `Root` is `{QMK_FIRMWARE}`.
   */
  function RecipeTemplate(): seq<Piece>
  {
    [
    Text("\t@rm -f \""), Root, Text("/.build/failed.log."), Safe, Text("\" || true\n"),
    Text("\t+@$(MAKE) -C \""), Root, Text("\" -f \""), Root, Text("/build_keyboard.mk\" KEYBOARD=\""), Keyboard,
    Text("\" KEYMAP=\"default\" REQUIRE_PLATFORM_KEY= COLOR=true SILENT=false \\\n"),
    Text("\t\t>>\""), Root, Text("/.build/build.log."), Safe, Text("\" 2>&1 \\\n"),
    Text("\t\t|| cp \""), Root, Text("/.build/build.log."), Safe,
    Text("\" \""), Root, Text("/.build/failed.log."), Safe, Text("\"\n"),
    Text("\t@{ grep '\\[ERRORS\\]' \""), Root, Text("/.build/build.log."), Safe,
    Text("\" >/dev/null 2>&1 && printf \"Build %-64s \\e[1;31m[ERRORS]\\e[0m\\n\" \""), Keyboard,
    Text(":default\" ; } \\\n"),
    Text("\t\t|| { grep '\\[WARNINGS\\]' \""), Root, Text("/.build/build.log."), Safe,
    Text("\" >/dev/null 2>&1 && printf \"Build %-64s \\e[1;33m[WARNINGS]\\e[0m\\n\" \""), Keyboard,
    Text(":default\" ; } \\\n"),
    Text("\t\t|| printf \"Build %-64s \\e[1;32m[OK]\\e[0m\\n\" \""), Keyboard, Text(":default\"\n"),
    Text("\t@rm -f \""), Root, Text("/.build/build.log."), Safe, Text("\" || true\n"),
    Text("\n")
    ]
  }

  /** The template with its substitutions made. */
  function Fill(pieces: seq<Piece>, keyboard: string, safe: string, qmk: string): string
  {
    if pieces == [] then ""
    else
      var head := match pieces[0]
        case Text(s) => s
        case Safe => safe
        case Keyboard => keyboard
        case Root => qmk;
      head + Fill(pieces[1..], keyboard, safe, qmk)
  }

  /** `text` begins with `prefix`. */
  predicate StartsWith(text: string, prefix: string)
  {
    |prefix| <= |text| && text[..|prefix|] == prefix
  }

  /** The first two lines of a block: `all: {safe}_binary` and then `{safe}_binary:`. */
  function Header(safe: string): string
  {
    "all: " + safe + "_binary\n" + safe + "_binary:\n"
  }

  /** Filling two templates one after the other gives their two texts one after the other. */
  lemma {:induction false} FillAppend(a: seq<Piece>, b: seq<Piece>, keyboard: string, safe: string, qmk: string)
    ensures Fill(a + b, keyboard, safe, qmk) == Fill(a, keyboard, safe, qmk) + Fill(b, keyboard, safe, qmk)
  {
    if a == [] {
      assert a + b == b;
    } else {
      assert (a + b)[0] == a[0];
      assert (a + b)[1..] == a[1..] + b;
      FillAppend(a[1..], b, keyboard, safe, qmk);
    }
  }

  /** The header template filled in: `all: {safe}_binary` and then `{safe}_binary:`. */
  lemma FillHeader(keyboard: string, safe: string, qmk: string)
    ensures Fill(HeaderTemplate(), keyboard, safe, qmk) == Header(safe)
  {
    var h := HeaderTemplate();
    assert h[4..][1..] == [] && h[4..][0] == Text("_binary:\n");
    assert Fill(h[4..], keyboard, safe, qmk) == "_binary:\n";
    assert h[3..][1..] == h[4..] && h[3..][0] == Safe;
    assert Fill(h[3..], keyboard, safe, qmk) == safe + "_binary:\n";
    assert h[2..][1..] == h[3..] && h[2..][0] == Text("_binary\n");
    assert Fill(h[2..], keyboard, safe, qmk) == "_binary\n" + safe + "_binary:\n";
    assert h[1..][1..] == h[2..] && h[1..][0] == Safe;
    assert Fill(h[1..], keyboard, safe, qmk) == safe + "_binary\n" + safe + "_binary:\n";
  }

  /** The text written for one keyboard; it starts with the keyboard's header lines. */
  function Block(keyboard: string, qmk: string): (r: string)
    ensures StartsWith(r, Header(SafeName(keyboard)))
  {
    var safe := SafeName(keyboard);
    FillAppend(HeaderTemplate(), RecipeTemplate(), keyboard, safe, qmk);
    FillHeader(keyboard, safe, qmk);
    Fill(HeaderTemplate() + RecipeTemplate(), keyboard, safe, qmk)
  }

  /**
   * The whole makefile: the blocks of the keyboards, in list order. Every
   * block is non-empty, so the file is empty exactly when no keyboard is left.
   */
  function Plan(keyboards: seq<string>, qmk: string): (r: string)
    ensures r == "" <==> keyboards == []
  {
    if keyboards == [] then ""
    else Plan(keyboards[..|keyboards| - 1], qmk) + Block(keyboards[|keyboards| - 1], qmk)
  }

  /** The plan of two lists one after the other is their two plans one after the other. */
  lemma {:induction false} PlanAppend(a: seq<string>, b: seq<string>, qmk: string)
    ensures Plan(a + b, qmk) == Plan(a, qmk) + Plan(b, qmk)
    decreases |b|
  {
    if b == [] {
      assert a + b == a;
    } else {
      var last := |b| - 1;
      assert (a + b)[..|a + b| - 1] == a + b[..last];
      assert (a + b)[|a + b| - 1] == b[last];
      PlanAppend(a, b[..last], qmk);
      var block := Block(b[last], qmk);
      assert Plan(a + b, qmk) == Plan(a + b[..last], qmk) + block;
      assert Plan(b, qmk) == Plan(b[..last], qmk) + block;
    }
  }

  /**
   * Block `i` of the plan is the block of keyboard `i`: the plan is the blocks
   * of the keyboards before it, then its block, then those after it.
   */
  lemma PlanAt(keyboards: seq<string>, qmk: string, i: nat)
    requires i < |keyboards|
    ensures Plan(keyboards, qmk)
            == Plan(keyboards[..i], qmk) + Block(keyboards[i], qmk) + Plan(keyboards[i + 1..], qmk)
  {
    assert keyboards == keyboards[..i] + [keyboards[i]] + keyboards[i + 1..];
    PlanAppend(keyboards[..i] + [keyboards[i]], keyboards[i + 1..], qmk);
    PlanAppend(keyboards[..i], [keyboards[i]], qmk);
    assert Plan([keyboards[i]], qmk) == Block(keyboards[i], qmk) by {
      assert [keyboards[i]][..0] == [];
    }
  }

  /** The loop that writes the makefile, block by block, into an initially empty file. */
  method WritePlan(keyboards: seq<string>, qmk: string) returns (text: string)
    ensures text == Plan(keyboards, qmk)
  {
    text := "";
    for i := 0 to |keyboards|
      invariant text == Plan(keyboards[..i], qmk)
    {
      assert keyboards[..i + 1][..i] == keyboards[..i];
      text := text + Block(keyboards[i], qmk);
    }
    assert keyboards[..|keyboards|] == keyboards;
  }

  /** The outcome printed for one keyboard once its build has run. */
  datatype Status = Ok | Warnings | Errors

  /** How serious an outcome is: OK, then WARNINGS, then ERRORS. */
  function Severity(s: Status): nat
  {
    match s
    case Ok => 0
    case Warnings => 1
    case Errors => 2
  }

  /** `marker` occurs in `text` starting at position `i`. */
  predicate OccursAt(text: string, marker: string, i: int)
  {
    0 <= i && i + |marker| <= |text| && text[i..i + |marker|] == marker
  }

  /** `grep` of a fixed marker: does `marker` occur anywhere in `text`. */
  function Contains(text: string, marker: string): (r: bool)
    ensures r <==> exists i :: OccursAt(text, marker, i)
    decreases |text|
  {
    if |text| < |marker| then false
    else if text[..|marker|] == marker then
      assert OccursAt(text, marker, 0);
      true
    else
      var rest := Contains(text[1..], marker);
      assert rest ==> exists i :: OccursAt(text, marker, i) by {
        if rest {
          var i :| OccursAt(text[1..], marker, i);
          assert text[1..][i..i + |marker|] == text[i + 1..i + 1 + |marker|];
          assert OccursAt(text, marker, i + 1);
        }
      }
      assert (exists i :: OccursAt(text, marker, i)) ==> rest by {
        if exists i :: OccursAt(text, marker, i) {
          var i :| OccursAt(text, marker, i);
          assert i != 0;
          assert text[1..][i - 1..i - 1 + |marker|] == text[i..i + |marker|];
          assert OccursAt(text[1..], marker, i - 1);
        }
      }
      rest
  }

  const ErrorsMarker := "[ERRORS]"
  const WarningsMarker := "[WARNINGS]"

  /**
   * The two `grep`s of a block and the fallback `printf`, tried in order: ERRORS when the log
   * contains `[ERRORS]`, else WARNINGS when it contains `[WARNINGS]`, else OK.
   */
  function Classify(log: string): (s: Status)
    ensures s == Errors <==> exists i :: OccursAt(log, ErrorsMarker, i)
    ensures s == Warnings <==> (!exists i :: OccursAt(log, ErrorsMarker, i)) && exists i :: OccursAt(log, WarningsMarker, i)
  {
    if Contains(log, ErrorsMarker) then Errors
    else if Contains(log, WarningsMarker) then Warnings
    else Ok
  }

  /** A log with both markers is classified ERRORS: ERRORS takes precedence. */
  lemma ErrorsTakePrecedence(log: string, i: int, j: int)
    requires OccursAt(log, ErrorsMarker, i) && OccursAt(log, WarningsMarker, j)
    ensures Classify(log) == Errors
  {
  }

  /** A log with neither marker is classified OK. */
  lemma NoMarkerIsOk(log: string)
    requires forall i :: !OccursAt(log, ErrorsMarker, i) && !OccursAt(log, WarningsMarker, i)
    ensures Classify(log) == Ok
  {
  }

  /** A marker found in a text is still found once more text is appended. */
  lemma OccursInAppend(a: string, b: string, marker: string, i: int)
    requires OccursAt(a, marker, i)
    ensures OccursAt(a + b, marker, i)
  {
    assert (a + b)[i..i + |marker|] == a[i..i + |marker|];
  }

  /**
   * The build appends its output to the log (`>>`): more output can only make
   * the classification more serious, never less.
   */
  lemma ClassifyMonotone(log: string, more: string)
    ensures Severity(Classify(log)) <= Severity(Classify(log + more))
  {
    if Classify(log) == Errors {
      var i :| OccursAt(log, ErrorsMarker, i);
      OccursInAppend(log, more, ErrorsMarker, i);
    } else if Classify(log) == Warnings {
      var i :| OccursAt(log, WarningsMarker, i);
      OccursInAppend(log, more, WarningsMarker, i);
    }
  }
}
