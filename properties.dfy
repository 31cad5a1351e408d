/**
 * What the field's decisions promise, proved about the functions of
 * PriceRules (and so, through their postconditions, about the methods of
 * PriceTextField).
 */
module PriceProperties {
  import opened Wrappers
  import opened Text
  import opened PriceRules

  // ---------------------------------------------------------------------
  // Step 1: the decimal point and the leading zero

  /** Decimal mode: a second "." is refused, silently, buffer untouched. */
  lemma SecondDotRejected(cfg: Config, parse: Parser, s: string, forwarded: bool)
    requires cfg.isDecimal && '.' in s
    ensures Keystroke(cfg, parse, Some(s), ".", forwarded) == Verdict(false, Some(s), [])
  {
  }

  /** Decimal mode: anything typed after a lone "0" turns the buffer into "0."
      and is itself refused. */
  lemma LeadingZeroRewritten(cfg: Config, parse: Parser, rep: string, forwarded: bool)
    requires cfg.isDecimal && rep != []
    ensures Keystroke(cfg, parse, Some("0"), rep, forwarded) == Verdict(false, Some("0."), [])
  {
  }

  /** Decimal mode: "0" into an empty buffer turns it into "0." and is refused. */
  lemma EmptyZeroRewritten(cfg: Config, parse: Parser, t: Option<string>, forwarded: bool)
    requires cfg.isDecimal && IsEmpty(t)
    ensures Keystroke(cfg, parse, t, "0", forwarded) == Verdict(false, Some("0."), [])
  {
  }

  /** Decimal mode: "." into an empty buffer turns it into "0" and is not
      refused there: it goes on to the limits, which see the buffer "0". Of
      those only the maximum can still refuse it. */
  lemma EmptyDotBecomesZero(cfg: Config, parse: Parser, t: Option<string>, forwarded: bool)
    requires cfg.isDecimal && IsEmpty(t)
    ensures Keystroke(cfg, parse, t, ".", forwarded) == Limits(cfg, parse, Some("0"), ".", forwarded)
    ensures Keystroke(cfg, parse, t, ".", forwarded) ==
      if MaxValueOverflows(cfg.max, parse, Some("0"), ".") then Verdict(false, Some("0"), [MaxValueOverflow])
      else Verdict(forwarded, Some("0"), [])
  {
  }

  /** Decimal mode: every edit other than those four gets past step 1 with
      the buffer as it was, and is decided by the limits alone. */
  lemma DecimalPassesOtherwise(cfg: Config, parse: Parser, t: Option<string>, rep: string, forwarded: bool)
    requires cfg.isDecimal
    requires !(!IsEmpty(t) && rep == "." && '.' in t.value)
    requires !(t == Some("0") && rep != [])
    requires !(IsEmpty(t) && (rep == "." || rep == "0"))
    ensures Structural(true, t, rep) == Pass(t)
    ensures Keystroke(cfg, parse, t, rep, forwarded) == Limits(cfg, parse, t, rep, forwarded)
  {
  }

  /** Integer mode: "0" into a missing or empty buffer is refused, silently,
      buffer untouched; every other edit gets past step 1 as it is. */
  lemma IntegerLeadingZero(cfg: Config, parse: Parser, t: Option<string>, rep: string, forwarded: bool)
    requires !cfg.isDecimal
    ensures rep == "0" && IsEmpty(t) ==> Keystroke(cfg, parse, t, rep, forwarded) == Verdict(false, t, [])
    ensures !(rep == "0" && IsEmpty(t)) ==> Keystroke(cfg, parse, t, rep, forwarded) == Limits(cfg, parse, t, rep, forwarded)
  {
  }

  // ---------------------------------------------------------------------
  // Steps 2 and 3: the limits

  /** The decimal-place limit refuses, with exactly one DecimalPlaceOverflow,
      exactly when the buffer is non-empty, the replacement is non-empty, the
      buffer has two pieces and the second piece plus the replacement is
      longer than the limit. */
  lemma DecimalPlaceOverflowIff(cfg: Config, parse: Parser, s: string, rep: string, forwarded: bool, n: nat)
    requires cfg.decimalPlace == Some(n)
    ensures var v := Limits(cfg, parse, Some(s), rep, forwarded);
      (v.notes == [DecimalPlaceOverflow]) <==>
      (s != [] && rep != [] && |SplitDot(s)| == 2 && |SplitDot(s)[1]| + |rep| > n)
    ensures var v := Limits(cfg, parse, Some(s), rep, forwarded);
      v.notes == [DecimalPlaceOverflow] ==> !v.accept && v.text == Some(s)
  {
  }

  /** The maximum refuses, with exactly one MaxValueOverflow, exactly when the
      decimal-place limit has not refused, the replacement is non-empty and the
      buffer followed by the replacement is worth more than the maximum. */
  lemma MaxValueOverflowIff(cfg: Config, parse: Parser, t: Option<string>, rep: string, forwarded: bool, m: real)
    requires cfg.max == Some(m)
    ensures var v := Limits(cfg, parse, t, rep, forwarded);
      (v.notes == [MaxValueOverflow]) <==>
      (!DecimalPlaceOverflows(cfg.decimalPlace, t, rep) && rep != [] && ValueOf(parse, t.GetOr("0") + rep) > m)
    ensures var v := Limits(cfg, parse, t, rep, forwarded);
      v.notes == [MaxValueOverflow] ==> !v.accept && v.text == t
  {
  }

  /** A value equal to the maximum is let through. */
  lemma MaxValueInclusive(cfg: Config, parse: Parser, t: Option<string>, rep: string, forwarded: bool)
    requires cfg.max.Some? && !DecimalPlaceOverflows(cfg.decimalPlace, t, rep)
    requires ValueOf(parse, t.GetOr("0") + rep) == cfg.max.value
    ensures Limits(cfg, parse, t, rep, forwarded) == Verdict(forwarded, t, [])
  {
  }

  /** With every step passed, the delegate's own answer is the answer. */
  lemma AbsentDelegateAccepts(cfg: Config, parse: Parser, t: Option<string>, rep: string)
    requires Structural(cfg.isDecimal, t, rep).Pass?
    requires !DecimalPlaceOverflows(cfg.decimalPlace, Structural(cfg.isDecimal, t, rep).text, rep)
    requires !MaxValueOverflows(cfg.max, parse, Structural(cfg.isDecimal, t, rep).text, rep)
    ensures Keystroke(cfg, parse, t, rep, true).accept
  {
  }

  /** With a decimal-place limit of 0 a buffer ending in "." still takes one
      digit: "5." splits into the single piece "5", so the limit is not
      consulted and "5.9" results. */
  lemma DecimalPlaceZeroAdmitsOneDigit(cfg: Config, parse: Parser)
    requires cfg.isDecimal && cfg.decimalPlace == Some(0) && cfg.max.None?
    ensures Keystroke(cfg, parse, Some("5."), "9", true) == Verdict(true, Some("5."), [])
    ensures !FractionWithin("5." + "9", 0)
  {
    SplitDotOneDot("5.", 1);
    assert "5." + "9" == "5.9";
    assert !FractionWithin("5.9", 0) by {
      assert "5.9"[1] == '.';
    }
  }

  // ---------------------------------------------------------------------
  // A session of keystrokes

  /** A key of the keypad, or the delete key. The caret stays at the end of
      the buffer, so the host appends a typed character and deletes the last
      one. */
  datatype Key = Type(c: char) | Backspace

  function Replacement(k: Key): (rep: string)
    ensures k.Backspace? <==> rep == []
  {
    match k
    case Type(c) => [c]
    case Backspace => []
  }

  /** The buffer once the host has acted on the verdict for key `k`. */
  function Apply(k: Key, v: Verdict): (t: Option<string>)
    ensures !v.accept ==> t == v.text
    ensures k.Type? && v.accept ==> t == Some(v.text.GetOr("") + [k.c])
  {
    if !v.accept then v.text
    else match k
      case Type(c) => Some(v.text.GetOr("") + [c])
      case Backspace =>
        if v.text.Some? && v.text.value != [] then Some(v.text.value[..|v.text.value| - 1]) else v.text
  }

  /** Every dot is followed by at most `n` characters. */
  predicate FractionWithin(s: string, n: nat) {
    forall i :: 0 <= i < |s| && s[i] == '.' ==> |s| - 1 - i <= n
  }

  /** The shape the per-keystroke check keeps the buffer in. Decimal mode: at
      most one dot, not in front, no digit right after a leading zero, and no
      more fraction digits than the limit. Integer mode: no dot and no leading
      zero. */
  predicate WellFormed(cfg: Config, s: string) {
    if cfg.isDecimal then
      && multiset(s)['.'] <= 1
      && (s == [] || s[0] != '.')
      && (|s| >= 2 && s[0] == '0' ==> s[1] == '.')
      && (cfg.decimalPlace.Some? ==> FractionWithin(s, cfg.decimalPlace.value))
    else
      '.' !in s && (s == [] || s[0] != '0')
  }

  /** A string with at most one dot has nothing dotted on either side of it. */
  lemma DotAlone(s: string, i: nat)
    requires multiset(s)['.'] <= 1 && i < |s| && s[i] == '.'
    ensures '.' !in s[..i] && '.' !in s[i + 1..]
  {
    assert s == s[..i] + [s[i]] + s[i + 1..];
    assert multiset(s) == multiset(s[..i]) + multiset([s[i]]) + multiset(s[i + 1..]);
  }

  /** Appending a non-dot to a well-formed decimal buffer that the limits
      passed keeps the fraction within the limit, provided the limit is at
      least 1. */
  lemma AppendKeepsFraction(cfg: Config, parse: Parser, s: string, c: char, forwarded: bool, n: nat)
    requires cfg.isDecimal && cfg.decimalPlace == Some(n) && n >= 1
    requires WellFormed(cfg, s) && s != [] && c != '.'
    requires !DecimalPlaceOverflows(cfg.decimalPlace, Some(s), [c])
    ensures FractionWithin(s + [c], n)
  {
    var u := s + [c];
    forall i | 0 <= i < |u| && u[i] == '.'
      ensures |u| - 1 - i <= n
    {
      assert i < |s| && s[i] == '.';
      if i + 1 < |s| {
        DotAlone(s, i);
        SplitDotOneDot(s, i);
      }
    }
  }

  /** Deleting the last character keeps the buffer well formed. */
  lemma BackspaceKeepsWellFormed(cfg: Config, s: string)
    requires WellFormed(cfg, s) && s != []
    ensures WellFormed(cfg, s[..|s| - 1])
  {
    var u := s[..|s| - 1];
    assert s == u + [s[|s| - 1]];
    assert multiset(s) == multiset(u) + multiset([s[|s| - 1]]);
  }

  /** Decimal mode: a keypad character typed into an empty buffer leaves one
      of "0", "0." or the character itself. */
  lemma DecimalTypingIntoEmpty(cfg: Config, parse: Parser, t: Option<string>, c: char, forwarded: bool)
    requires cfg.isDecimal && IsEmpty(t) && c in DecimalOnly
    ensures WellFormed(cfg, Apply(Type(c), Keystroke(cfg, parse, t, [c], forwarded)).GetOr(""))
  {
    var v := Keystroke(cfg, parse, t, [c], forwarded);
    var u := Apply(Type(c), v).GetOr("");
    if c == '.' {
      assert v.text == Some("0");
      assert u == "0" || u == "0.";
    } else if c == '0' {
      assert u == "0.";
    } else {
      assert u == "" || u == [c];
    }
  }

  /** Decimal mode: a keypad character typed into a non-empty well-formed
      buffer keeps it well formed. */
  lemma DecimalTypingIntoBuffer(cfg: Config, parse: Parser, s: string, c: char, forwarded: bool)
    requires cfg.isDecimal && cfg.decimalPlace != Some(0) && c in DecimalOnly
    requires s != [] && WellFormed(cfg, s)
    ensures WellFormed(cfg, Apply(Type(c), Keystroke(cfg, parse, Some(s), [c], forwarded)).GetOr(""))
  {
    var v := Keystroke(cfg, parse, Some(s), [c], forwarded);
    var u := Apply(Type(c), v).GetOr("");
    if s == "0" {
      assert u == "0.";
    } else if !v.accept {
      assert u == s;
    } else {
      assert u == s + [c];
      assert multiset(u) == multiset(s) + multiset([c]);
      if c != '.' && cfg.decimalPlace.Some? {
        AppendKeepsFraction(cfg, parse, s, c, forwarded, cfg.decimalPlace.value);
      }
    }
  }

  /** Integer mode: a typed digit keeps the buffer well formed. */
  lemma IntegerTypingKeepsWellFormed(cfg: Config, parse: Parser, t: Option<string>, c: char, forwarded: bool)
    requires !cfg.isDecimal && c in NumberOnly
    requires WellFormed(cfg, t.GetOr(""))
    ensures WellFormed(cfg, Apply(Type(c), Keystroke(cfg, parse, t, [c], forwarded)).GetOr(""))
  {
    var v := Keystroke(cfg, parse, t, [c], forwarded);
    if v.accept {
      assert Apply(Type(c), v).GetOr("") == t.GetOr("") + [c];
    }
  }

  /** One keystroke keeps the buffer well formed, when the key comes from the
      mode's keypad and the decimal-place limit, if any, is at least 1. */
  lemma KeystrokeKeepsWellFormed(cfg: Config, parse: Parser, t: Option<string>, k: Key, forwarded: bool)
    requires k.Type? ==> k.c in Alphabet(cfg.isDecimal)
    requires cfg.isDecimal ==> cfg.decimalPlace != Some(0)
    requires WellFormed(cfg, t.GetOr(""))
    ensures WellFormed(cfg, Apply(k, Keystroke(cfg, parse, t, Replacement(k), forwarded)).GetOr(""))
  {
    match k
    case Backspace =>
      if t.Some? && t.value != [] {
        BackspaceKeepsWellFormed(cfg, t.value);
      }
    case Type(c) =>
      if cfg.isDecimal && IsEmpty(t) {
        DecimalTypingIntoEmpty(cfg, parse, t, c, forwarded);
      } else if cfg.isDecimal {
        DecimalTypingIntoBuffer(cfg, parse, t.value, c, forwarded);
      } else {
        IntegerTypingKeepsWellFormed(cfg, parse, t, c, forwarded);
      }
  }

  /** The buffer after a run of keys, each answered by the field with no
      price delegate of its own. */
  function Session(cfg: Config, parse: Parser, t: Option<string>, keys: seq<Key>): Option<string>
    decreases |keys|
  {
    if keys == [] then t
    else Session(cfg, parse, Apply(keys[0], Keystroke(cfg, parse, t, Replacement(keys[0]), true)), keys[1..])
  }

  /** Every run of keypad keys keeps a well-formed buffer well formed. */
  lemma {:induction false} SessionKeepsWellFormed(cfg: Config, parse: Parser, t: Option<string>, keys: seq<Key>)
    requires forall j :: 0 <= j < |keys| && keys[j].Type? ==> keys[j].c in Alphabet(cfg.isDecimal)
    requires cfg.isDecimal ==> cfg.decimalPlace != Some(0)
    requires WellFormed(cfg, t.GetOr(""))
    ensures WellFormed(cfg, Session(cfg, parse, t, keys).GetOr(""))
    decreases |keys|
  {
    if keys != [] {
      KeystrokeKeepsWellFormed(cfg, parse, t, keys[0], true);
      var next := Apply(keys[0], Keystroke(cfg, parse, t, Replacement(keys[0]), true));
      forall j | 0 <= j < |keys[1..]| && keys[1..][j].Type?
        ensures keys[1..][j].c in Alphabet(cfg.isDecimal)
      {
        assert keys[1..][j] == keys[j + 1];
      }
      SessionKeepsWellFormed(cfg, parse, next, keys[1..]);
    }
  }

  /** The dot count the second-dot refusal keeps, whatever the limits: at
      most one dot in decimal mode, none in integer mode. */
  predicate FewDots(cfg: Config, s: string) {
    if cfg.isDecimal then multiset(s)['.'] <= 1 else '.' !in s
  }

  /** Decimal mode: a keypad character typed into a non-empty buffer keeps
      at most one dot, for every limit: a second "." is refused. */
  lemma DecimalTypingKeepsFewDots(cfg: Config, parse: Parser, s: string, c: char, forwarded: bool)
    requires cfg.isDecimal && s != [] && multiset(s)['.'] <= 1
    ensures multiset(Apply(Type(c), Keystroke(cfg, parse, Some(s), [c], forwarded)).GetOr(""))['.'] <= 1
  {
    var v := Keystroke(cfg, parse, Some(s), [c], forwarded);
    var u := Apply(Type(c), v).GetOr("");
    if s == "0" {
      assert u == "0.";
      assert multiset(u)['.'] == 1;
    } else if !v.accept {
      assert u == s;
    } else {
      assert c == '.' ==> '.' !in s;
      assert u == s + [c];
      assert multiset(u) == multiset(s) + multiset([c]);
    }
  }

  /** One keypad keystroke keeps the dot count, for every setting. */
  lemma KeystrokeKeepsFewDots(cfg: Config, parse: Parser, t: Option<string>, k: Key, forwarded: bool)
    requires k.Type? ==> k.c in Alphabet(cfg.isDecimal)
    requires FewDots(cfg, t.GetOr(""))
    ensures FewDots(cfg, Apply(k, Keystroke(cfg, parse, t, Replacement(k), forwarded)).GetOr(""))
  {
    var s := t.GetOr("");
    match k
    case Backspace =>
      if s != [] {
        var u := s[..|s| - 1];
        assert s == u + [s[|s| - 1]];
        assert multiset(s) == multiset(u) + multiset([s[|s| - 1]]);
      }
    case Type(c) =>
      if cfg.isDecimal && IsEmpty(t) {
        DecimalTypingIntoEmpty(cfg, parse, t, c, forwarded);
      } else if cfg.isDecimal {
        DecimalTypingKeepsFewDots(cfg, parse, s, c, forwarded);
      } else {
        var v := Keystroke(cfg, parse, t, [c], forwarded);
        if v.accept {
          assert Apply(k, v).GetOr("") == s + [c];
        }
      }
  }

  /** Every run of keypad keys keeps the dot count, for every setting. */
  lemma {:induction false} SessionKeepsFewDots(cfg: Config, parse: Parser, t: Option<string>, keys: seq<Key>)
    requires forall j :: 0 <= j < |keys| && keys[j].Type? ==> keys[j].c in Alphabet(cfg.isDecimal)
    requires FewDots(cfg, t.GetOr(""))
    ensures FewDots(cfg, Session(cfg, parse, t, keys).GetOr(""))
    decreases |keys|
  {
    if keys != [] {
      KeystrokeKeepsFewDots(cfg, parse, t, keys[0], true);
      var next := Apply(keys[0], Keystroke(cfg, parse, t, Replacement(keys[0]), true));
      forall j | 0 <= j < |keys[1..]| && keys[1..][j].Type?
        ensures keys[1..][j].c in Alphabet(cfg.isDecimal)
      {
        assert keys[1..][j] == keys[j + 1];
      }
      SessionKeepsFewDots(cfg, parse, next, keys[1..]);
    }
  }

  /** Every character of `s` is in the mode's alphabet. */
  predicate InAlphabet(cfg: Config, s: string) {
    forall k :: 0 <= k < |s| ==> s[k] in Alphabet(cfg.isDecimal)
  }

  /** One keypad keystroke leaves only alphabet characters: the rewrites "0"
      and "0." happen in decimal mode only. */
  lemma KeystrokeKeepsAlphabet(cfg: Config, parse: Parser, t: Option<string>, k: Key, forwarded: bool)
    requires k.Type? ==> k.c in Alphabet(cfg.isDecimal)
    requires InAlphabet(cfg, t.GetOr(""))
    ensures InAlphabet(cfg, Apply(k, Keystroke(cfg, parse, t, Replacement(k), forwarded)).GetOr(""))
  {
    var s := t.GetOr("");
    var v := Keystroke(cfg, parse, t, Replacement(k), forwarded);
    var u := Apply(k, v).GetOr("");
    var base := v.text.GetOr("");
    assert InAlphabet(cfg, base) by {
      if v.text != t {
        assert cfg.isDecimal && (base == "0" || base == "0.");
      }
    }
    if v.accept {
      match k
      case Type(c) =>
        assert u == base + [c];
      case Backspace =>
        assert u == base || u == base[..|base| - 1];
    }
  }

  /** Every run of keypad keys leaves only alphabet characters. */
  lemma {:induction false} SessionKeepsAlphabet(cfg: Config, parse: Parser, t: Option<string>, keys: seq<Key>)
    requires forall j :: 0 <= j < |keys| && keys[j].Type? ==> keys[j].c in Alphabet(cfg.isDecimal)
    requires InAlphabet(cfg, t.GetOr(""))
    ensures InAlphabet(cfg, Session(cfg, parse, t, keys).GetOr(""))
    decreases |keys|
  {
    if keys != [] {
      KeystrokeKeepsAlphabet(cfg, parse, t, keys[0], true);
      var next := Apply(keys[0], Keystroke(cfg, parse, t, Replacement(keys[0]), true));
      forall j | 0 <= j < |keys[1..]| && keys[1..][j].Type?
        ensures keys[1..][j].c in Alphabet(cfg.isDecimal)
      {
        assert keys[1..][j] == keys[j + 1];
      }
      SessionKeepsAlphabet(cfg, parse, next, keys[1..]);
    }
  }

  /** The sanitiser, which UIKit also runs after every accepted keystroke,
      leaves a buffer typed on the keypad from empty as it is: the sessions
      above are the buffers the field really holds. */
  lemma SessionSurvivesSanitiser(cfg: Config, parse: Parser, keys: seq<Key>)
    requires forall j :: 0 <= j < |keys| && keys[j].Type? ==> keys[j].c in Alphabet(cfg.isDecimal)
    ensures var t := Session(cfg, parse, Some(""), keys);
      Reconcile(cfg.isDecimal, parse, t).text == t
  {
    SessionKeepsAlphabet(cfg, parse, Some(""), keys);
    SessionIsPresent(cfg, parse, Some(""), keys);
    var t := Session(cfg, parse, Some(""), keys);
    ReconcileKeepsAllowed(cfg.isDecimal, parse, t.value);
  }

  /** A present buffer stays present through a session. */
  lemma {:induction false} SessionIsPresent(cfg: Config, parse: Parser, t: Option<string>, keys: seq<Key>)
    requires t.Some?
    ensures Session(cfg, parse, t, keys).Some?
    decreases |keys|
  {
    if keys != [] {
      var v := Keystroke(cfg, parse, t, Replacement(keys[0]), true);
      assert v.text.Some?;
      SessionIsPresent(cfg, parse, Apply(keys[0], v), keys[1..]);
    }
  }

  /** Typed from an empty buffer on the keypad, under any setting, the buffer
      never reaches the end-of-edit check with three or more pieces: that
      check can refuse it only for the minimum. */
  lemma TypedBufferEndsUnlessBelowMin(cfg: Config, parse: Parser, keys: seq<Key>)
    requires forall j :: 0 <= j < |keys| && keys[j].Type? ==> keys[j].c in Alphabet(cfg.isDecimal)
    ensures var s := Session(cfg, parse, Some(""), keys).GetOr("");
      !EndEditing(cfg, parse, Some(s), true).allow <==>
      s != [] && cfg.min.Some? && ValueOf(parse, s) < cfg.min.value
  {
    assert FewDots(cfg, "");
    SessionKeepsFewDots(cfg, parse, Some(""), keys);
    FewDotsEndsUnlessBelowMin(cfg, parse, Session(cfg, parse, Some(""), keys).GetOr(""));
  }

  /** A buffer with at most one dot never has three pieces. */
  lemma FewDotsSplitsInTwoAtMost(cfg: Config, s: string)
    requires FewDots(cfg, s)
    ensures |SplitDot(s)| <= 2
  {
    SplitDotCount(s);
  }

  /** Once the per-keystroke check lets a typed character into a present
      buffer, the new buffer is worth no more than the maximum. */
  lemma AcceptedTypingRespectsMax(cfg: Config, parse: Parser, s: string, c: char, forwarded: bool)
    requires cfg.max.Some?
    requires Keystroke(cfg, parse, Some(s), [c], forwarded).accept
    ensures ValueOf(parse, Apply(Type(c), Keystroke(cfg, parse, Some(s), [c], forwarded)).value) <= cfg.max.value
  {
  }

  // ---------------------------------------------------------------------
  // End of editing

  /** A missing or empty buffer is always let go (if the delegate agrees). */
  lemma EndEditingEmpty(cfg: Config, parse: Parser, t: Option<string>)
    requires IsEmpty(t)
    ensures EndEditing(cfg, parse, t, true) == EndVerdict(true, [])
  {
  }

  /** A non-empty buffer is kept in editing exactly when it has three or more
      pieces or is worth less than the minimum; only the latter is reported,
      with one MinValueOverflow. */
  lemma EndEditingRejectsIff(cfg: Config, parse: Parser, s: string)
    requires s != []
    ensures !EndEditing(cfg, parse, Some(s), true).allow <==>
      |SplitDot(s)| >= 3 || (cfg.min.Some? && ValueOf(parse, s) < cfg.min.value)
    ensures EndEditing(cfg, parse, Some(s), true).notes == [MinValueOverflow] <==>
      |SplitDot(s)| < 3 && cfg.min.Some? && ValueOf(parse, s) < cfg.min.value
    ensures EndEditing(cfg, parse, Some(s), true).notes != [MinValueOverflow] ==>
      EndEditing(cfg, parse, Some(s), true).notes == []
  {
  }

  /** A buffer worth exactly the minimum is let go. */
  lemma MinValueInclusive(cfg: Config, parse: Parser, s: string)
    requires cfg.min.Some? && |SplitDot(s)| < 3 && ValueOf(parse, s) == cfg.min.value
    ensures EndEditing(cfg, parse, Some(s), true) == EndVerdict(true, [])
  {
  }

  /** On a buffer with at most one dot the end-of-edit check refuses only
      for the minimum. */
  lemma FewDotsEndsUnlessBelowMin(cfg: Config, parse: Parser, s: string)
    requires FewDots(cfg, s)
    ensures !EndEditing(cfg, parse, Some(s), true).allow <==>
      s != [] && cfg.min.Some? && ValueOf(parse, s) < cfg.min.value
  {
    FewDotsSplitsInTwoAtMost(cfg, s);
  }

  /** Swift's split drops empty pieces, so "1..2", with two dots, passes the
      piece test as two pieces, while "1.2.3" is refused. */
  lemma EndEditingDoubleDot(cfg: Config, parse: Parser)
    requires cfg.min.None?
    ensures EndEditing(cfg, parse, Some("1..2"), true).allow
    ensures EndEditing(cfg, parse, Some("1.2.3"), true) == EndVerdict(false, [])
  {
    SplitDotDoubleDot();
    SplitDotThreePieces();
  }

  // ---------------------------------------------------------------------
  // Predictive input

  /** An empty buffer, or one that parses, is kept and reported. */
  lemma ReconcileKeepsNumbers(isDecimal: bool, parse: Parser, t: Option<string>)
    requires IsEmpty(t) || parse(t.value).Some?
    ensures Reconcile(isDecimal, parse, t) == Reconciled(t, [ContentChanged])
  {
  }

  /** Any other buffer is cut down to the mode's alphabet, order and repeats
      kept: every allowed character as often as before, nothing else. */
  lemma ReconcileFilters(isDecimal: bool, parse: Parser, s: string, c: char)
    requires s != [] && parse(s).None?
    ensures var r := Reconcile(isDecimal, parse, Some(s));
      r.notes == [] && r.text.Some? &&
      (forall k :: 0 <= k < |r.text.value| ==> r.text.value[k] in Alphabet(isDecimal)) &&
      multiset(r.text.value)[c] == if c in Alphabet(isDecimal) then multiset(s)[c] else 0
  {
    FilterCounts(s, Alphabet(isDecimal), c);
  }

  /** A buffer of allowed characters only that does not parse is left as it is. */
  lemma ReconcileKeepsAllowed(isDecimal: bool, parse: Parser, s: string)
    requires forall k :: 0 <= k < |s| ==> s[k] in Alphabet(isDecimal)
    ensures Reconcile(isDecimal, parse, Some(s)).text == Some(s)
  {
    FilterFixedPoint(s, Alphabet(isDecimal));
  }

  /** Sanitising twice leaves the same buffer as sanitising once. */
  lemma ReconcileIdempotent(isDecimal: bool, parse: Parser, t: Option<string>)
    ensures Reconcile(isDecimal, parse, Reconcile(isDecimal, parse, t).text).text ==
      Reconcile(isDecimal, parse, t).text
  {
    if !(IsEmpty(t) || parse(t.value).Some?) {
      FilterIdempotent(t.value, Alphabet(isDecimal));
    }
  }

  // ---------------------------------------------------------------------
  // A worked session: decimal mode, two places, between 1 and 100

  function Sample(): Config {
    Config(true, Some(2), Some(100.0), Some(1.0))
  }

  /** "5" then "." into an empty buffer: both accepted. */
  lemma ScenarioFirstDigits(parse: Parser)
    requires parse("5") == Some(5.0) && parse("5.") == Some(5.0)
    ensures Keystroke(Sample(), parse, Some(""), "5", true) == Verdict(true, Some(""), [])
    ensures Keystroke(Sample(), parse, Some("5"), ".", true) == Verdict(true, Some("5"), [])
  {
    assert "" + "5" == "5" && "5" + "." == "5.";
  }

  /** Two fraction digits are accepted, a third is refused with
      DecimalPlaceOverflow. */
  lemma ScenarioFraction(parse: Parser)
    requires parse("5.9") == Some(5.9) && parse("5.99") == Some(5.99)
    ensures Keystroke(Sample(), parse, Some("5."), "9", true) == Verdict(true, Some("5."), [])
    ensures Keystroke(Sample(), parse, Some("5.9"), "9", true) == Verdict(true, Some("5.9"), [])
    ensures Keystroke(Sample(), parse, Some("5.99"), "9", true) == Verdict(false, Some("5.99"), [DecimalPlaceOverflow])
  {
    SplitDotOneDot("5.", 1);
    SplitDotOneDot("5.9", 1);
    SplitDotOneDot("5.99", 1);
    assert "5." + "9" == "5.9" && "5.9" + "9" == "5.99";
  }

  /** "99" then "9" is refused with MaxValueOverflow. */
  lemma ScenarioMax(parse: Parser)
    requires parse("999") == Some(999.0)
    ensures Keystroke(Sample(), parse, Some("99"), "9", true) == Verdict(false, Some("99"), [MaxValueOverflow])
  {
    assert "99" + "9" == "999";
  }

  /** Ending the edit at "0.5" is refused with MinValueOverflow; "0" into an
      empty buffer becomes "0.". */
  lemma ScenarioMinAndZero(parse: Parser)
    requires parse("0.5") == Some(0.5)
    ensures EndEditing(Sample(), parse, Some("0.5"), true) == EndVerdict(false, [MinValueOverflow])
    ensures Keystroke(Sample(), parse, Some(""), "0", true) == Verdict(false, Some("0."), [])
  {
  }
}
