/**
 * `BMPriceTextField`: a text field whose buffer its own delegate callbacks
 * read and rewrite in place. The configuration is public and may be changed
 * between calls; the callbacks never change it. The notifications sent to the
 * price delegate are recorded in a ghost log.
 */
module PriceField {
  import opened Wrappers
  import opened Text
  import opened PriceRules

  class PriceTextField {
    /** The field's buffer (`text`, which UIKit types as optional). */
    var text: Option<string>
    var isDecimal: bool
    var decimalPlace: Option<nat>
    var max: Option<real>
    var min: Option<real>
    /** The numeric conversion of the host platform. */
    const parse: Parser
    /** The delegate callbacks sent so far, oldest first. */
    ghost var notifications: seq<Notification>

    /** The current settings as one value. */
    function Settings(): Config
      reads this
    {
      Config(isDecimal, decimalPlace, max, min)
    }

    /** `init(frame:isDecimal:decimalPlace:)`: no bounds, an empty buffer. */
    constructor (isDecimal: bool, decimalPlace: Option<nat>, parse: Parser)
      ensures this.isDecimal == isDecimal && this.decimalPlace == decimalPlace
      ensures max == None && min == None
      ensures text == Some("") && this.parse == parse && notifications == []
    {
      this.isDecimal := isDecimal;
      this.decimalPlace := decimalPlace;
      this.parse := parse;
      max := None;
      min := None;
      text := Some("");
      notifications := [];
    }

    /** `textField(_:shouldChangeCharactersIn:replacementString:)`. The range
        is not consulted; `forwarded` is the price delegate's own answer
        (true when it has none). */
    method ShouldChangeCharacters(replacement: string, forwarded: bool) returns (allow: bool)
      modifies this`text, this`notifications
      ensures var v := Keystroke(Settings(), parse, old(text), replacement, forwarded);
              allow == v.accept && text == v.text && notifications == old(notifications) + v.notes
    {
      ghost var gate := Structural(isDecimal, text, replacement);
      // 1. the decimal point and the leading zero
      if isDecimal {
        if text.Some? && |text.value| > 0 {
          var str := text.value;
          if replacement == "." && '.' in str {
            assert gate == Halt(text);
            return false;
          }
          if str == "0" && |replacement| > 0 {
            assert gate == Halt(Some("0."));
            text := Some("0.");
            return false;
          }
        } else {
          if replacement == "." {
            text := Some("0");
          } else if replacement == "0" {
            assert gate == Halt(Some("0."));
            text := Some("0.");
            return false;
          }
        }
      } else {
        if replacement == "0" && (text == None || text == Some("")) {
          assert gate == Halt(text);
          return false;
        }
      }
      assert gate == Pass(text);
      ghost var limits := Limits(Settings(), parse, text, replacement, forwarded);

      // 2. digits after the decimal point
      if decimalPlace.Some? {
        var place := decimalPlace.value;
        if text.Some? && |text.value| > 0 && |replacement| > 0 {
          var pieces := SplitDot(text.value);
          if |pieces| == 2 {
            var last := pieces[|pieces| - 1];
            if |last| + |replacement| > place {
              assert limits == Verdict(false, text, [DecimalPlaceOverflow]);
              notifications := notifications + [DecimalPlaceOverflow];
              return false;
            }
          }
        }
      }
      assert !DecimalPlaceOverflows(decimalPlace, text, replacement);

      // 3. the maximum
      if max.Some? {
        if |replacement| > 0 {
          var candidate := text.GetOr("0") + replacement;
          var value := parse(candidate).GetOr(0.0);
          if value > max.value {
            assert limits == Verdict(false, text, [MaxValueOverflow]);
            notifications := notifications + [MaxValueOverflow];
            return false;
          }
        }
      }
      assert limits == Verdict(forwarded, text, []);
      assert old(notifications) + [] == old(notifications);
      return forwarded;
    }

    /** `textFieldShouldEndEditing`; `forwarded` is the price delegate's own
        answer (true when it has none). */
    method ShouldEndEditing(forwarded: bool) returns (allow: bool)
      modifies this`notifications
      ensures var v := EndEditing(Settings(), parse, text, forwarded);
              allow == v.allow && notifications == old(notifications) + v.notes
    {
      var result := false;
      if text.Some? && |text.value| > 0 {
        var pieces := SplitDot(text.value);
        result := |pieces| < 3;
      } else {
        result := true;
      }

      if min.Some? && result {
        if text.Some? && |text.value| > 0 {
          var value := parse(text.value).GetOr(0.0);
          if value < min.value {
            notifications := notifications + [MinValueOverflow];
            result := false;
          }
        }
      }

      if !result {
        return false;
      }
      return forwarded;
    }

    /** `textFieldDidChange`: called on every `.editingChanged` event, so after
        each accepted keystroke as well as after predictive input, which
        bypasses the per-keystroke check. A buffer typed on the keypad is left
        as it is (`SessionSurvivesSanitiser`). */
    method DidChange()
      modifies this`text, this`notifications
      ensures var r := Reconcile(isDecimal, parse, old(text));
              text == r.text && notifications == old(notifications) + r.notes
    {
      if text.Some? && |text.value| > 0 {
        var str := text.value;
        if parse(str).Some? {
          notifications := notifications + [ContentChanged];
          return;
        }
        var allowed := if isDecimal then DecimalOnly else NumberOnly;
        var kept: string := "";
        for i := 0 to |str|
          invariant kept == Filter(str[..i], allowed)
          invariant text == old(text) && notifications == old(notifications)
        {
          FilterAppend(str[..i], [str[i]], allowed);
          assert str[..i + 1] == str[..i] + [str[i]];
          if str[i] in allowed {
            kept := kept + [str[i]];
          }
        }
        assert str[..|str|] == str;
        assert old(notifications) + [] == old(notifications);
        text := Some(kept);
      } else {
        notifications := notifications + [ContentChanged];
      }
    }
  }
}
