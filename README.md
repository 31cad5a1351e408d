# BMPriceTextField, modelled in Dafny

`BMPriceTextField` is a UIKit text field for prices. It is its own text-field delegate. It decides each keystroke from the buffer it holds and the replacement fragment:

- it refuses a second decimal point;
- it turns a leading "0" into "0.";
- it limits the digits after the point;
- it refuses a value above the maximum.

It also refuses to end editing while the buffer has too many dot-separated pieces or is worth less than the minimum. Predictive input does not go through the per-keystroke check. When such input leaves the buffer non-numeric, the field cuts the buffer down to its keypad alphabet. Overflows are reported through the optional callbacks of the price delegate.

The project has five modules:

- `Wrappers` (wrappers.dfy): `Option`, Swift's optional.
- `Text` (text.dfy):
  - `SplitDot` models Swift's `split(separator: ".")`, which drops empty pieces, so `"5."` gives `["5"]` and `"1..2"` gives `["1", "2"]`.
  - `Filter` is the sanitiser's alphabet filter.
  - The lemmas about both are here too.
- `PriceRules` (rules.dfy): the three decisions as functions of the configuration, the buffer and the replacement:
  - `Keystroke`, made of `Structural` (step 1) and `Limits` (steps 2 and 3);
  - `EndEditing`;
  - `Reconcile`.
- `PriceField` (field.dfy): the class `PriceTextField`.
  - Fields: `text`, `isDecimal`, `decimalPlace`, `max` and `min`, the abstract parser `parse`, and a ghost log `notifications` of the delegate callbacks sent.
  - Its three methods follow the Swift bodies step by step: early returns, in-place rewrites of `text`, and the sanitiser's character loop.
  - Each method is proved to compute the corresponding `PriceRules` function. The new `text`, the answer and the notifications appended to the log are all exactly what that function gives.
- `PriceProperties` (properties.dfy): what those functions promise.
  - Each step of the keystroke check, with both directions of each condition (`DecimalPassesOtherwise` and `IntegerLeadingZero` give the edits that step 1 lets through unchanged).
  - The end-of-edit conditions.
  - The sanitiser: it keeps allowed characters in order with their counts, and it is idempotent.
  - A dot-count invariant (`FewDots`: at most one dot in decimal mode, none in integer mode) that every keypad keystroke preserves under every setting, and so every session of keystrokes (`SessionKeepsFewDots`). As a result, the end-of-edit check on a typed buffer can refuse only for the minimum.
  - A stronger shape invariant (`WellFormed`: also no leading dot, no digit after a leading zero, the fraction within the limit) that every keypad keystroke and every session preserve when the decimal-place limit, if any, is at least 1. With a limit of 0 the source itself breaks it (`DecimalPlaceZeroAdmitsOneDigit`).

Modelling choices:

- `Double(_:)` is a parameter, `parse: string -> Option<real>`. A missing value counts as 0 in the bounds, as `?? 0.0` does in the source.
- The buffer is `Option<string>`, so the nil cases at lines 149 and 171 (`?? "0"`) are kept.
- The price delegate's own answers at lines 125 and 180 are a boolean parameter `forwarded`. A field with no price delegate passes `true`.
- A "." typed into an empty decimal buffer sets the buffer to "0" and goes on to the decimal-place and maximum checks (lines 141-142); it is not refused there (`EmptyDotBecomesZero`).

## Model

| member | source | states |
|---|---|---|
| `Text.SplitDot` | BMPriceTextField.swift:100 | the pieces of the buffer between dots: every piece non-empty and dot-free; a dot-free buffer is one piece, or none when empty |
| `Text.SplitDotAtDot` | BMPriceTextField.swift:100 | around any dot the pieces are those before it followed by those after it; with the dot-free case this fixes the pieces of every buffer |
| `Text.SplitDotDoubleDot` | BMPriceTextField.swift:100 | empty pieces are dropped: "1..2" is the two pieces "1" and "2" |
| `Text.SplitDotThreePieces` | BMPriceTextField.swift:100 | "1.2.3" is the three pieces "1", "2" and "3" |
| `Text.SplitDotOneDot` | BMPriceTextField.swift:157-159 | a buffer with one dot, not in front, splits into the integer part and, only when non-empty, the fraction; "5." is the single piece "5" |
| `Text.SplitDotCount` | BMPriceTextField.swift:100-106 | there are never more pieces than dots plus one |
| `Text.Filter` | BMPriceTextField.swift:196-202 | the kept characters are no more than the input's and all belong to the alphabet |
| `Text.FilterAppend` | BMPriceTextField.swift:197-201 | filtering a concatenation filters each part: kept characters stay in input order |
| `Text.FilterCounts` | BMPriceTextField.swift:199-200 | each allowed character is kept as often as it occurs, every other character is dropped |
| `Text.FilterFixedPoint` | BMPriceTextField.swift:195-202 | filtering leaves a string unchanged iff all its characters are in the alphabet |
| `Text.FilterIdempotent` | BMPriceTextField.swift:195-202 | filtering twice equals filtering once |
| `PriceRules.Alphabet` | BMPriceTextField.swift:29-31 | the decimal alphabet holds "." and the integer alphabet does not; both hold every digit |
| `PriceRules.Structural` | BMPriceTextField.swift:130-152 | step 1 rewrites only an empty buffer or "0", only to "0" or "0."; never touches the buffer in integer mode; never stops a deletion |
| `PriceRules.Limits` | BMPriceTextField.swift:154-180 | steps 2 and 3 keep the buffer, send at most one notification and only with a refusal, and pass a deletion to the delegate's answer |
| `PriceRules.Keystroke` | BMPriceTextField.swift:128-181 | at most one overflow notification per call, only with a refusal; the buffer changes only by the rewrites to "0"/"0." of an empty or "0" buffer; a deletion is decided by the delegate alone |
| `PriceRules.EndEditing` | BMPriceTextField.swift:95-126 | at most one notification, only with a refusal; an empty or missing buffer is decided by the delegate alone |
| `PriceRules.Reconcile` | BMPriceTextField.swift:186-207 | a missing buffer stays missing; a present one never grows |
| `PriceField.PriceTextField.constructor` | BMPriceTextField.swift:63-72 | the mode and decimal-place limit as given, no bounds, an empty buffer, nothing sent |
| `PriceField.PriceTextField.ShouldChangeCharacters` | BMPriceTextField.swift:128-181 | the answer, the rewritten buffer and the notifications appended are those of `Keystroke` on the old buffer; the settings are untouched |
| `PriceField.PriceTextField.ShouldEndEditing` | BMPriceTextField.swift:95-126 | the answer and the notifications appended are those of `EndEditing`; buffer and settings untouched |
| `PriceField.PriceTextField.DidChange` | BMPriceTextField.swift:186-207 | the new buffer and the notifications appended are those of `Reconcile` on the old buffer |
| `PriceProperties.SecondDotRejected` | BMPriceTextField.swift:131-135 | decimal mode: "." into a buffer holding "." is refused, buffer unchanged, nothing sent |
| `PriceProperties.LeadingZeroRewritten` | BMPriceTextField.swift:136-139 | decimal mode: any non-empty replacement into "0" turns the buffer into "0." and is refused, nothing sent |
| `PriceProperties.EmptyZeroRewritten` | BMPriceTextField.swift:143-146 | decimal mode: "0" into an empty or missing buffer turns it into "0." and is refused, nothing sent |
| `PriceProperties.EmptyDotBecomesZero` | BMPriceTextField.swift:141-142 | decimal mode: "." into an empty buffer sets it to "0" and goes on to the limits; only the maximum can then refuse it |
| `PriceProperties.DecimalPassesOtherwise` | BMPriceTextField.swift:131-147 | decimal mode: every edit other than a second ".", an edit into "0", and "." or "0" into an empty buffer passes step 1 with the buffer unchanged and is decided by the limits alone |
| `PriceProperties.IntegerLeadingZero` | BMPriceTextField.swift:148-151 | integer mode: "0" into an empty or missing buffer is refused, buffer unchanged; every other edit passes step 1 untouched |
| `PriceProperties.DecimalPlaceOverflowIff` | BMPriceTextField.swift:155-166 | refused with exactly one DecimalPlaceOverflow iff buffer and replacement are non-empty, the buffer has two pieces and the second piece's length plus the replacement's exceeds the limit |
| `PriceProperties.MaxValueOverflowIff` | BMPriceTextField.swift:169-178 | refused with exactly one MaxValueOverflow iff the decimal limit passed, the replacement is non-empty and the value of buffer (or "0") + replacement exceeds the maximum |
| `PriceProperties.MaxValueInclusive` | BMPriceTextField.swift:169-180 | when the decimal-place limit has passed, a candidate worth exactly the maximum is let through |
| `PriceProperties.AbsentDelegateAccepts` | BMPriceTextField.swift:180 | an edit that passes all three steps is accepted when the field has no price delegate |
| `PriceProperties.DecimalPlaceZeroAdmitsOneDigit` | BMPriceTextField.swift:157-160 | with a limit of 0 places, "9" typed into "5." is accepted and "5.9" has more fraction digits than the limit |
| `PriceProperties.AppendKeepsFraction` | BMPriceTextField.swift:155-166 | a non-dot appended to a well-formed decimal buffer that the limit passed keeps the fraction within a limit of at least 1 |
| `PriceProperties.BackspaceKeepsWellFormed` | BMPriceTextField.swift:128-181 | deleting the last character keeps the buffer well formed |
| `PriceProperties.DecimalTypingIntoEmpty` | BMPriceTextField.swift:140-147 | decimal mode: a keypad character typed into an empty buffer leaves a well-formed buffer (empty, "0", "0." or the character) |
| `PriceProperties.DecimalTypingIntoBuffer` | BMPriceTextField.swift:131-166 | decimal mode, for a decimal-place limit other than 0: a keypad character typed into a non-empty well-formed buffer keeps at most one dot, none in front, no digit after a leading zero, the fraction within the limit |
| `PriceProperties.IntegerTypingKeepsWellFormed` | BMPriceTextField.swift:148-151 | integer mode: a typed digit keeps the buffer free of dots and of a leading zero |
| `PriceProperties.KeystrokeKeepsWellFormed` | BMPriceTextField.swift:128-181 | every keypad keystroke, acted on by the host at the end of the buffer, keeps the buffer well formed, provided a decimal-place limit in decimal mode is at least 1 (with 0 the source breaks it) |
| `PriceProperties.SessionKeepsWellFormed` | BMPriceTextField.swift:128-181 | every run of keypad keystrokes keeps the buffer well formed, under the same proviso on the limit |
| `PriceProperties.DecimalTypingKeepsFewDots` | BMPriceTextField.swift:131-147 | decimal mode, any limit: a keypad character typed into a non-empty buffer with at most one dot leaves at most one dot |
| `PriceProperties.KeystrokeKeepsFewDots` | BMPriceTextField.swift:128-181 | under every setting, one keypad keystroke keeps at most one dot in decimal mode and none in integer mode |
| `PriceProperties.SessionKeepsFewDots` | BMPriceTextField.swift:128-181 | under every setting, every run of keypad keystrokes keeps that dot count |
| `PriceProperties.FewDotsSplitsInTwoAtMost` | BMPriceTextField.swift:100-106 | a buffer with at most one dot has at most two pieces |
| `PriceProperties.FewDotsEndsUnlessBelowMin` | BMPriceTextField.swift:95-124 | a buffer with at most one dot is kept in editing iff it is non-empty and worth less than the minimum |
| `PriceProperties.KeystrokeKeepsAlphabet` | BMPriceTextField.swift:128-181 | one keypad keystroke leaves only characters of the mode's alphabet; the rewrites to "0" and "0." happen in decimal mode only |
| `PriceProperties.SessionKeepsAlphabet` | BMPriceTextField.swift:128-181 | every run of keypad keystrokes leaves only characters of the mode's alphabet |
| `PriceProperties.SessionIsPresent` | BMPriceTextField.swift:137-144 | a present buffer stays present through every run of keystrokes: the field only ever writes strings into it |
| `PriceProperties.SessionSurvivesSanitiser` | BMPriceTextField.swift:186-207 | the sanitiser, also run after each accepted keystroke, leaves a buffer typed on the keypad from empty unchanged |
| `PriceProperties.TypedBufferEndsUnlessBelowMin` | BMPriceTextField.swift:95-124 | under every setting, a buffer typed on the keypad from empty is kept in editing only for the minimum: the three-piece refusal cannot happen |
| `PriceProperties.EndEditingDoubleDot` | BMPriceTextField.swift:99-106 | "1..2", with two dots, passes the piece test as two pieces; "1.2.3" is refused without a notification |
| `PriceProperties.AcceptedTypingRespectsMax` | BMPriceTextField.swift:169-178 | once a typed character is accepted into a present buffer, the new buffer is worth at most the maximum |
| `PriceProperties.EndEditingEmpty` | BMPriceTextField.swift:99-109 | an empty or missing buffer may end editing |
| `PriceProperties.EndEditingRejectsIff` | BMPriceTextField.swift:99-124 | a non-empty buffer is refused iff it has 3+ pieces or is worth less than the minimum; MinValueOverflow is sent iff the latter is the reason, nothing is sent otherwise |
| `PriceProperties.MinValueInclusive` | BMPriceTextField.swift:115 | a buffer worth exactly the minimum may end editing |
| `PriceProperties.ReconcileKeepsNumbers` | BMPriceTextField.swift:188-193 | an empty buffer or one that parses is kept and reported as changed |
| `PriceProperties.ReconcileFilters` | BMPriceTextField.swift:194-203 | a non-empty unparseable buffer becomes the alphabet's characters only, each allowed character as often as before; nothing is sent |
| `PriceProperties.ReconcileKeepsAllowed` | BMPriceTextField.swift:195-203 | a buffer of allowed characters only is left as it is |
| `PriceProperties.ReconcileIdempotent` | BMPriceTextField.swift:186-207 | sanitising twice leaves the same buffer as sanitising once |
| `PriceProperties.ScenarioFirstDigits` | BMPriceTextField.swift:128-181 | decimal mode, two places, max 100: "5" into "" and "." into "5" are accepted |
| `PriceProperties.ScenarioFraction` | BMPriceTextField.swift:155-166 | "9" into "5." and into "5.9" is accepted, into "5.99" refused with DecimalPlaceOverflow |
| `PriceProperties.ScenarioMax` | BMPriceTextField.swift:169-178 | "9" into "99" with max 100 is refused with MaxValueOverflow |
| `PriceProperties.ScenarioMinAndZero` | BMPriceTextField.swift:95-146 | ending at "0.5" with min 1 is refused with MinValueOverflow; "0" into "" becomes "0." |

## Left out

- UIKit plumbing with no decision in it is not modelled:
  - `setupUI` and its deferred dispatch to the main queue;
  - the `delegate` and `keyboardType` overrides;
  - the double-tap recogniser;
  - menu suppression in `canPerformAction`;
  - caret pinning in `selectedTextRange`;
  - the unimplemented coder initialiser.
- The keystroke-session lemmas rest on two facts about that plumbing, stated as hypotheses rather than modelled:
  - the caret is pinned to the end, so the host appends a typed character and deletes the last one (`Apply`);
  - keys come from the keypad of the mode (`Alphabet`).
- UIKit sends `.editingChanged` (line 82) after every edit, so the sanitiser also runs after each accepted keystroke. The session buffers are the real ones because they hold only alphabet characters (`SessionKeepsAlphabet`), which the sanitiser leaves as they are (`SessionSurvivesSanitiser`). Interleaving predictive input with keystrokes is not modelled.
- The forwarding to the price delegate (lines 125, 180, 225-257) is not modelled. Its answers are the `forwarded` parameter.
- The `NSRange` argument is not modelled. It is only forwarded, never consulted.
- The `print` at line 187 is not modelled.
- Numeric conversion is the abstract `parse`. The model does not capture which strings `Double(_:)` accepts, IEEE rounding, NaN and infinity, or the `CGFloat` conversion. The bounds compare exact reals. In the source `Double("nan")` is NaN, for which the comparisons at lines 115 and 173 are both false, and the sanitiser keeps "nan" because it parses; no `real` behaves that way.
- Swift's `String` works on grapheme clusters; the model works on Unicode scalars (`char`). Lengths, `split`, `==` and the sanitiser's character loop agree for the ASCII digits and "." that the keypads produce. They differ for a cluster that starts with an allowed character: the keycap "5️⃣" is one cluster in Swift, which the sanitiser drops whole, while `Filter` keeps its '5'; a "." followed by a combining mark is not a separator in Swift but is one in `SplitDot`.
- `KeystrokeKeepsWellFormed`, `SessionKeepsWellFormed`, `DecimalTypingIntoBuffer`: with a decimal-place limit of 0, decimal mode still admits the point and one fraction digit, because `split` drops the empty piece of "5." (`DecimalPlaceZeroAdmitsOneDigit`); the shape invariant is therefore promised only for limits of at least 1. The dot-count invariant (`SessionKeepsFewDots`) holds under every limit.
- The notifications sent at lines 191 and 205 are `ContentChanged` entries in the ghost log. Nothing more about the delegate is modelled.
