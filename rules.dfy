/**
 * The decisions of the price text field, as functions of its configuration,
 * its buffer and the proposed replacement: the per-keystroke validator, the
 * end-of-edit validator and the predictive-input sanitiser. The class in
 * field.dfy runs them step by step on its own state; these functions are
 * what its methods are proved to compute.
 */
module PriceRules {
  import opened Wrappers
  import opened Text

  /** The alphabet of the decimal mode (`kDecimalOnly`). */
  const DecimalOnly: string := ".0123456789"
  /** The alphabet of the integer mode (`kNumberOnly`). */
  const NumberOnly: string := "0123456789"

  /** The characters the sanitiser keeps, and the characters of the keypad the
      field selects for its mode. */
  function Alphabet(isDecimal: bool): (a: string)
    ensures '.' in a <==> isDecimal
    ensures forall c :: c in "0123456789" ==> c in a
  {
    if isDecimal then DecimalOnly else NumberOnly
  }

  /** The host's numeric conversion (`Double(_:)`), left abstract. */
  type Parser = string -> Option<real>

  /** The value the bounds are compared with: an unparseable text counts as 0. */
  function ValueOf(parse: Parser, s: string): real {
    parse(s).GetOr(0.0)
  }

  /** The field's settings: `isDecimal`, `decimalPlace`, `max`, `min`. */
  datatype Config = Config(isDecimal: bool, decimalPlace: Option<nat>, max: Option<real>, min: Option<real>)

  /** The optional callbacks of the price delegate, as entries of a log. */
  datatype Notification = ContentChanged | DecimalPlaceOverflow | MaxValueOverflow | MinValueOverflow

  /** Outcome of the structural step: stop with `false`, or go on to the
      limits; either way with the buffer as the step left it. */
  datatype Gate = Halt(text: Option<string>) | Pass(text: Option<string>)

  /** Outcome of a keystroke: the answer, the buffer afterwards (before the
      host applies an accepted edit) and the notifications sent. */
  datatype Verdict = Verdict(accept: bool, text: Option<string>, notes: seq<Notification>)

  /** Outcome of the end-of-edit check. */
  datatype EndVerdict = EndVerdict(allow: bool, notes: seq<Notification>)

  /** Outcome of the sanitiser: the buffer afterwards and the notifications sent. */
  datatype Reconciled = Reconciled(text: Option<string>, notes: seq<Notification>)

  /** A missing or empty buffer. */
  predicate IsEmpty(t: Option<string>) {
    t.None? || t.value == []
  }

  // ---------------------------------------------------------------------
  // Per keystroke

  /** Step 1: the decimal point and the leading zero. Only an edit into an
      empty buffer or into "0" rewrites the buffer, and only to "0" or "0.". */
  function Structural(isDecimal: bool, text: Option<string>, rep: string): (g: Gate)
    ensures g.text != text ==> (IsEmpty(text) || text == Some("0")) && (g.text == Some("0.") || g.text == Some("0"))
    ensures !isDecimal ==> g.text == text
    ensures g.Halt? ==> rep != []
  {
    if isDecimal then
      if !IsEmpty(text) then
        if rep == "." && '.' in text.value then Halt(text)
        else if text.value == "0" && |rep| > 0 then Halt(Some("0."))
        else Pass(text)
      else if rep == "." then Pass(Some("0"))
      else if rep == "0" then Halt(Some("0."))
      else Pass(text)
    else if rep == "0" && IsEmpty(text) then Halt(text)
    else Pass(text)
  }

  /** Step 2: the buffer already has exactly two pieces and the fraction would
      grow past the limit. The caret position plays no part. */
  predicate DecimalPlaceOverflows(place: Option<nat>, text: Option<string>, rep: string) {
    && place.Some?
    && !IsEmpty(text)
    && |rep| > 0
    && var pieces := SplitDot(text.value);
    && |pieces| == 2
    && |pieces[1]| + |rep| > place.value
  }

  /** Step 3: the buffer (or "0" when there is none) followed by the
      replacement is worth more than the maximum. */
  predicate MaxValueOverflows(max: Option<real>, parse: Parser, text: Option<string>, rep: string) {
    max.Some? && |rep| > 0 && ValueOf(parse, text.GetOr("0") + rep) > max.value
  }

  /** Steps 2 and 3, then the delegate's own answer `forwarded`. They never
      touch the buffer and send at most one notification, with a rejection. */
  function Limits(cfg: Config, parse: Parser, text: Option<string>, rep: string, forwarded: bool): (v: Verdict)
    ensures v.text == text
    ensures |v.notes| <= 1 && (v.notes != [] ==> !v.accept)
    ensures rep == [] ==> v == Verdict(forwarded, text, [])
  {
    if DecimalPlaceOverflows(cfg.decimalPlace, text, rep) then Verdict(false, text, [DecimalPlaceOverflow])
    else if MaxValueOverflows(cfg.max, parse, text, rep) then Verdict(false, text, [MaxValueOverflow])
    else Verdict(forwarded, text, [])
  }

  /** The answer to `textField(_:shouldChangeCharactersIn:replacementString:)`.
      At most one notification, only with a rejection; the buffer changes only
      by the rewrites to "0" and "0."; a deletion is always passed on. */
  function Keystroke(cfg: Config, parse: Parser, text: Option<string>, rep: string, forwarded: bool): (v: Verdict)
    ensures |v.notes| <= 1 && (v.notes != [] ==> !v.accept)
    ensures v.text != text ==> (IsEmpty(text) || text == Some("0")) && (v.text == Some("0.") || v.text == Some("0"))
    ensures rep == [] ==> v == Verdict(forwarded, text, [])
  {
    match Structural(cfg.isDecimal, text, rep)
    case Halt(t) => Verdict(false, t, [])
    case Pass(t) => Limits(cfg, parse, t, rep, forwarded)
  }

  // ---------------------------------------------------------------------
  // End of editing

  /** The answer to `textFieldShouldEndEditing`: a non-empty buffer with three
      or more pieces is refused; otherwise one worth less than the minimum is
      refused with a notification; otherwise the delegate decides. */
  function EndEditing(cfg: Config, parse: Parser, text: Option<string>, forwarded: bool): (v: EndVerdict)
    ensures |v.notes| <= 1 && (v.notes != [] ==> !v.allow)
    ensures IsEmpty(text) ==> v == EndVerdict(forwarded, [])
  {
    var shapeOk := IsEmpty(text) || |SplitDot(text.value)| < 3;
    if !shapeOk then EndVerdict(false, [])
    else if cfg.min.Some? && !IsEmpty(text) && ValueOf(parse, text.value) < cfg.min.value then
      EndVerdict(false, [MinValueOverflow])
    else EndVerdict(forwarded, [])
  }

  // ---------------------------------------------------------------------
  // Predictive input

  /** What `textFieldDidChange` leaves: an empty or numeric buffer is kept and
      reported; any other is cut down to the mode's alphabet, silently. */
  function Reconcile(isDecimal: bool, parse: Parser, text: Option<string>): (r: Reconciled)
    ensures text.None? ==> r.text.None?
    ensures text.Some? ==> r.text.Some? && |r.text.value| <= |text.value|
  {
    if IsEmpty(text) || parse(text.value).Some? then Reconciled(text, [ContentChanged])
    else Reconciled(Some(Filter(text.value, Alphabet(isDecimal))), [])
  }
}
