/**
  The validation rule `validates_as_time` registers through `validates_each`:
  at most one error per attribute, chosen in the fixed order invalid text,
  blank value, too early, too late.
*/
module TimeValidation {
  import opened Optional
  import opened TimeConfig
  import opened TimeField

  /**
    The error added for an attribute. The too-early and too-late messages are
    the configured template with the bound, rendered by the configured format,
    substituted in; the substitution itself is left to `Message`.
  */
  datatype Error =
    | InvalidFormat(message: string)
    | Blank(message: string)
    | TooEarly(template: string, bound: string)
    | TooLate(template: string, bound: string)

  /**
    The text handed to the error list; `interpolate` stands for Ruby's `String#%`.
    Whatever `interpolate` does, the error the rule yields for a state reads
    as the configured message, the configured blank text, or the too-early or
    too-late template filled with the bound rendered by the configured format.
  */
  function Message(e: Error, interpolate: (string, string) -> string): (m: string)
    ensures e.InvalidFormat? || e.Blank? ==> m == e.message
    ensures e.TooEarly? || e.TooLate? ==> m == interpolate(e.template, e.bound)
  {
    match e
    case InvalidFormat(m) => m
    case Blank(m) => m
    case TooEarly(t, b) => interpolate(t, b)
    case TooLate(t, b) => interpolate(t, b)
  }

  /** No lower bound or at least the lower bound: the lower bound is inclusive. */
  predicate NotBeforeMinimum(cfg: Config, t: Time)
  {
    cfg.minimum.None? || cfg.minimum.value <= t
  }

  /** No upper bound or strictly below it: the upper bound is exclusive. */
  predicate BeforeMaximum(cfg: Config, t: Time)
  {
    cfg.maximum.None? || t < cfg.maximum.value
  }

  /** The half-open window `[minimum, maximum)`, an absent bound being no limit. */
  predicate InWindow(cfg: Config, t: Time)
  {
    NotBeforeMinimum(cfg, t) && BeforeMaximum(cfg, t)
  }

  /**
    The block passed to `validates_each`, for one attribute whose state is `st`.
    It never parses: it reads only the flag, the value and the configuration.
  */
  function Validate(env: Env, cfg: Config, st: FieldState): (r: Option<Error>)
    ensures r.None? <==> !st.invalid && st.value.Some? && InWindow(cfg, st.value.value)
    ensures st.invalid ==> r == Some(InvalidFormat(cfg.message))
    ensures !st.invalid && st.value.None? ==> r == Some(Blank(cfg.blank))
    ensures r.Some? && r.value.TooEarly? <==>
              !st.invalid && st.value.Some? && !NotBeforeMinimum(cfg, st.value.value)
    ensures r.Some? && r.value.TooLate? <==>
              !st.invalid && st.value.Some? && NotBeforeMinimum(cfg, st.value.value) && !BeforeMaximum(cfg, st.value.value)
    ensures r.Some? && r.value.TooEarly? ==>
              r.value == TooEarly(cfg.tooEarly, env.strftime(cfg.minimum.value, cfg.format))
    ensures r.Some? && r.value.TooLate? ==>
              r.value == TooLate(cfg.tooLate, env.strftime(cfg.maximum.value, cfg.format))
  {
    if st.invalid then
      Some(InvalidFormat(cfg.message))
    else if st.value.None? then
      Some(Blank(cfg.blank))
    else if cfg.minimum.Some? && st.value.value < cfg.minimum.value then
      Some(TooEarly(cfg.tooEarly, env.strftime(cfg.minimum.value, cfg.format)))
    else if cfg.maximum.Some? && st.value.value >= cfg.maximum.value then
      Some(TooLate(cfg.tooLate, env.strftime(cfg.maximum.value, cfg.format)))
    else
      None
  }

  /**
    `validates_each` with the configuration as its options: an attribute whose
    value is nil is skipped before the block runs when `allow_nil` is set.
  */
  function Check(env: Env, cfg: Config, st: FieldState): (r: Option<Error>)
    ensures st.value.None? && cfg.allowNil ==> r.None?
    ensures st.value.Some? || !cfg.allowNil ==> r == Validate(env, cfg, st)
  {
    if st.value.None? && cfg.allowNil then None else Validate(env, cfg, st)
  }

  /** The text added for the error the rule yields, for each of the four errors. */
  lemma ErrorText(env: Env, cfg: Config, st: FieldState, interpolate: (string, string) -> string)
    requires Validate(env, cfg, st).Some?
    ensures var m := Message(Validate(env, cfg, st).value, interpolate);
            && (st.invalid ==> m == cfg.message)
            && (!st.invalid && st.value.None? ==> m == cfg.blank)
            && (!st.invalid && st.value.Some? && !NotBeforeMinimum(cfg, st.value.value) ==>
                  m == interpolate(cfg.tooEarly, env.strftime(cfg.minimum.value, cfg.format)))
            && (!st.invalid && st.value.Some? && NotBeforeMinimum(cfg, st.value.value) ==>
                  m == interpolate(cfg.tooLate, env.strftime(cfg.maximum.value, cfg.format)))
  {
  }

  /** A value equal to the minimum is not too early. */
  lemma MinimumInclusive(env: Env, cfg: Config, st: FieldState)
    requires !st.invalid && cfg.minimum.Some? && st.value == cfg.minimum
    ensures Validate(env, cfg, st) != Some(TooEarly(cfg.tooEarly, env.strftime(cfg.minimum.value, cfg.format)))
    ensures BeforeMaximum(cfg, st.value.value) ==> Validate(env, cfg, st).None?
  {
  }

  /** A value equal to the maximum is too late, unless it is already too early. */
  lemma MaximumExclusive(env: Env, cfg: Config, st: FieldState)
    requires !st.invalid && cfg.maximum.Some? && st.value == cfg.maximum
    requires NotBeforeMinimum(cfg, cfg.maximum.value)
    ensures Validate(env, cfg, st) == Some(TooLate(cfg.tooLate, env.strftime(cfg.maximum.value, cfg.format)))
  {
  }

  /**
    Once a text has failed to parse, no later text the setter receives brings
    the attribute back: the rule reports invalid format however good the
    later texts are.
  */
  lemma InvalidIsSticky(env: Env, cfg: Config, st: FieldState, bad: string, later: seq<string>)
    requires env.parse(bad).None?
    ensures Validate(env, cfg, SetTexts(env, SetText(env, st, bad), later)) == Some(InvalidFormat(cfg.message))
  {
    SetTextsEffect(env, SetText(env, st, bad), later);
  }

  /**
    After texts are set on an attribute that was clean, the rule reports
    invalid format exactly when one of them failed to parse, and otherwise
    judges the parse of the last one.
  */
  lemma ValidateAfterEdits(env: Env, cfg: Config, st: FieldState, inputs: seq<string>)
    requires !st.invalid && |inputs| > 0
    ensures SomeFailed(env.parse, inputs) ==>
              Validate(env, cfg, SetTexts(env, st, inputs)) == Some(InvalidFormat(cfg.message))
    ensures !SomeFailed(env.parse, inputs) ==>
              var t := env.parse(inputs[|inputs| - 1]).value;
              Validate(env, cfg, SetTexts(env, st, inputs)).None? <==> InWindow(cfg, t)
  {
    SetTextsEffect(env, st, inputs);
    if !SomeFailed(env.parse, inputs) {
      assert env.parse(inputs[|inputs| - 1]).Some?;
    }
  }

  /**
    What the record reports after a failed text. A text that failed to parse
    keeps invalid format as the only error the attribute can get, but the
    `allow_nil` skip hides even that while the value is nil, and the value
    stays nil exactly when it was nil and no later text parsed.
  */
  lemma InvalidIsStickyInRecord(env: Env, cfg: Config, st: FieldState, bad: string, later: seq<string>)
    requires env.parse(bad).None?
    ensures var s' := SetTexts(env, SetText(env, st, bad), later);
            Check(env, cfg, s') == (if s'.value.None? && cfg.allowNil then None else Some(InvalidFormat(cfg.message)))
    ensures SetTexts(env, SetText(env, st, bad), later).value.None? <==> st.value.None? && NoneParsed(env.parse, later)
  {
    SetTextsEffect(env, SetText(env, st, bad), later);
    LastParsedNone(env.parse, later, st.value);
  }

  /**
    What the record reports after a run of texts. When the flag was up or some
    text failed, the only possible error is invalid format, and it is skipped
    exactly when `allow_nil` is set, the value was nil and no text parsed.
    Otherwise the last parse is stored and is accepted exactly when it lies in
    the window.
  */
  lemma CheckAfterEdits(env: Env, cfg: Config, st: FieldState, inputs: seq<string>)
    requires |inputs| > 0
    ensures st.invalid || SomeFailed(env.parse, inputs) ==>
              var r := Check(env, cfg, SetTexts(env, st, inputs));
              (r.Some? ==> r == Some(InvalidFormat(cfg.message))) &&
              (r.None? <==> cfg.allowNil && st.value.None? && NoneParsed(env.parse, inputs))
    ensures !st.invalid && !SomeFailed(env.parse, inputs) ==>
              var t := env.parse(inputs[|inputs| - 1]).value;
              Check(env, cfg, SetTexts(env, st, inputs)).None? <==> InWindow(cfg, t)
  {
    SetTextsEffect(env, st, inputs);
    LastParsedNone(env.parse, inputs, st.value);
    if !SomeFailed(env.parse, inputs) {
      assert env.parse(inputs[|inputs| - 1]).Some?;
    }
  }

  /**
    Under the default hash (`allow_nil` on, no bounds) the only error ever
    added is invalid format, and it is added only when the attribute also holds
    a value: a text that failed to parse on a nil attribute goes unreported.
  */
  lemma DefaultsReportOnlyInvalid(env: Env, now: string, invalid: string, blank: string, st: FieldState)
    ensures var r := Check(env, DefaultConfiguration(now, invalid, blank), st);
            (r.Some? <==> st.invalid && st.value.Some?) &&
            (r.Some? ==> r.value == InvalidFormat(invalid))
  {
  }
}
