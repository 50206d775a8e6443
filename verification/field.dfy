/**
  The text/value synchronizer of one attribute: the `<attr>_string` getter and
  the `<attr>_string=` setter the plugin defines for every attribute it is
  declared on, over the stored value and the two per-record caches
  `@_<attr>_string` and `@_<attr>_invalid`.
*/
module TimeField {
  import opened Optional
  import opened TimeConfig

  /**
    The state of one attribute of one record: the stored value (nil until
    written), the cached raw text (nil until the string setter runs) and the
    invalid flag (false while undefined).
  */
  datatype FieldState = FieldState(value: Option<Time>, rawText: Option<string>, invalid: bool)

  /** An attribute no accessor has touched yet, its column nil. */
  const Fresh := FieldState(None, None, false)

  /** What the string getter does: return a string or nil, or raise ArgumentError out of `Time.parse`. */
  datatype TextRead = Text(text: Option<string>) | ArgumentError

  /**
    The string getter. Cached text wins, whatever the state; otherwise the
    stored value, or failing that the parsed default, is rendered with the
    configured format. When neither yields a time Chronic gives nil, while
    `Time.parse` raises, and the getter does not rescue it.
  */
  function GetText(env: Env, cfg: Config, st: FieldState): (r: TextRead)
    ensures st.rawText.Some? ==> r == Text(st.rawText)
    ensures st.rawText.None? && st.value.Some? ==> r == Text(Some(env.strftime(st.value.value, cfg.format)))
    ensures st.rawText.None? && st.value.None? && env.parse(cfg.default).Some? ==>
              r == Text(Some(env.strftime(env.parse(cfg.default).value, cfg.format)))
    ensures r == Text(None) <==>
              st.rawText.None? && st.value.None? && env.parse(cfg.default).None? && env.backend == Chronic
    ensures r.ArgumentError? <==>
              st.rawText.None? && st.value.None? && env.parse(cfg.default).None? && env.backend == TimeParse
  {
    if st.rawText.Some? then
      Text(st.rawText)
    else
      match st.value.OrElse(env.parse(cfg.default))
      case Some(t) => Text(Some(env.strftime(t, cfg.format)))
      case None => if env.backend.Chronic? then Text(None) else ArgumentError
  }

  /**
    The string setter. The text is cached before anything else; a successful
    parse writes the value and leaves the invalid flag as it was; a failed one
    raises the flag and leaves the value as it was. Both backends fail the same
    way here, since the setter rescues ArgumentError.
  */
  function SetText(env: Env, st: FieldState, s: string): (r: FieldState)
    ensures r.rawText == Some(s)
    ensures env.parse(s).Some? ==> r.value == env.parse(s) && r.invalid == st.invalid
    ensures env.parse(s).None? ==> r.value == st.value && r.invalid
  {
    var cached := st.(rawText := Some(s));
    match env.parse(s)
    case Some(t) => cached.(value := Some(t))
    case None => cached.(invalid := true)
  }

  /**
    The setter applied to each text in turn, as a form posted several times
    would. One `env` stands for one clock reading over the whole run.
  */
  function SetTexts(env: Env, st: FieldState, inputs: seq<string>): (r: FieldState)
    decreases |inputs|
  {
    if |inputs| == 0 then st else SetTexts(env, SetText(env, st, inputs[0]), inputs[1..])
  }

  /**
    Reference for the value after a run of setter calls: the parse of the last
    text that parsed, or the value before the run when none did.
  */
  function LastParsed(parse: string -> Option<Time>, inputs: seq<string>, before: Option<Time>): (r: Option<Time>)
    decreases |inputs|
  {
    if |inputs| == 0 then before
    else
      match parse(inputs[|inputs| - 1])
      case Some(t) => Some(t)
      case None => LastParsed(parse, inputs[..|inputs| - 1], before)
  }

  /** Some text of the run failed to parse. */
  predicate SomeFailed(parse: string -> Option<Time>, inputs: seq<string>)
  {
    exists i :: 0 <= i < |inputs| && parse(inputs[i]).None?
  }

  /** No text of the run parsed. */
  predicate NoneParsed(parse: string -> Option<Time>, inputs: seq<string>)
  {
    forall i :: 0 <= i < |inputs| ==> parse(inputs[i]).None?
  }

  /** A run of setter calls leaves the value nil exactly when it was nil and no text parsed. */
  lemma {:induction false} LastParsedNone(parse: string -> Option<Time>, inputs: seq<string>, before: Option<Time>)
    ensures LastParsed(parse, inputs, before).None? <==> before.None? && NoneParsed(parse, inputs)
    decreases |inputs|
  {
    if |inputs| > 0 {
      var xs := inputs[..|inputs| - 1];
      LastParsedNone(parse, xs, before);
      if NoneParsed(parse, inputs) {
        assert forall i :: 0 <= i < |xs| ==> xs[i] == inputs[i];
      }
      if parse(inputs[|inputs| - 1]).None? && NoneParsed(parse, xs) {
        assert forall i :: 0 <= i < |xs| ==> xs[i] == inputs[i];
      }
    }
  }

  /** Whatever the configuration, the getter right after the setter gives back exactly the text set. */
  lemma SetThenGet(env: Env, cfg: Config, st: FieldState, s: string)
    ensures GetText(env, cfg, SetText(env, st, s)) == Text(Some(s))
  {
  }

  /**
    Setting the same text twice leaves the attribute as setting it once does,
    provided both calls parse it alike. The parsers read the clock, so `e1` and
    `e2` are the environment at two moments; relative text such as "tomorrow"
    may parse differently at each.
  */
  lemma SetTextIdempotent(e1: Env, e2: Env, st: FieldState, s: string)
    requires e1.parse(s) == e2.parse(s)
    ensures SetText(e2, SetText(e1, st, s), s) == SetText(e1, st, s)
  {
  }

  /** Running the setter over `xs` then once more on `x` is running it over `xs + [x]`. */
  lemma {:induction false} SetTextsSnoc(env: Env, st: FieldState, xs: seq<string>, x: string)
    ensures SetTexts(env, st, xs + [x]) == SetText(env, SetTexts(env, st, xs), x)
    decreases |xs|
  {
    if |xs| == 0 {
      assert xs + [x] == [x];
    } else {
      assert (xs + [x])[1..] == xs[1..] + [x];
      SetTextsSnoc(env, SetText(env, st, xs[0]), xs[1..], x);
    }
  }

  /**
    The effect of a run of setter calls: the cache holds the last text, the
    value is that of the last text that parsed (or the old one), and the
    invalid flag is up exactly when it was up before or some text failed.
  */
  lemma {:induction false} SetTextsEffect(env: Env, st: FieldState, inputs: seq<string>)
    ensures SetTexts(env, st, inputs).value == LastParsed(env.parse, inputs, st.value)
    ensures SetTexts(env, st, inputs).invalid <==> st.invalid || SomeFailed(env.parse, inputs)
    ensures |inputs| > 0 ==> SetTexts(env, st, inputs).rawText == Some(inputs[|inputs| - 1])
    ensures |inputs| == 0 ==> SetTexts(env, st, inputs) == st
    decreases |inputs|
  {
    if |inputs| > 0 {
      var xs, x := inputs[..|inputs| - 1], inputs[|inputs| - 1];
      assert inputs == xs + [x];
      SetTextsSnoc(env, st, xs, x);
      SetTextsEffect(env, st, xs);
      if SomeFailed(env.parse, inputs) {
        var i :| 0 <= i < |inputs| && env.parse(inputs[i]).None?;
        if i < |xs| {
          assert env.parse(xs[i]).None?;
        }
      }
      if SomeFailed(env.parse, xs) {
        var i :| 0 <= i < |xs| && env.parse(xs[i]).None?;
        assert inputs[i] == xs[i];
      }
    }
  }
}
