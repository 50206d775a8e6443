/**
  The configuration of `validates_as_time`: one record per declaration, shared
  by every instance of the model class, built by merging the options given at
  the call site over a class-wide default hash.
*/
module TimeConfig {
  import opened Optional

  /** An instant. Only the order of instants matters to the plugin, so whole numbers stand for them. */
  type Time = int

  /** The parser the environment offers: Chronic when that library is loaded, else Ruby's `Time.parse`. */
  datatype Backend = Chronic | TimeParse

  /**
    What the plugin calls but does not define. `parse` answers `None` where
    Chronic returns nil or `Time.parse` raises ArgumentError; `strftime(t, f)`
    renders `t` with the pattern `f`.
  */
  datatype Env = Env(backend: Backend, parse: string -> Option<Time>, strftime: (Time, string) -> string)

  /** The merged configuration hash, one field per key the plugin reads. */
  datatype Config = Config(
    default: string,
    format: string,
    message: string,
    blank: string,
    tooEarly: string,
    tooLate: string,
    allowNil: bool,
    minimum: Option<Time>,
    maximum: Option<Time>)

  /**
    The options hash given at the call site: `None` where a key is not given.
    A bound may also be given as nil (`Some(None)`), which overrides a default
    bound with no bound at all.
  */
  datatype Options = Options(
    default: Option<string>,
    format: Option<string>,
    message: Option<string>,
    blank: Option<string>,
    tooEarly: Option<string>,
    tooLate: Option<string>,
    allowNil: Option<bool>,
    minimum: Option<Option<Time>>,
    maximum: Option<Option<Time>>)

  const NoOptions := Options(None, None, None, None, None, None, None, None, None)

  const DefaultFormat := "%Y-%m-%d %H:%M"
  const DefaultTooEarly := "cannot be before %s"
  const DefaultTooLate := "cannot be on or after %s"

  /**
    The class-wide default hash. `now` is the text standing for `Time.now` read
    when the class is loaded; `invalid` and `blank` are ActiveRecord's own
    messages for those two keys.
  */
  function DefaultConfiguration(now: string, invalid: string, blank: string): (c: Config)
    ensures c.allowNil
    ensures c.minimum.None? && c.maximum.None?
    ensures c.default == now && c.message == invalid && c.blank == blank
    ensures c.format == DefaultFormat
    ensures c.tooEarly == DefaultTooEarly && c.tooLate == DefaultTooLate
  {
    Config(now, DefaultFormat, invalid, blank, DefaultTooEarly, DefaultTooLate, true, None, None)
  }

  /** `Hash#merge`: a key given at the call site wins, every other key keeps its default. */
  function Merge(d: Config, o: Options): (c: Config)
    ensures c.default == (if o.default.Some? then o.default.value else d.default)
    ensures c.format == (if o.format.Some? then o.format.value else d.format)
    ensures c.message == (if o.message.Some? then o.message.value else d.message)
    ensures c.blank == (if o.blank.Some? then o.blank.value else d.blank)
    ensures c.tooEarly == (if o.tooEarly.Some? then o.tooEarly.value else d.tooEarly)
    ensures c.tooLate == (if o.tooLate.Some? then o.tooLate.value else d.tooLate)
    ensures c.allowNil == (if o.allowNil.Some? then o.allowNil.value else d.allowNil)
    ensures c.minimum == (if o.minimum.Some? then o.minimum.value else d.minimum)
    ensures c.maximum == (if o.maximum.Some? then o.maximum.value else d.maximum)
  {
    Config(
      if o.default.Some? then o.default.value else d.default,
      if o.format.Some? then o.format.value else d.format,
      if o.message.Some? then o.message.value else d.message,
      if o.blank.Some? then o.blank.value else d.blank,
      if o.tooEarly.Some? then o.tooEarly.value else d.tooEarly,
      if o.tooLate.Some? then o.tooLate.value else d.tooLate,
      if o.allowNil.Some? then o.allowNil.value else d.allowNil,
      if o.minimum.Some? then o.minimum.value else d.minimum,
      if o.maximum.Some? then o.maximum.value else d.maximum)
  }

  /** Declaring the plugin with no options yields the default hash itself. */
  lemma MergeNothing(d: Config)
    ensures Merge(d, NoOptions) == d
  {
  }

  /** Two options hashes laid one over the other: a key of `top` wins over the same key of `under`. */
  function Overlay(under: Options, top: Options): (o: Options)
  {
    Options(
      top.default.OrElse(under.default),
      top.format.OrElse(under.format),
      top.message.OrElse(under.message),
      top.blank.OrElse(under.blank),
      top.tooEarly.OrElse(under.tooEarly),
      top.tooLate.OrElse(under.tooLate),
      top.allowNil.OrElse(under.allowNil),
      top.minimum.OrElse(under.minimum),
      top.maximum.OrElse(under.maximum))
  }

  /**
    Merge is right-biased: merging `o1` and then `o2` over the defaults is one
    merge of `o2` laid over `o1`.
  */
  lemma MergeRightBiased(d: Config, o1: Options, o2: Options)
    ensures Merge(Merge(d, o1), o2) == Merge(d, Overlay(o1, o2))
  {
  }
}
