# validates_as_time, modelled in Dafny

`validates_as_time` is an ActiveRecord plugin. For each attribute it is declared on, it lets the attribute be edited as free text (`<attr>_string` / `<attr>_string=`) while the record stores a `Time`. It also registers a validation rule with optional earliest and latest bounds. This project models the plugin's two pieces of logic and proves properties about them:

- **The synchronizer** (`TimeField`, `field.dfy`). This is the state of one attribute of one record: the stored value, the cached raw text and the invalid flag. It has a pure getter and a pure setter over that state. The setter caches the text first. A successful parse writes the value and leaves the flag alone. A failed parse raises the flag and leaves the value alone. The getter prefers the cached text. Failing that it renders the stored value, or else the parsed default, through the configured format.
- **The validation rule** (`TimeValidation`, `validation.dfy`). This pure function yields at most one error per attribute, first match wins: invalid format, blank, too early (inclusive lower bound), too late (exclusive upper bound). `Check` wraps it with the `allow_nil` skip that `validates_each` applies before the block runs.
- **The configuration** (`TimeConfig`, `config.dfy`): the class-wide default hash and `Hash#merge` with the call-site options.
- **The record** (`TimeRecord`, `record.dfy`): several attributes declared together, each with its own state and one shared configuration. One validation pass walks them in declaration order.

Time instants are `int`. Two things stay abstract, as fields of the `Env` datatype:

- The parser (Chronic, or `Time.parse` when Chronic is not loaded) is a total function `string -> Option<Time>`. `None` stands for Chronic's nil and for `Time.parse` raising ArgumentError.
- `strftime` is a total function `(Time, string) -> string`.

The two backends behave the same in the setter, which rescues ArgumentError. They differ in the getter, which rescues nothing. When neither the value nor the default yields a time, Chronic gives nil, while `Time.parse` raises out of the getter (`TextRead.ArgumentError`).

Four things the code does not do, each kept as it is in the model:

- It has no value setter that clears the cached text and the invalid flag.
- Blank text is not treated as a clear.
- There is no preparser and no `allow_blank` handling.
- A later successful parse never clears the invalid flag. `InvalidIsSticky` proves the consequence for the validation block: once a text has failed to parse, the block yields invalid format whatever is typed later. What the record reports also passes through the `allow_nil` skip, which is on by default. `InvalidIsStickyInRecord` proves that invalid format remains the only error the attribute can get, and that it goes unreported while the value stays nil, which happens exactly when the value was nil and no later text parsed.

## Model

| member | source | states |
|---|---|---|
| TimeConfig.DefaultConfiguration | lib/validates_as_time.rb:2-10 | the default hash: `allow_nil` on, no bounds, format `%Y-%m-%d %H:%M`, the too-early and too-late templates, ActiveRecord's invalid and blank messages, the load-time "now" as default |
| TimeConfig.Merge | lib/validates_as_time.rb:19 | every key given at the call site overrides the default, and every other key keeps it; a bound given as nil overrides a default bound with no bound |
| TimeConfig.MergeNothing | lib/validates_as_time.rb:19 | declaring with no options yields the default configuration unchanged |
| TimeConfig.MergeRightBiased | lib/validates_as_time.rb:19 | merging one options hash and then another equals one merge with the second laid over the first, key by key |
| TimeField.GetText | lib/validates_as_time.rb:34-41 | cached text is returned verbatim whatever the value; otherwise the value, or failing that the parsed default, is rendered with the format; with neither, the result is nil under Chronic and an ArgumentError under `Time.parse` |
| TimeField.SetText | lib/validates_as_time.rb:43-57 | the raw text is always cached; on success the value becomes the parse result and the invalid flag is untouched; on failure the value is unchanged and the flag is raised |
| TimeField.SetThenGet | lib/validates_as_time.rb:35-45 | under any configuration, the getter right after the setter returns exactly the text that was set, whether or not it parsed |
| TimeField.SetTextIdempotent | lib/validates_as_time.rb:43-57 | setting the same text twice leaves the same state as setting it once, when both calls parse it alike (the parsers read the clock) |
| TimeField.SetTextsSnoc | lib/validates_as_time.rb:43-57 | a run of setter calls extended by one text equals one more setter call after the run |
| TimeField.SetTextsEffect | lib/validates_as_time.rb:43-57 | after any run of setter calls, the cache holds the last text; the value is that of the last text that parsed, or the old value if none did; the flag is up exactly when it was up before or some text failed |
| TimeField.LastParsedNone | lib/validates_as_time.rb:47-55 | a run of setter calls leaves the value nil exactly when it was nil and no text of the run parsed |
| TimeValidation.Validate | lib/validates_as_time.rb:22-30 | no error exactly when the flag is down, the value is present and it lies in the half-open window [minimum, maximum); otherwise one error chosen in priority order invalid, blank, too early, too late; the bound errors carry the bound rendered with the format |
| TimeValidation.Check | lib/validates_as_time.rb:21 | a nil value with `allow_nil` set is skipped with no error; anything else gets the rule's verdict |
| TimeValidation.Message | lib/validates_as_time.rb:23-29 | the text added is the configured message or blank text, or the too-early or too-late template with the rendered bound substituted in |
| TimeValidation.ErrorText | lib/validates_as_time.rb:22-29 | for each of the four errors the block can yield, the text added is the configured message, the blank text, or the template filled with the minimum or maximum rendered by the configured format |
| TimeValidation.MinimumInclusive | lib/validates_as_time.rb:26-27 | a value equal to the minimum is not too early, and is error-free when it is below the maximum |
| TimeValidation.MaximumExclusive | lib/validates_as_time.rb:28-29 | a valid value equal to the maximum gets the too-late error, with the maximum rendered in it, unless it is already too early |
| TimeValidation.InvalidIsSticky | lib/validates_as_time.rb:22-55 | after one text fails to parse, every later run of setter calls leaves the validation block itself (before the `allow_nil` skip) yielding invalid format |
| TimeValidation.ValidateAfterEdits | lib/validates_as_time.rb:22-55 | starting from a clean attribute, after a run of texts the validation block itself (before the `allow_nil` skip) yields invalid format exactly when some text failed; otherwise it accepts exactly when the last parse lies in the window |
| TimeValidation.InvalidIsStickyInRecord | lib/validates_as_time.rb:21-55 | after a failed text, what the record reports for the attribute is invalid format, or nothing when `allow_nil` is set and the value is still nil; the value stays nil exactly when it was nil and no later text parsed |
| TimeValidation.CheckAfterEdits | lib/validates_as_time.rb:21-55 | after a run of texts, if the flag was up or some text failed the only possible error is invalid format, skipped exactly when `allow_nil` is set, the value was nil and no text parsed; otherwise the record accepts exactly when the last parse lies in the window |
| TimeValidation.DefaultsReportOnlyInvalid | lib/validates_as_time.rb:2-25 | under the default configuration the only error is invalid format, and it appears only when the attribute also holds a value, so a failed parse on a nil attribute goes unreported |
| TimeRecord.SetAttrText | lib/validates_as_time.rb:43-57 | the string setter of one attribute applies the synchronizer to that attribute alone, caching its text, and leaves every other attribute's state unchanged |
| TimeRecord.ValidateRecord | lib/validates_as_time.rb:21-31 | a pass adds no more errors than there are declared attributes, and each error it adds is the rule's verdict on a declared attribute |
| TimeRecord.ErrorsForCons | lib/validates_as_time.rb:23-29 | an error added before a run of others comes first among its attribute's errors, and the errors of other attributes are those of the run |
| TimeRecord.ErrorsPerAttribute | lib/validates_as_time.rb:21-31 | an undeclared name gets no errors; a name declared once gets exactly the rule's verdict, so at most one error |
| TimeRecord.ErrorMessages | lib/validates_as_time.rb:21-31 | the k-th message a pass adds names the attribute of the pass's k-th error and carries that error's text, so there is one message per error, in the same order |
| TimeRecord.MessagesPerAttribute | lib/validates_as_time.rb:21-31 | an undeclared name gets no messages; a name declared once gets exactly the text of the rule's verdict on it, so at most one message |
| TimeRecord.SetAttrTextLeavesOthers | lib/validates_as_time.rb:21-57 | setting one attribute's text leaves the errors of every other attribute unchanged, even when a name is declared twice |

## Left out

- Rails plumbing: `validates_each` registration, `errors.add`, `read_attribute`/`write_attribute`, `define_method`, `cattr_accessor` and `extract_options!`. The stored value, the caches and the error list are plain data instead.
- The parser grammars of Chronic and `Time.parse`, and the `Object.const_defined?(:Chronic)` probe. The backend is a field of `Env`, and its parse is one abstract function.
- `strftime` and the `%` substitution into message templates stay abstract. `Message` takes the substitution as a parameter.
- `Time.now` read at class load for `:default` depends on the wall clock. `DefaultConfiguration` takes a text `now` that stands in for that `Time` object. The same holds for ActiveRecord's catalog strings for `:invalid` and `:blank`.
- The shipped default is a `Time` object, not text, and the getter hands it to the parser unchanged. `Time.parse` given a `Time` raises TypeError or NoMethodError, not ArgumentError, and Chronic does not expect one either. This case is out of scope: `GetText` describes a default that is text.
- TimeField.SetTextIdempotent: one `Env` stands for one clock reading. Chronic parses relative text such as "tomorrow" against the current time, and `Time.parse` fills missing fields from it. The lemma therefore only speaks of two calls that parse the text alike. `SetTexts` runs, and every lemma about them, assume one reading for the whole run.
- TimeConfig.Merge: a key other than the two bounds given as nil (`:allow_nil => nil`, `:format => nil`, and so on) is read as absent and keeps its default. In Ruby the nil would override it. Only the bounds carry an explicit nil, the one case where nil has a meaning the rule uses.
- TimeField.SetText: the setter takes a string, never nil. Under `Time.parse`, a nil argument raises TypeError, which the setter does not rescue. Under Chronic, which turns its argument into text first, nil parses as the empty text does. It fails, so the ArgumentError raised on line 49 is rescued. The cache is then left nil (line 45) and the flag is raised (line 55). The next getter call therefore renders the value or the default, not the text that was set. Chronic is not part of this model.
- Exceptions other than ArgumentError are out of scope.
- `validates_each` options other than `allow_nil` (`:on`, `:if`, `:allow_blank`). `Check` only models the skip of a nil value.
- The plain value writer `record.attr = t`. It is Rails' own attribute writer, not part of this plugin, and it does not touch the cached text or the invalid flag.
