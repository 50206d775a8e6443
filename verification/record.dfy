/**
  One declaration `validates_as_time :a, :b, ...` on a record: every named
  attribute gets its own accessors and its own state, all sharing one
  configuration, and one validation pass walks the names in order.
*/
module TimeRecord {
  import opened Optional
  import opened TimeConfig
  import opened TimeField
  import opened TimeValidation

  /** The per-attribute states of one record, by attribute name. */
  type Record = map<string, FieldState>

  /** The state of attribute `a`; an attribute never touched is fresh. */
  function StateOf(rec: Record, a: string): (st: FieldState)
  {
    if a in rec then rec[a] else Fresh
  }

  /** No attribute is named twice in the declaration. */
  predicate Distinct(attrs: seq<string>)
  {
    forall i, j :: 0 <= i < j < |attrs| ==> attrs[i] != attrs[j]
  }

  /** `record.<a>_string = s`: only attribute `a` changes. */
  function SetAttrText(env: Env, rec: Record, a: string, s: string): (r: Record)
    ensures StateOf(r, a) == SetText(env, StateOf(rec, a), s)
    ensures StateOf(r, a).rawText == Some(s)
    ensures forall b :: b != a ==> StateOf(r, b) == StateOf(rec, b)
  {
    rec[a := SetText(env, StateOf(rec, a), s)]
  }

  /** The errors of attribute `a`, in the order they were added. */
  function ErrorsFor(errs: seq<(string, Error)>, a: string): (r: seq<Error>)
    decreases |errs|
  {
    if |errs| == 0 then []
    else (if errs[0].0 == a then [errs[0].1] else []) + ErrorsFor(errs[1..], a)
  }

  /** An optional error as the list of errors it adds. */
  function Added(e: Option<Error>): (r: seq<Error>)
  {
    match e
    case Some(x) => [x]
    case None => []
  }

  /**
    One validation pass over the declared attributes: the (attribute, error)
    pairs added to the record's error list, in declaration order. Every pair
    added is the rule's verdict on a declared attribute.
  */
  function ValidateRecord(env: Env, cfg: Config, attrs: seq<string>, rec: Record): (r: seq<(string, Error)>)
    ensures |r| <= |attrs|
    ensures forall k :: 0 <= k < |r| ==> r[k].0 in attrs && Check(env, cfg, StateOf(rec, r[k].0)) == Some(r[k].1)
    decreases |attrs|
  {
    if |attrs| == 0 then
      []
    else
      var rest := ValidateRecord(env, cfg, attrs[1..], rec);
      match Check(env, cfg, StateOf(rec, attrs[0]))
      case Some(e) => [(attrs[0], e)] + rest
      case None => rest
  }

  /** Prepending one pair adds its error in front of those of its attribute. */
  lemma ErrorsForCons(p: (string, Error), errs: seq<(string, Error)>, a: string)
    ensures ErrorsFor([p] + errs, a) == (if p.0 == a then [p.1] else []) + ErrorsFor(errs, a)
  {
    assert ([p] + errs)[1..] == errs;
  }

  /**
    The errors a pass adds for one attribute: none for an undeclared name, and
    for a name declared once exactly the rule's verdict, so never more than one.
  */
  lemma {:induction false} ErrorsPerAttribute(env: Env, cfg: Config, attrs: seq<string>, rec: Record, a: string)
    ensures a !in attrs ==> ErrorsFor(ValidateRecord(env, cfg, attrs, rec), a) == []
    ensures Distinct(attrs) && a in attrs ==>
              ErrorsFor(ValidateRecord(env, cfg, attrs, rec), a) == Added(Check(env, cfg, StateOf(rec, a)))
    ensures Distinct(attrs) ==> |ErrorsFor(ValidateRecord(env, cfg, attrs, rec), a)| <= 1
    decreases |attrs|
  {
    if |attrs| > 0 {
      var rest := ValidateRecord(env, cfg, attrs[1..], rec);
      ErrorsPerAttribute(env, cfg, attrs[1..], rec, a);
      if a in attrs && a != attrs[0] {
        assert a in attrs[1..];
      }
      if Distinct(attrs) {
        assert Distinct(attrs[1..]);
        if a == attrs[0] {
          assert a !in attrs[1..] by {
            forall i | 0 <= i < |attrs[1..]|
              ensures attrs[1..][i] != a
            {
              assert attrs[1..][i] == attrs[i + 1];
            }
          }
        }
      }
      match Check(env, cfg, StateOf(rec, attrs[0]))
      case Some(e) => ErrorsForCons((attrs[0], e), rest, a);
      case None =>
    }
  }

  /**
    Setting the text of one attribute leaves the errors of every other
    attribute as they were, even when a name is declared more than once.
  */
  lemma {:induction false} SetAttrTextLeavesOthers(env: Env, cfg: Config, attrs: seq<string>, rec: Record, a: string, s: string, b: string)
    requires b != a
    ensures ErrorsFor(ValidateRecord(env, cfg, attrs, SetAttrText(env, rec, a, s)), b)
         == ErrorsFor(ValidateRecord(env, cfg, attrs, rec), b)
    decreases |attrs|
  {
    if |attrs| > 0 {
      var rec' := SetAttrText(env, rec, a, s);
      SetAttrTextLeavesOthers(env, cfg, attrs[1..], rec, a, s, b);
      var before := Check(env, cfg, StateOf(rec, attrs[0]));
      if before.Some? {
        ErrorsForCons((attrs[0], before.value), ValidateRecord(env, cfg, attrs[1..], rec), b);
      }
      var after := Check(env, cfg, StateOf(rec', attrs[0]));
      if after.Some? {
        ErrorsForCons((attrs[0], after.value), ValidateRecord(env, cfg, attrs[1..], rec'), b);
      }
    }
  }

  /**
    The messages one validation pass hands to the error list, one per error
    and in the same order: the configured text, or the template with the
    rendered bound substituted in by `interpolate`.
  */
  function ErrorMessages(env: Env, cfg: Config, interpolate: (string, string) -> string, attrs: seq<string>, rec: Record)
    : (r: seq<(string, string)>)
    ensures |r| == |ValidateRecord(env, cfg, attrs, rec)|
    ensures forall k :: 0 <= k < |r| ==>
              r[k] == (ValidateRecord(env, cfg, attrs, rec)[k].0, Message(ValidateRecord(env, cfg, attrs, rec)[k].1, interpolate))
    decreases |attrs|
  {
    if |attrs| == 0 then
      []
    else
      var rest := ErrorMessages(env, cfg, interpolate, attrs[1..], rec);
      match Check(env, cfg, StateOf(rec, attrs[0]))
      case Some(e) => [(attrs[0], Message(e, interpolate))] + rest
      case None => rest
  }

  /** The messages of attribute `a`, in the order they were added. */
  function MessagesFor(msgs: seq<(string, string)>, a: string): (r: seq<string>)
    decreases |msgs|
  {
    if |msgs| == 0 then []
    else (if msgs[0].0 == a then [msgs[0].1] else []) + MessagesFor(msgs[1..], a)
  }

  /** Prepending one message puts it in front of the later messages of its attribute. */
  lemma MessagesForCons(p: (string, string), msgs: seq<(string, string)>, a: string)
    ensures MessagesFor([p] + msgs, a) == (if p.0 == a then [p.1] else []) + MessagesFor(msgs, a)
  {
    assert ([p] + msgs)[1..] == msgs;
  }

  /**
    The messages a pass adds for one attribute: none for an undeclared name,
    and for a name declared once exactly the text of the rule's verdict.
  */
  lemma {:induction false} MessagesPerAttribute(env: Env, cfg: Config, interpolate: (string, string) -> string,
                                                attrs: seq<string>, rec: Record, a: string)
    ensures a !in attrs ==> MessagesFor(ErrorMessages(env, cfg, interpolate, attrs, rec), a) == []
    ensures Distinct(attrs) && a in attrs ==>
              MessagesFor(ErrorMessages(env, cfg, interpolate, attrs, rec), a)
              == (match Check(env, cfg, StateOf(rec, a))
                  case Some(e) => [Message(e, interpolate)]
                  case None => [])
    decreases |attrs|
  {
    if |attrs| > 0 {
      var rest := ErrorMessages(env, cfg, interpolate, attrs[1..], rec);
      MessagesPerAttribute(env, cfg, interpolate, attrs[1..], rec, a);
      if a in attrs && a != attrs[0] {
        assert a in attrs[1..];
      }
      if Distinct(attrs) {
        assert Distinct(attrs[1..]);
        if a == attrs[0] {
          assert a !in attrs[1..] by {
            forall i | 0 <= i < |attrs[1..]|
              ensures attrs[1..][i] != a
            {
              assert attrs[1..][i] == attrs[i + 1];
            }
          }
        }
      }
      var c := Check(env, cfg, StateOf(rec, attrs[0]));
      if c.Some? {
        MessagesForCons((attrs[0], Message(c.value, interpolate)), rest, a);
      }
    }
  }
}
