/**
 * The entry points: serializing a record of a given type, and deserializing
 * a message by trying candidate types in order. Each run compiles the type's
 * template into a fresh tree. A parsing failure only disqualifies the
 * candidate at hand; every other failure ends the search.
 */
module Service {
  import opened JavaText
  import opened Failures
  import opened Binding
  import opened NodeTree
  import opened Walk
  import opened TreeWalker
  import MP = MessageParser

  /** A decoded message: which candidate type it was read as, and the record. */
  datatype Decoded = Decoded(kind: nat, record: Record)

  // ---------------------------------------------------------------------
  // Serializing

  /**
   * `serialize`: the template must parse; the type's callback runs first and
   * may change the record; then the fresh tree serializes it.
   */
  function SerializeMessage(cls: MessageClass, record: Record): (r: Effect<JString>)
    ensures MP.Parse(cls.template).Err? ==> r == Effect(Err(MP.Parse(cls.template).failure), record)
    ensures MP.Parse(cls.template).Ok? && Invoke(cls.classHook, cls.name, record).out == Ok(false) ==>
      r.out == Err(Runtime(CallbackReturnedFalse(cls.name)))
    ensures MP.Parse(cls.template).Ok? && Invoke(cls.classHook, cls.name, record).out == Ok(true) ==>
      var parts := MP.Parse(cls.template).value;
      var w := SerializeTree(Env(parts, cls), Initial(parts), Invoke(cls.classHook, cls.name, record).record);
      r == Effect(w.out, w.record)
  {
    match MP.Parse(cls.template)
    case Err(f) => Effect(Err(f), record)
    case Ok(parts) =>
      var hooked := RunHook(cls.classHook, cls.name, record);
      if hooked.out.Err? then Effect(Err(hooked.out.failure), hooked.record)
      else
        var w := SerializeTree(Env(parts, cls), Initial(parts), hooked.record);
        Effect(w.out, w.record)
  }

  /** `serialize`, as the Java method runs it: over a freshly built tree. */
  method Serialize(cls: MessageClass, record: Record) returns (out: Result<JString>, after: Record)
    ensures Effect(out, after) == SerializeMessage(cls, record)
  {
    var parsed := MP.Parse(cls.template);
    if parsed.Err? {
      return Err(parsed.failure), record;
    }
    var hooked := RunHook(cls.classHook, cls.name, record);
    if hooked.out.Err? {
      return Err(hooked.out.failure), hooked.record;
    }
    var tree := new ParserTree(Env(parsed.value, cls), hooked.record);
    out := tree.SerializeChildrenLoop(parsed.value, []);
    after := tree.record;
  }

  // ---------------------------------------------------------------------
  // Deserializing

  /**
   * One candidate of `deserialize`: a fresh instance, the template parsed,
   * the fresh tree walked over the message, and the type's callback run on
   * the result.
   */
  function Attempt(cls: MessageClass, message: JString): (r: Result<Record>)
    ensures cls.instance.None? ==> r == Err(InstantiationFailed)
    ensures cls.instance.Some? && MP.Parse(cls.template).Err? ==> r == Err(MP.Parse(cls.template).failure)
    ensures cls.instance.Some? && MP.Parse(cls.template).Ok? ==>
      var parts := MP.Parse(cls.template).value;
      var w := DeserializeTree(Env(parts, cls), Initial(parts), cls.instance.value, message);
      (w.out.Err? ==> r == Err(w.out.failure)) &&
      (w.out.Ok? && Invoke(cls.classHook, cls.name, w.record).out == Ok(false) ==> r == Err(Runtime(CallbackReturnedFalse(cls.name)))) &&
      (w.out.Ok? && Invoke(cls.classHook, cls.name, w.record).out == Ok(true) ==> r == Ok(Invoke(cls.classHook, cls.name, w.record).record))
  {
    match cls.instance
    case None => Err(InstantiationFailed)
    case Some(blank) =>
      match MP.Parse(cls.template)
      case Err(f) => Err(f)
      case Ok(parts) =>
        var w := DeserializeTree(Env(parts, cls), Initial(parts), blank, message);
        if w.out.Err? then Err(w.out.failure)
        else
          var hooked := RunHook(cls.classHook, cls.name, w.record);
          if hooked.out.Err? then Err(hooked.out.failure) else Ok(hooked.record)
  }

  /** The candidate loop from the i-th type on, with the diagnostics gathered so far. */
  function DeserializeFrom(classes: seq<MessageClass>, message: JString, i: nat, diagnostics: seq<Failure>): Result<Decoded>
    requires i <= |classes|
    decreases |classes| - i
  {
    if i == |classes| then Err(Parsing(NoCandidate(diagnostics)))
    else
      match Attempt(classes[i], message)
      case Ok(record) => Ok(Decoded(i, record))
      case Err(f) =>
        if f.Parsing? then DeserializeFrom(classes, message, i + 1, diagnostics + [f]) else Err(f)
  }

  /** `deserialize(message, classes...)`. */
  function DeserializeMessage(message: JString, classes: seq<MessageClass>): Result<Decoded>
  {
    DeserializeFrom(classes, message, 0, [])
  }

  /** One candidate, as the loop body runs it. */
  method TryCandidate(cls: MessageClass, message: JString) returns (r: Result<Record>)
    ensures r == Attempt(cls, message)
  {
    if cls.instance.None? {
      return Err(InstantiationFailed);
    }
    var parsed := MP.Parse(cls.template);
    if parsed.Err? {
      return Err(parsed.failure);
    }
    var tree := new ParserTree(Env(parsed.value, cls), cls.instance.value);
    var out := tree.DeserializeChildrenLoop(parsed.value, [], message);
    if out.Err? {
      return Err(out.failure);
    }
    var hooked := RunHook(cls.classHook, cls.name, tree.record);
    if hooked.out.Err? {
      return Err(hooked.out.failure);
    }
    return Ok(hooked.record);
  }

  /** The candidate loop: the first type that reads the message wins. */
  method Deserialize(message: JString, classes: seq<MessageClass>) returns (r: Result<Decoded>)
    ensures r == DeserializeMessage(message, classes)
  {
    var diagnostics: seq<Failure> := [];
    for i := 0 to |classes|
      invariant DeserializeFrom(classes, message, i, diagnostics) == DeserializeMessage(message, classes)
    {
      var attempt := TryCandidate(classes[i], message);
      if attempt.Ok? {
        return Ok(Decoded(i, attempt.value));
      }
      if !attempt.failure.Parsing? {
        return Err(attempt.failure);
      }
      diagnostics := diagnostics + [attempt.failure];
    }
    return Err(Parsing(NoCandidate(diagnostics)));
  }

  // ---------------------------------------------------------------------
  // Properties of the candidate loop

  /** The failures of the candidates from the i-th on. */
  function FailuresFrom(classes: seq<MessageClass>, message: JString, i: nat): seq<Failure>
    requires i <= |classes|
    decreases |classes| - i
  {
    if i == |classes| then []
    else
      var f := if Attempt(classes[i], message).Err? then Attempt(classes[i], message).failure else Parsing(TemplateRejected);
      [f] + FailuresFrom(classes, message, i + 1)
  }

  /**
   * A decoded message comes from the first candidate that reads it, and
   * every candidate before it failed with a parsing failure.
   */
  lemma {:induction false} FirstCandidateWins(classes: seq<MessageClass>, message: JString, i: nat, diagnostics: seq<Failure>)
    requires i <= |classes|
    ensures DeserializeFrom(classes, message, i, diagnostics).Ok? ==>
      i <= DeserializeFrom(classes, message, i, diagnostics).value.kind < |classes| &&
      Attempt(classes[DeserializeFrom(classes, message, i, diagnostics).value.kind], message) ==
        Ok(DeserializeFrom(classes, message, i, diagnostics).value.record) &&
      forall j | i <= j < DeserializeFrom(classes, message, i, diagnostics).value.kind ::
        Attempt(classes[j], message).Err? && Attempt(classes[j], message).failure.Parsing?
    decreases |classes| - i
  {
    if i < |classes| && Attempt(classes[i], message).Err? && Attempt(classes[i], message).failure.Parsing? {
      FirstCandidateWins(classes, message, i + 1, diagnostics + [Attempt(classes[i], message).failure]);
    }
  }

  /** When every candidate fails with a parsing failure, the loop reports all of them, in order. */
  lemma {:induction false} AllCandidatesFail(classes: seq<MessageClass>, message: JString, i: nat, diagnostics: seq<Failure>)
    requires i <= |classes|
    requires forall j | i <= j < |classes| :: Attempt(classes[j], message).Err? && Attempt(classes[j], message).failure.Parsing?
    ensures DeserializeFrom(classes, message, i, diagnostics) == Err(Parsing(NoCandidate(diagnostics + FailuresFrom(classes, message, i))))
    decreases |classes| - i
  {
    if i == |classes| {
      assert diagnostics + [] == diagnostics;
    } else {
      var f := Attempt(classes[i], message).failure;
      AllCandidatesFail(classes, message, i + 1, diagnostics + [f]);
      assert diagnostics + [f] + FailuresFrom(classes, message, i + 1) == diagnostics + FailuresFrom(classes, message, i);
    }
  }

  /**
   * A failure of another kind ends the loop at once: the later candidates
   * are not tried, and the failure is what the caller sees.
   */
  lemma {:induction false} OtherFailureAborts(classes: seq<MessageClass>, message: JString, i: nat, diagnostics: seq<Failure>, k: nat)
    requires i <= k < |classes|
    requires forall j | i <= j < k :: Attempt(classes[j], message).Err? && Attempt(classes[j], message).failure.Parsing?
    requires Attempt(classes[k], message).Err? && !Attempt(classes[k], message).failure.Parsing?
    ensures DeserializeFrom(classes, message, i, diagnostics) == Err(Attempt(classes[k], message).failure)
    decreases k - i
  {
    if i < k {
      OtherFailureAborts(classes, message, i + 1, diagnostics + [Attempt(classes[i], message).failure], k);
    }
  }

  /**
   * `deserialize(message, clazz)`: the loop over one candidate, which either
   * reads the message, or reports its parsing failure as the only
   * diagnostic, or fails outright.
   */
  lemma SingleCandidate(cls: MessageClass, message: JString)
    ensures Attempt(cls, message).Ok? ==> DeserializeMessage(message, [cls]) == Ok(Decoded(0, Attempt(cls, message).value))
    ensures Attempt(cls, message).Err? && Attempt(cls, message).failure.Parsing? ==>
      DeserializeMessage(message, [cls]) == Err(Parsing(NoCandidate([Attempt(cls, message).failure])))
    ensures Attempt(cls, message).Err? && !Attempt(cls, message).failure.Parsing? ==>
      DeserializeMessage(message, [cls]) == Err(Attempt(cls, message).failure)
  {
    var r := Attempt(cls, message);
    if r.Err? && r.failure.Parsing? {
      assert [] + [r.failure] == [r.failure];
      assert DeserializeMessage(message, [cls]) == DeserializeFrom([cls], message, 1, [r.failure]);
    }
  }

  /**
   * A type whose template is fixed text and that has no callback serializes
   * any record to that text, and the text deserializes to a fresh instance
   * of the type, untouched.
   */
  lemma PlainMessageRoundTrip(cls: MessageClass, record: Record, blank: Record)
    requires MP.Parse(cls.template).Ok?
    requires forall i | 0 <= i < |MP.Parse(cls.template).value| :: Plain(MP.Parse(cls.template).value[i])
    requires cls.classHook.None? && cls.instance == Some(blank)
    ensures SerializeMessage(cls, record) == Effect(Ok(PlainText(MP.Parse(cls.template).value)), record)
    ensures DeserializeMessage(PlainText(MP.Parse(cls.template).value), [cls]) == Ok(Decoded(0, blank))
  {
    var parts := MP.Parse(cls.template).value;
    PlainRoundTrip(Env(parts, cls), Initial(parts), record, PlainText(parts));
    PlainRoundTrip(Env(parts, cls), Initial(parts), blank, PlainText(parts));
    SingleCandidate(cls, PlainText(parts));
  }
}
