/**
 * Message types walked end to end: a template of one sized field, which
 * pads or cuts its text on the way out and reads back what it wrote; the
 * template `[{beginning}-]{ending}`, whose optional part falls away both when
 * the beginning is null and when the message does not hold it; and
 * `call-{back}-message`, whose field callback and type callback run on the
 * way out and on the way back.
 */
module SampleMessages {
  import opened JavaText
  import opened Failures
  import opened Binding
  import opened NodeTree
  import opened Walk
  import Service
  import MP = MessageParser

  /** A type without type-level callback whose fresh instance is `blank`. */
  predicate Bare(cls: MessageClass, blank: Record)
  {
    cls.classHook.None? && cls.instance == Some(blank)
  }

  /** A field read and written as it stands: no callback and no representation. */
  predicate Direct(cls: MessageClass, name: JString)
  {
    name !in cls.fieldHooks && name !in cls.represented
  }

  /** The paths of the nodes at the top two levels, as the walk builds them. */
  lemma Paths()
    ensures [] + [0] == [0] && [] + [1] == [1]
    ensures [0] + [0] == [0, 0] && [0] + [1] == [0, 1]
    ensures Parent([0]) == [] && Last([0]) == 0 && Parent([1]) == [] && Last([1]) == 1
    ensures Parent([0, 0]) == [0] && Last([0, 0]) == 0 && Parent([0, 1]) == [0] && Last([0, 1]) == 1
  {
  }

  // ---------------------------------------------------------------------
  // The template `{N:name}`

  lemma SizedFieldPosition(parts: seq<MP.Node>, s: Slots, name: JString, size: nat)
    requires parts == [MP.Field(name, size)]
    ensures Position(parts, s, [0]) == Ok(0)
    ensures ArrayIndex(parts, s, [0]).None?
  {
    Paths();
    assert !Matches(parts, [0], ArrayClass);
  }

  /**
   * A field of size `size` serializes its text padded with spaces or cut to
   * that size, without changing anything, and what it wrote reads back into
   * a fresh record as that padded text.
   */
  lemma SizedFieldWalk(env: Env, s: Slots, record: Record, blank: Record, name: JString, size: nat, text: JString)
    requires env.parts == [MP.Field(name, size)] && size > 0 && Direct(env.cls, name)
    requires name in record && record[name] == Str(text) && name in blank
    ensures SerializeTree(env, s, record) == Walked(Ok(Pad(text, size)), s, record)
    ensures DeserializeTree(env, s, blank, Pad(text, size)).out == Ok(())
    ensures DeserializeTree(env, s, blank, Pad(text, size)).record == blank[name := Str(Pad(text, size))]
  {
    var m := Pad(text, size);
    Paths();
    SizedFieldPosition(env.parts, s, name, size);
    var n := MP.Field(name, size);
    assert GetField(env.cls, record, name, size, None) == Effect(Ok(Some(m)), record);
    assert Serialize(env, s, record, n, [0]) == Walked(Ok(m), s, record);
    assert [] + m == m;
    assert SerializeChildren(env, s, record, env.parts, [], 1, m) == Walked(Ok(m), s, record);
    assert SerializeTree(env, s, record) == SerializeChildren(env, s, record, env.parts, [], 1, m);
    var s2 := s[[0] := Get(s, [0]).(length := size)][[0] := Get(s, [0]).(length := size, text := Some(m))];
    SizedFieldPosition(env.parts, s2, name, size);
    assert m[0..size] == m;
    SetPlainField(env.cls, blank, name, m);
    assert FieldSpan(env, s, n, [0], m, 0) == Ok(size);
    assert DeserializeField(env, s, blank, n, [0], m) == Walked(Ok(()), s2, blank[name := Str(m)]);
    assert Deserialize(env, s, blank, n, [0], m) == Walked(Ok(()), s2, blank[name := Str(m)]);
    assert DeserializeTree(env, s, blank, m) == DeserializeChildren(env, s2, blank[name := Str(m)], env.parts, [], 1, m);
  }

  /**
   * The type with template `{N:name}`: a record holding text serializes to
   * it padded or cut to N characters, and that message decodes to a fresh
   * instance holding the padded text; text of exactly N characters comes
   * back unchanged.
   */
  lemma SizedFieldMessage(cls: MessageClass, record: Record, blank: Record, name: JString, size: nat, text: JString)
    requires MP.IsIdentifier(name) && 0 < size <= MP.MaxInt
    requires cls.template == MP.Print([MP.Field(name, size)]) && Bare(cls, blank) && Direct(cls, name)
    requires name in record && record[name] == Str(text) && name in blank
    ensures Service.SerializeMessage(cls, record) == Effect(Ok(Pad(text, size)), record)
    ensures Service.DeserializeMessage(Pad(text, size), [cls]) == Ok(Service.Decoded(0, blank[name := Str(Pad(text, size))]))
    ensures |text| == size ==> Service.DeserializeMessage(Service.SerializeMessage(cls, record).out.value, [cls]) == Ok(Service.Decoded(0, blank[name := record[name]]))
  {
    var parts := [MP.Field(name, size)];
    MP.ParsePrint(parts);
    SizedFieldWalk(Env(parts, cls), Initial(parts), record, blank, name, size, text);
    Service.SingleCandidate(cls, Pad(text, size));
  }

  /** The sized field of the tests: "fine" is padded to "fine " and "perfect" cut to "perfe". */
  lemma PadExamples()
    ensures Pad(J("fine"), 5) == J("fine ")
    ensures Pad(J("perfect"), 5) == J("perfe")
  {
    assert Pad(J("fine"), 5) == J("fine") + [Space];
    assert J("perfect")[..5] == J("perfe");
  }

  // ---------------------------------------------------------------------
  // The template `[{beginning}-]{ending}`

  /** The field names "beginning" and "ending", and the literal "-". */
  const Beginning: JString := [0x62, 0x65, 0x67, 0x69, 0x6E, 0x6E, 0x69, 0x6E, 0x67]
  const Ending: JString := [0x65, 0x6E, 0x64, 0x69, 0x6E, 0x67]
  const Dash: JString := [0x2D]

  lemma EndingNames()
    ensures J("beginning") == Beginning && J("ending") == Ending && J("-") == Dash
    ensures Beginning != Ending
  {
  }

  /** The parse tree of `[{beginning}-]{ending}`. */
  const EndingParts: seq<MP.Node> :=
    [MP.Optional([MP.Field(Beginning, -1), MP.Literal(Dash)]), MP.Field(Ending, -1)]

  /** The tree as freshly built: the optional and the field inside it reset, the last field untouched. */
  lemma EndingInitial()
    ensures Initial(EndingParts) == map[[0, 0] := Slot(None, -1, false, 0), [0] := Blank]
  {
    var body := [MP.Field(Beginning, -1), MP.Literal(Dash)];
    Paths();
    var t := map[[0, 0] := Slot(None, -1, false, 0)];
    assert Reset(map[], body[0], [0, 0]) == t;
    assert ResetChildren(map[], body, [0], 0) == ResetChildren(t, body, [0], 1) == t;
    assert Reset(map[], EndingParts[0], [0]) == t[[0] := Blank];
    assert InitialFrom(EndingParts, 1, t[[0] := Blank]) == t[[0] := Blank];
  }

  /** Where each node starts: the dash after the beginning, the ending after the optional part. */
  lemma EndingPositions(s: Slots)
    ensures Position(EndingParts, s, [0]) == Ok(0)
    ensures Position(EndingParts, s, [0, 0]) == Ok(0)
    ensures Position(EndingParts, s, [0, 1]) == Ok(Get(s, [0, 0]).length)
    ensures Position(EndingParts, s, [1]) == if Get(s, [0]).failed then Ok(0) else Ok(Get(s, [0, 0]).length + 1)
  {
    var body := [MP.Field(Beginning, -1), MP.Literal(Dash)];
    Paths();
    assert ChildrenAt(EndingParts, []) == EndingParts;
    assert ChildrenAt(EndingParts, [0]) == body;
    assert LengthsBetween(s, body, [0], 1, 1) == Ok(0);
    assert LengthsBetween(s, body, [0], 0, 1) == Ok(Get(s, [0, 0]).length);
    assert LengthsBetween(s, body, [0], 1, 2) == Ok(1);
    assert LengthsBetween(s, body, [0], 0, 2) == Ok(Get(s, [0, 0]).length + 1);
    assert LengthsBetween(s, EndingParts, [], 1, 1) == Ok(0);
    var opt := if Get(s, [0]).failed then Ok(0) else Ok(Get(s, [0, 0]).length + 1);
    assert Length(s, EndingParts[0], [0]) == opt;
    assert LengthsBetween(s, EndingParts, [], 0, 1) == opt;
  }

  /** No enclosing array anywhere in the template. */
  lemma EndingNoArray(s: Slots)
    ensures ArrayIndex(EndingParts, s, [0, 0]).None?
    ensures ArrayIndex(EndingParts, s, [1]).None?
  {
    Paths();
    assert !Matches(EndingParts, [0, 0], ArrayClass) && !Matches(EndingParts, [0], ArrayClass);
    assert !Matches(EndingParts, [1], ArrayClass);
  }

  /**
   * Serializing: a beginning writes itself and the dash before the ending; a
   * null beginning makes the optional part drop out. The record is not
   * changed.
   */
  lemma EndingSerialize(env: Env, s: Slots, record: Record, b: JString, e: JString)
    requires env.parts == EndingParts && Direct(env.cls, Beginning) && Direct(env.cls, Ending)
    requires Beginning in record && Ending in record && record[Ending] == Str(e)
    ensures record[Beginning] == Str(b) ==> SerializeTree(env, s, record).out == Ok(b + Dash + e)
    ensures record[Beginning] == Null ==> SerializeTree(env, s, record).out == Ok(e)
    ensures record[Beginning].Str? || record[Beginning].Null? ==> SerializeTree(env, s, record).record == record
  {
    var body := [MP.Field(Beginning, -1), MP.Literal(Dash)];
    Paths();
    EndingNoArray(s);
    var w := SerializeChildren(env, s, record, body, [0], 0, []);
    if record[Beginning].Str? {
      var t := record[Beginning].text;
      assert Serialize(env, s, record, body[0], [0, 0]) == Walked(Ok(t), s, record);
      assert [] + t == t;
      assert w == SerializeChildren(env, s, record, body, [0], 1, t);
      assert Serialize(env, s, record, body[1], [0, 1]) == Walked(Ok(Dash), s, record);
      assert SerializeChildren(env, s, record, body, [0], 2, t + Dash) == Walked(Ok(t + Dash), s, record);
      assert Serialize(env, s, record, EndingParts[0], [0]) == Walked(Ok(t + Dash), s, record);
      EndingLastField(env, s, record, t + Dash, e);
      assert [] + (t + Dash) == t + Dash;
      assert SerializeTree(env, s, record) == SerializeChildren(env, s, record, env.parts, [], 1, t + Dash);
    } else if record[Beginning] == Null {
      assert Serialize(env, s, record, body[0], [0, 0]) == Walked(Err(Parsing(NoData(Beginning))), s, record);
      var s1 := s[[0] := Get(s, [0]).(failed := true)];
      var nil: JString := [];
      assert Serialize(env, s, record, EndingParts[0], [0]) == Walked(Ok(nil), s1, record);
      EndingLastField(env, s1, record, nil, e);
      assert nil + nil == nil && nil + e == e;
      assert SerializeTree(env, s, record) == SerializeChildren(env, s1, record, env.parts, [], 1, nil);
    }
  }

  /** After the optional part, the last field appends the ending. */
  lemma EndingLastField(env: Env, s: Slots, record: Record, acc: JString, e: JString)
    requires env.parts == EndingParts && Direct(env.cls, Ending)
    requires Ending in record && record[Ending] == Str(e)
    ensures SerializeChildren(env, s, record, env.parts, [], 1, acc) == Walked(Ok(acc + e), s, record)
  {
    Paths();
    EndingNoArray(s);
    assert Serialize(env, s, record, EndingParts[1], [1]) == Walked(Ok(e), s, record);
  }

  /** The beginning runs up to the first dash and the ending takes the rest, when the beginning holds no dash. */
  lemma EndingDeserializeFull(env: Env, blank: Record, b: JString, e: JString)
    requires env.parts == EndingParts && Direct(env.cls, Beginning) && Direct(env.cls, Ending)
    requires Beginning in blank && Ending in blank
    requires b != [] && e != [] && Dash[0] !in b
    ensures DeserializeTree(env, Initial(EndingParts), blank, b + Dash + e).out == Ok(())
    ensures DeserializeTree(env, Initial(EndingParts), blank, b + Dash + e).record ==
      blank[Beginning := Str(b)][Ending := Str(e)]
  {
    var m := b + Dash + e;
    var body := [MP.Field(Beginning, -1), MP.Literal(Dash)];
    var s := Initial(EndingParts);
    EndingInitial();
    Paths();
    // the optional's window is the whole message: the field after it has no content yet
    assert GetEnd(EndingParts, s, EndingParts[0], [0], m, 0) == Ok(|m|);
    EndingPositions(s);
    assert m[0..|m|] == m;
    assert Extract(EndingParts, s, EndingParts[0], [0], m) == Ok(m);
    // the beginning ends at the dash
    var w := BeginningRead(env, blank, b, e);
    var s2, r1 := w.slots, blank[Beginning := Str(b)];
    assert Deserialize(env, s, blank, body[0], [0, 0], m) == w;
    // the dash follows it
    EndingPositions(s2);
    assert m[|b|..|b| + 1] == Dash;
    assert Deserialize(env, s2, r1, body[1], [0, 1], m) == Walked(Ok(()), s2, r1);
    assert DeserializeChildren(env, s2, r1, body, [0], 2, m) == Walked(Ok(()), s2, r1);
    assert DeserializeChildren(env, s2, r1, body, [0], 1, m) == Walked(Ok(()), s2, r1);
    assert DeserializeChildren(env, s, blank, body, [0], 0, m) == Walked(Ok(()), s2, r1);
    assert Deserialize(env, s, blank, EndingParts[0], [0], m) == Walked(Ok(()), s2, r1);
    // the ending takes the rest
    DeserializeEndingField(env, s2, r1, m, |b| + 1);
  }

  /** In the fresh tree, the beginning reads the message up to its first dash. */
  lemma BeginningRead(env: Env, blank: Record, b: JString, e: JString) returns (w: Walked<()>)
    requires env.parts == EndingParts && Direct(env.cls, Beginning) && Beginning in blank
    requires b != [] && Dash[0] !in b
    ensures w == DeserializeField(env, Initial(EndingParts), blank, MP.Field(Beginning, -1), [0, 0], b + Dash + e)
    ensures w.out == Ok(()) && w.record == blank[Beginning := Str(b)]
    ensures Get(w.slots, [0, 0]).length == |b| && !Get(w.slots, [0]).failed
  {
    var m := b + Dash + e;
    var s := Initial(EndingParts);
    EndingInitial();
    Paths();
    EndingPositions(s);
    assert OccursAt(m, Dash, |b|);
    assert forall k | 0 <= k < |b| :: !OccursAt(m, Dash, k) by {
      forall k | 0 <= k < |b| ensures !OccursAt(m, Dash, k) {
        assert m[k] == b[k];
      }
    }
    assert IndexOf(m, Dash, 0) == |b|;
    assert GetEnd(EndingParts, s, MP.Field(Beginning, -1), [0, 0], m, 0) == Ok(|b|);
    assert m[0..|b|] == b;
    var s2 := s[[0, 0] := Slot(Some(b), |b|, false, 0)];
    EndingNoArray(s2);
    SetPlainField(env.cls, blank, Beginning, b);
    w := Walked(Ok(()), s2, blank[Beginning := Str(b)]);
  }

  /** The last field reads the message from `pos` to its end. */
  lemma DeserializeEndingField(env: Env, s: Slots, record: Record, m: JString, pos: nat)
    requires env.parts == EndingParts && Direct(env.cls, Ending) && Ending in record
    requires pos < |m| && Position(EndingParts, s, [1]) == Ok(pos)
    ensures DeserializeChildren(env, s, record, env.parts, [], 1, m).out == Ok(())
    ensures DeserializeChildren(env, s, record, env.parts, [], 1, m).record == record[Ending := Str(m[pos..])]
  {
    Paths();
    var w := EndingFieldRead(env, s, record, m, pos);
    assert Deserialize(env, s, record, EndingParts[1], [1], m) == w;
    assert DeserializeChildren(env, w.slots, w.record, env.parts, [], 2, m) == w;
  }

  lemma EndingFieldRead(env: Env, s: Slots, record: Record, m: JString, pos: nat) returns (w: Walked<()>)
    requires env.parts == EndingParts && Direct(env.cls, Ending) && Ending in record
    requires pos < |m| && Position(EndingParts, s, [1]) == Ok(pos)
    ensures w == DeserializeField(env, s, record, EndingParts[1], [1], m)
    ensures w.out == Ok(()) && w.record == record[Ending := Str(m[pos..])]
  {
    Paths();
    var n := EndingParts[1];
    var text := m[pos..];
    assert FollowingContent(EndingParts, s, [1], false).None?;
    assert GetEnd(EndingParts, s, n, [1], m, pos) == Ok(|m|);
    assert FieldSpan(env, s, n, [1], m, pos) == Ok(|m| - pos);
    var s1 := s[[1] := Get(s, [1]).(length := |m| - pos)];
    var s2 := s1[[1] := Get(s1, [1]).(text := Some(text))];
    EndingNoArray(s2);
    SetPlainField(env.cls, record, Ending, text);
    assert m[pos..pos + (|m| - pos)] == text;
    w := Walked(Ok(()), s2, record[Ending := Str(text)]);
  }

  /** A message without a dash is all ending: the optional part fails and drops out, and the beginning is left alone. */
  lemma EndingDeserializeShort(env: Env, blank: Record, e: JString)
    requires env.parts == EndingParts && Direct(env.cls, Beginning) && Direct(env.cls, Ending)
    requires Beginning in blank && Ending in blank
    requires e != [] && Dash[0] !in e
    ensures DeserializeTree(env, Initial(EndingParts), blank, e).out == Ok(())
    ensures DeserializeTree(env, Initial(EndingParts), blank, e).record == blank[Ending := Str(e)]
  {
    var body := [MP.Field(Beginning, -1), MP.Literal(Dash)];
    var s := Initial(EndingParts);
    EndingInitial();
    Paths();
    assert Parent([0]) == [] && Last([0]) == 0;
    assert GetEnd(EndingParts, s, EndingParts[0], [0], e, 0) == Ok(|e|);
    EndingPositions(s);
    assert e[0..|e|] == e;
    assert Extract(EndingParts, s, EndingParts[0], [0], e) == Ok(e);
    // the dash is missing, so the beginning spans nothing and is not written
    assert Parent([0, 0]) == [0] && Last([0, 0]) == 0;
    assert Position(EndingParts, s, [0, 0]) == Ok(0);
    assert forall k | 0 <= k :: !OccursAt(e, Dash, k) by {
      forall k | 0 <= k ensures !OccursAt(e, Dash, k) {
        if k + 1 <= |e| {
          assert e[k..k + 1][0] == e[k];
        }
      }
    }
    assert IndexOf(e, Dash, 0) == -1;
    assert GetEnd(EndingParts, s, body[0], [0, 0], e, 0) == Ok(0);
    var s1 := s[[0, 0] := Slot(None, 0, false, 0)];
    assert Deserialize(env, s, blank, body[0], [0, 0], e) == Walked(Ok(()), s1, blank);
    // the dash does not match
    assert Parent([0, 1]) == [0] && Last([0, 1]) == 1;
    EndingPositions(s1);
    assert e[0..1] != Dash by {
      assert e[0..1][0] == e[0];
    }
    assert Deserialize(env, s1, blank, body[1], [0, 1], e) == Walked(Err(Parsing(ContentMismatch)), s1, blank);
    assert DeserializeChildren(env, s1, blank, body, [0], 1, e) == Walked(Err(Parsing(ContentMismatch)), s1, blank);
    assert DeserializeChildren(env, s, blank, body, [0], 0, e) == Walked(Err(Parsing(ContentMismatch)), s1, blank);
    var s2 := s1[[0] := Get(s1, [0]).(failed := true)];
    assert Deserialize(env, s, blank, EndingParts[0], [0], e) == Walked(Ok(()), s2, blank);
    // the failed optional spans nothing: the ending starts at 0
    EndingPositions(s2);
    assert e[0..] == e;
    DeserializeEndingField(env, s2, blank, e, 0);
  }

  /**
   * The type with template `[{beginning}-]{ending}`: a beginning free of
   * dashes and an ending both come back; a null beginning is left out of
   * the message and, when the ending holds no dash, stays null.
   */
  lemma EndingMessageRoundTrip(cls: MessageClass, record: Record, blank: Record, b: JString, e: JString)
    requires cls.template == MP.Print(EndingParts) && Bare(cls, blank)
    requires Direct(cls, Beginning) && Direct(cls, Ending)
    requires Beginning in record && Ending in record && record[Ending] == Str(e) && e != []
    requires Beginning in blank && Ending in blank
    ensures record[Beginning] == Str(b) && b != [] && Dash[0] !in b ==>
      Service.SerializeMessage(cls, record) == Effect(Ok(b + Dash + e), record) &&
      Service.DeserializeMessage(b + Dash + e, [cls]) == Ok(Service.Decoded(0, blank[Beginning := Str(b)][Ending := Str(e)]))
    ensures record[Beginning] == Null && Dash[0] !in e ==>
      Service.SerializeMessage(cls, record) == Effect(Ok(e), record) &&
      Service.DeserializeMessage(e, [cls]) == Ok(Service.Decoded(0, blank[Ending := Str(e)]))
  {
    EndingCanonical();
    MP.ParsePrint(EndingParts);
    var env := Env(EndingParts, cls);
    EndingSerialize(env, Initial(EndingParts), record, b, e);
    if record[Beginning] == Str(b) && b != [] && Dash[0] !in b {
      EndingDeserializeFull(env, blank, b, e);
      Service.SingleCandidate(cls, b + Dash + e);
    }
    if record[Beginning] == Null && Dash[0] !in e {
      EndingDeserializeShort(env, blank, e);
      Service.SingleCandidate(cls, e);
    }
  }

  lemma EndingCanonical()
    ensures MP.Canonical(EndingParts)
  {
    assert MP.IsIdentifier(Beginning) && MP.IsIdentifier(Ending);
    assert MP.CanonicalNode(MP.Literal(Dash));
    var body := [MP.Field(Beginning, -1), MP.Literal(Dash)];
    assert MP.CanonicalParts(body);
    assert MP.CanonicalNode(EndingParts[0]) && MP.CanonicalNode(EndingParts[1]);
  }

  /** The code units of `[{beginning}-]{ending}`. */
  const EndingTemplateText: JString := [0x5B, 0x7B] + Beginning + [0x7D, 0x2D, 0x5D, 0x7B] + Ending + [0x7D]

  lemma EndingTemplateUnits()
    ensures J("[{beginning}-]{ending}") == EndingTemplateText
  {
    TemplateHalves();
    JAppend("[{beginning}", "-]{ending}");
    assert "[{beginning}" + "-]{ending}" == "[{beginning}-]{ending}";
  }

  lemma TemplateHalves()
    ensures J("[{beginning}") == [0x5B, 0x7B] + Beginning + [0x7D]
    ensures J("-]{ending}") == [0x2D, 0x5D, 0x7B] + Ending + [0x7D]
  {
    OpeningHalf();
  }

  lemma OpeningHalf()
    ensures J("[{beginning}") == [0x5B, 0x7B] + Beginning + [0x7D]
  {
  }

  /** The template text of the type, as printed from its parse tree. */
  lemma EndingTemplate()
    ensures MP.Print(EndingParts) == J("[{beginning}-]{ending}")
  {
    var body := [MP.Field(Beginning, -1), MP.Literal(Dash)];
    assert MP.EscapedText(Dash) == Dash;
    assert MP.Print(body[1..]) == Dash;
    assert MP.Print(body) == [0x7B] + Beginning + [0x7D] + Dash;
    assert MP.Print(EndingParts[1..]) == [0x7B] + Ending + [0x7D];
    assert MP.Print(EndingParts) == EndingTemplateText;
    EndingTemplateUnits();
  }

  /** The example of the tests: "one" and "ending" are written as "one-ending" and read back. */
  lemma EndingExample(cls: MessageClass, blank: Record)
    requires cls.template == J("[{beginning}-]{ending}") && Bare(cls, blank)
    requires Direct(cls, Beginning) && Direct(cls, Ending)
    requires blank == map[Beginning := Null, Ending := Null]
    ensures Service.SerializeMessage(cls, map[Beginning := Str(J("one")), Ending := Str(J("ending"))]).out == Ok(J("one-ending"))
    ensures Service.DeserializeMessage(J("one-ending"), [cls]) ==
      Ok(Service.Decoded(0, map[Beginning := Str(J("one")), Ending := Str(J("ending"))]))
  {
    var one, ending := J("one"), J("ending");
    ExampleTexts();
    EndingTemplate();
    EndingMessageRoundTrip(cls, map[Beginning := Str(one), Ending := Str(ending)], blank, one, ending);
    assert blank[Beginning := Str(one)][Ending := Str(ending)] == map[Beginning := Str(one), Ending := Str(ending)];
  }

  /** The same type with a null beginning: it is written as "ending" and read back as null. */
  lemma EndingExampleNull(cls: MessageClass, blank: Record)
    requires cls.template == J("[{beginning}-]{ending}") && Bare(cls, blank)
    requires Direct(cls, Beginning) && Direct(cls, Ending)
    requires blank == map[Beginning := Null, Ending := Null]
    ensures Service.SerializeMessage(cls, map[Beginning := Null, Ending := Str(J("ending"))]).out == Ok(J("ending"))
    ensures Service.DeserializeMessage(J("ending"), [cls]) == Ok(Service.Decoded(0, map[Beginning := Null, Ending := Str(J("ending"))]))
  {
    var ending := J("ending");
    ExampleTexts();
    EndingTemplate();
    EndingMessageRoundTrip(cls, map[Beginning := Null, Ending := Str(ending)], blank, [], ending);
    assert blank[Ending := Str(ending)] == map[Beginning := Null, Ending := Str(ending)];
  }

  /** The texts of the example, as code units. */
  lemma ExampleTexts()
    ensures J("one") == [0x6F, 0x6E, 0x65] && J("ending") == Ending
    ensures J("one-ending") == J("one") + Dash + J("ending")
  {
    EndingNames();
  }

  // ---------------------------------------------------------------------
  // A field between two literals, `a{name}z`, with or without a callback

  /** The parse tree of a field framed by two literals. */
  function Framed(a: JString, name: JString, z: JString): seq<MP.Node>
  {
    [MP.Literal(a), MP.Field(name, -1), MP.Literal(z)]
  }

  lemma ThirdPath()
    ensures [] + [2] == [2] && Parent([2]) == [] && Last([2]) == 2
  {
  }

  /** Where each node starts, and what the field is anchored on. */
  lemma FramedLayout(a: JString, name: JString, z: JString, s: Slots)
    ensures Position(Framed(a, name, z), s, [0]) == Ok(0)
    ensures Position(Framed(a, name, z), s, [1]) == Ok(|a|)
    ensures Position(Framed(a, name, z), s, [2]) == Ok(|a| + Get(s, [1]).length)
    ensures ArrayIndex(Framed(a, name, z), s, [1]).None?
    ensures FollowingContent(Framed(a, name, z), s, [1], false) == Some(z)
  {
    var parts := Framed(a, name, z);
    Paths();
    ThirdPath();
    assert ChildrenAt(parts, []) == parts;
    assert LengthsBetween(s, parts, [], 1, 1) == Ok(0);
    assert LengthsBetween(s, parts, [], 2, 2) == Ok(0);
    assert LengthsBetween(s, parts, [], 0, 1) == Ok(|a|);
    assert LengthsBetween(s, parts, [], 1, 2) == Ok(Get(s, [1]).length);
    assert !Matches(parts, [1], ArrayClass);
    assert FollowingNode(parts, [1], false) == Some(2);
  }

  /**
   * Serializing: the field's callback runs on the record first and the
   * field's text is read from the record it leaves; the output is that text
   * between the two literals.
   */
  lemma FramedSerialize(env: Env, s: Slots, record: Record, a: JString, name: JString, z: JString, t: JString)
    requires env.parts == Framed(a, name, z) && name in record && name !in env.cls.represented
    requires Invoke(FieldHook(env.cls, name), name, record).out == Ok(true)
    requires ValueOf(Invoke(FieldHook(env.cls, name), name, record).record, name) == Str(t)
    ensures SerializeTree(env, s, record) == Walked(Ok(a + t + z), s, Invoke(FieldHook(env.cls, name), name, record).record)
  {
    var parts := env.parts;
    var h := Invoke(FieldHook(env.cls, name), name, record).record;
    Paths();
    ThirdPath();
    FramedLayout(a, name, z, s);
    assert GetField(env.cls, record, name, -1, None) == Effect(Ok(Some(t)), h);
    assert Serialize(env, s, record, parts[1], [1]) == Walked(Ok(t), s, h);
    assert SerializeChildren(env, s, h, parts, [], 2, a + t) == Walked(Ok(a + t + z), s, h);
    assert [] + a == a;
    assert Serialize(env, s, record, parts[0], [0]) == Walked(Ok(a), s, record);
    assert SerializeChildren(env, s, record, parts, [], 1, a) == Walked(Ok(a + t + z), s, h);
  }

  /** The field's window runs from the end of `a` to the first occurrence of `z`. */
  lemma FramedFieldEnd(env: Env, s: Slots, a: JString, name: JString, z: JString, t: JString)
    requires env.parts == Framed(a, name, z) && z != [] && z[0] !in t
    ensures FieldSpan(env, s, MP.Field(name, -1), [1], a + t + z, |a|) == Ok(|t|)
  {
    var m := a + t + z;
    var e := |a| + |t|;
    FramedLayout(a, name, z, s);
    assert m[e..e + |z|] == z;
    assert OccursAt(m, z, e);
    assert forall k | |a| <= k < e :: !OccursAt(m, z, k) by {
      forall k | |a| <= k < e ensures !OccursAt(m, z, k) {
        assert m[k] == t[k - |a|];
      }
    }
    assert IndexOf(m, z, |a|) == e;
    assert GetEnd(env.parts, s, MP.Field(name, -1), [1], m, |a|) == Ok(e);
  }

  /**
   * Deserializing `a`, a text free of the first character of `z`, and `z`:
   * the text is written to the field, and the field's callback then runs on
   * the written record. When the callback accepts, the record it leaves is
   * the outcome; when it answers false, the walk fails with a
   * ParserRuntimeException naming the field.
   */
  lemma FramedDeserialize(env: Env, s: Slots, blank: Record, a: JString, name: JString, z: JString, t: JString)
    requires env.parts == Framed(a, name, z) && name in blank && name !in env.cls.represented
    requires t != [] && z != [] && z[0] !in t
    ensures Invoke(FieldHook(env.cls, name), name, blank[name := Str(t)]).out == Ok(true) ==>
      DeserializeTree(env, s, blank, a + t + z).out == Ok(()) &&
      DeserializeTree(env, s, blank, a + t + z).record == Invoke(FieldHook(env.cls, name), name, blank[name := Str(t)]).record
    ensures Invoke(FieldHook(env.cls, name), name, blank[name := Str(t)]).out == Ok(false) ==>
      DeserializeTree(env, s, blank, a + t + z).out == Err(Runtime(CallbackReturnedFalse(name)))
  {
    var parts := env.parts;
    var m := a + t + z;
    var e := |a| + |t|;
    Paths();
    ThirdPath();
    FramedLayout(a, name, z, s);
    assert m[0..|a|] == a;
    assert Deserialize(env, s, blank, parts[0], [0], m) == Walked(Ok(()), s, blank);
    FramedFieldEnd(env, s, a, name, z, t);
    assert m[|a|..e] == t;
    var s2 := s[[1] := Get(s, [1]).(length := |t|, text := Some(t))];
    FramedLayout(a, name, z, s2);
    var eff := SetField(env.cls, blank, name, t, None);
    assert DeserializeField(env, s, blank, parts[1], [1], m) == Walked(eff.out, s2, eff.record);
    assert Deserialize(env, s, blank, parts[1], [1], m) == Walked(eff.out, s2, eff.record);
    assert DeserializeTree(env, s, blank, m) == DeserializeChildren(env, s, blank, parts, [], 1, m);
    if eff.out.Ok? {
      assert m[e..e + |z|] == z;
      assert Deserialize(env, s2, eff.record, parts[2], [2], m) == Walked(Ok(()), s2, eff.record);
      assert DeserializeChildren(env, s2, eff.record, parts, [], 2, m) == Walked(Ok(()), s2, eff.record);
    }
  }

  // ---------------------------------------------------------------------
  // The type with callbacks, template `call-{back}-message`

  /** The field names "back", "callback" and "classCallback", and the two literals. */
  const Back: JString := [0x62, 0x61, 0x63, 0x6B]
  const CallbackField: JString := [0x63, 0x61, 0x6C, 0x6C, 0x62, 0x61, 0x63, 0x6B]
  const ClassCallbackField: JString := [0x63, 0x6C, 0x61, 0x73, 0x73, 0x43, 0x61, 0x6C, 0x6C, 0x62, 0x61, 0x63, 0x6B]
  const Call: JString := [0x63, 0x61, 0x6C, 0x6C, 0x2D]
  const Tail: JString := [0x2D, 0x6D, 0x65, 0x73, 0x73, 0x61, 0x67, 0x65]

  /** How Java's string concatenation writes a null reference. */
  const NullText: JString := [0x6E, 0x75, 0x6C, 0x6C]

  /** `toUpperCase` on a code unit, for the Latin letters a to z. */
  function UpperUnit(c: JChar): JChar
  {
    if 0x61 <= c <= 0x7A then c - 0x20 else c
  }

  function AsciiUpper(s: JString): JString
  {
    seq(|s|, i requires 0 <= i < |s| => UpperUnit(s[i]))
  }

  /**
   * The field callback `callback()`: it stores `back` in upper case in
   * `callback` and returns nothing; a null `back` makes it throw.
   */
  function UpperHook(r: Record): HookResult
  {
    if Back in r && r[Back].Str? then HookResult(ReturnedOther, r[CallbackField := Str(AsciiUpper(r[Back].text))])
    else HookResult(Threw, r)
  }

  /** The type callback `classCallback()`: it stores `back + back` in `classCallback`. */
  function DoubleHook(r: Record): HookResult
  {
    var b := match ValueOf(r, Back) case Str(t) => t case _ => NullText;
    HookResult(ReturnedOther, r[ClassCallbackField := Str(b + b)])
  }

  /** The fresh instance: all three fields null. */
  const CallbackBlank: Record := map[Back := Null, CallbackField := Null, ClassCallbackField := Null]

  /** The type of the tests, with both callbacks. */
  function CallbackType(name: JString): MessageClass
  {
    MessageClass(name, CallbackTemplateText, DefaultChecksum, Some(DoubleHook),
      map[Back := UpperHook], map[], {}, Some(CallbackBlank))
  }

  /** The record both directions leave behind for the text `t`. */
  function Called(t: JString): Record
  {
    map[Back := Str(t), CallbackField := Str(AsciiUpper(t)), ClassCallbackField := Str(t + t)]
  }

  const CallbackParts: seq<MP.Node> := Framed(Call, Back, Tail)

  lemma CallbackNames()
    ensures Back != CallbackField && Back != ClassCallbackField && CallbackField != ClassCallbackField
    ensures MP.IsIdentifier(Back)
  {
    assert Back[0] != CallbackField[0];
    assert Back[0] != ClassCallbackField[0];
    assert CallbackField[1] != ClassCallbackField[1];
  }

  lemma CallbackCanonical()
    ensures MP.Canonical(CallbackParts)
  {
    CallbackNames();
    assert MP.CanonicalNode(CallbackParts[0]) && MP.CanonicalNode(CallbackParts[1]) && MP.CanonicalNode(CallbackParts[2]);
  }

  /** A literal without control characters and backslashes prints as itself. */
  lemma {:induction false} PlainEscaped(s: JString)
    requires forall k | 0 <= k < |s| :: !MP.IsControl(s[k]) && s[k] != MP.Escape
    ensures MP.EscapedText(s) == s
    decreases |s|
  {
    if s != [] {
      PlainEscaped(s[1..]);
      assert [s[0]] + s[1..] == s;
    }
  }

  /** A dash or a lower-case Latin letter is neither a control character nor a backslash. */
  lemma LowerPlain(c: JChar)
    requires c == 0x2D || 0x61 <= c <= 0x7A
    ensures !MP.IsControl(c) && c != MP.Escape
  {
  }

  lemma PlainLiterals()
    ensures MP.EscapedText(Call) == Call && MP.EscapedText(Tail) == Tail
  {
    forall k | 0 <= k < |Call| ensures !MP.IsControl(Call[k]) && Call[k] != MP.Escape {
      LowerPlain(Call[k]);
    }
    forall k | 0 <= k < |Tail| ensures !MP.IsControl(Tail[k]) && Tail[k] != MP.Escape {
      LowerPlain(Tail[k]);
    }
    PlainEscaped(Call);
    PlainEscaped(Tail);
  }

  /** The code units of `call-{back}-message`. */
  const CallbackTemplateText: JString := Call + [0x7B] + Back + [0x7D] + Tail

  lemma CallbackTemplateUnits()
    ensures J("call-{back}-message") == CallbackTemplateText
  {
    CallbackHalves();
    JAppend("call-{back}", "-message");
    assert "call-{back}" + "-message" == "call-{back}-message";
  }

  lemma CallbackHalves()
    ensures J("call-{back}") == Call + [0x7B] + Back + [0x7D]
    ensures J("-message") == Tail
  {
  }

  /** The template of the type, `call-{back}-message`, as printed from its parse tree. */
  lemma CallbackTemplate()
    ensures MP.Print(CallbackParts) == CallbackTemplateText
  {
    FramedPrint(Call, Back, Tail);
    PlainLiterals();
  }

  /** The template a framed field prints as. */
  lemma FramedPrint(a: JString, name: JString, z: JString)
    ensures MP.Print(Framed(a, name, z)) == MP.EscapedText(a) + [0x7B] + name + [0x7D] + MP.EscapedText(z)
  {
    var parts := Framed(a, name, z);
    assert parts[2..][1..] == [];
    assert MP.Print(parts[2..]) == MP.EscapedText(z);
    assert parts[1..][1..] == parts[2..];
    FieldPrint(name);
    assert MP.Print(parts[1..]) == [0x7B] + name + [0x7D] + MP.EscapedText(z);
    Regroup(MP.EscapedText(a), [0x7B], name, [0x7D], MP.EscapedText(z));
  }

  lemma Regroup(a: JString, b: JString, c: JString, d: JString, e: JString)
    ensures a + (b + c + d + e) == a + b + c + d + e
  {
  }

  lemma FieldPrint(name: JString)
    ensures MP.PrintNode(MP.Field(name, -1)) == [0x7B] + name + [0x7D]
  {
  }

  lemma CallbackParsed(name: JString)
    ensures MP.Parse(CallbackType(name).template) == Ok(CallbackParts)
  {
    CallbackCanonical();
    MP.ParsePrint(CallbackParts);
    CallbackTemplate();
  }

  /**
   * `serialize` on the type with callbacks: `classCallback()` runs first,
   * then `callback()` while `back` is read; the message is `back` between
   * "call-" and "-message", and the record ends with both callbacks' fields
   * filled in.
   */
  lemma CallbackSerialize(name: JString, record: Record, t: JString)
    requires Back in record && record[Back] == Str(t)
    ensures Service.SerializeMessage(CallbackType(name), record) ==
      Effect(Ok(Call + t + Tail), record[ClassCallbackField := Str(t + t)][CallbackField := Str(AsciiUpper(t))])
  {
    var cls := CallbackType(name);
    CallbackNames();
    CallbackParsed(name);
    var r1 := record[ClassCallbackField := Str(t + t)];
    assert Invoke(cls.classHook, cls.name, record) == Effect(Ok(true), r1);
    var r2 := r1[CallbackField := Str(AsciiUpper(t))];
    assert FieldHook(cls, Back) == Some(UpperHook);
    assert Invoke(FieldHook(cls, Back), Back, r1) == Effect(Ok(true), r2);
    FramedSerialize(Env(CallbackParts, cls), Initial(CallbackParts), r1, Call, Back, Tail, t);
  }

  /** A null `back`: the type callback still runs, then `callback()` throws while `back` is read. */
  lemma CallbackSerializeNull(name: JString, record: Record)
    requires Back in record && record[Back] == Null
    ensures Service.SerializeMessage(CallbackType(name), record).out == Err(Runtime(CouldNotCallMethod(Back)))
  {
    var cls := CallbackType(name);
    var parts := CallbackParts;
    CallbackNames();
    CallbackParsed(name);
    Paths();
    var r1 := record[ClassCallbackField := Str(NullText + NullText)];
    assert Invoke(cls.classHook, cls.name, record) == Effect(Ok(true), r1);
    assert FieldHook(cls, Back) == Some(UpperHook);
    GetHookedField(cls, r1, Back);
    var env := Env(parts, cls);
    var s := Initial(parts);
    FramedLayout(Call, Back, Tail, s);
    assert Serialize(env, s, r1, parts[1], [1]).out == Err(Runtime(CouldNotCallMethod(Back)));
    assert Serialize(env, s, r1, parts[0], [0]) == Walked(Ok(Call), s, r1);
    assert SerializeChildren(env, s, r1, parts, [], 1, Call).out == Err(Runtime(CouldNotCallMethod(Back)));
  }

  /**
   * `deserialize` on the type with callbacks: a text `t` between "call-" and
   * "-message" is written to `back`, `callback()` runs on it and
   * `classCallback()` runs after the walk.
   */
  lemma CallbackDeserialize(name: JString, t: JString)
    requires t != [] && Tail[0] !in t
    ensures Service.DeserializeMessage(Call + t + Tail, [CallbackType(name)]) == Ok(Service.Decoded(0, Called(t)))
  {
    CallbackAttempt(name, t);
    Service.SingleCandidate(CallbackType(name), Call + t + Tail);
  }

  lemma CallbackAttempt(name: JString, t: JString)
    requires t != [] && Tail[0] !in t
    ensures Service.Attempt(CallbackType(name), Call + t + Tail) == Ok(Called(t))
  {
    var cls := CallbackType(name);
    var d1 := CallbackWalk(name, t);
    CallbackParsed(name);
    ClassAfterField(t);
    assert Invoke(cls.classHook, cls.name, d1) == Effect(Ok(true), Called(t));
  }

  /** `classCallback()` on the record `callback()` left completes it. */
  lemma ClassAfterField(t: JString)
    ensures DoubleHook(CallbackBlank[Back := Str(t)][CallbackField := Str(AsciiUpper(t))]) == HookResult(ReturnedOther, Called(t))
  {
    CallbackNames();
    var d1 := CallbackBlank[Back := Str(t)][CallbackField := Str(AsciiUpper(t))];
    assert ValueOf(d1, Back) == Str(t);
    assert d1[ClassCallbackField := Str(t + t)] == Called(t);
  }

  /** The walk alone: `back` receives the text and `callback()` runs on the record. */
  lemma CallbackWalk(name: JString, t: JString) returns (d1: Record)
    requires t != [] && Tail[0] !in t
    ensures d1 == CallbackBlank[Back := Str(t)][CallbackField := Str(AsciiUpper(t))]
    ensures DeserializeTree(Env(CallbackParts, CallbackType(name)), Initial(CallbackParts), CallbackBlank, Call + t + Tail) ==
      Walked(Ok(()), DeserializeTree(Env(CallbackParts, CallbackType(name)), Initial(CallbackParts), CallbackBlank, Call + t + Tail).slots, d1)
  {
    var cls := CallbackType(name);
    CallbackNames();
    d1 := CallbackBlank[Back := Str(t)][CallbackField := Str(AsciiUpper(t))];
    assert FieldHook(cls, Back) == Some(UpperHook);
    assert Invoke(FieldHook(cls, Back), Back, CallbackBlank[Back := Str(t)]) == Effect(Ok(true), d1);
    FramedDeserialize(Env(CallbackParts, cls), Initial(CallbackParts), CallbackBlank, Call, Back, Tail, t);
  }

  /** The round trip: the record serialized from `back` alone is the record read back. */
  lemma CallbackRoundTrip(name: JString, t: JString)
    requires t != [] && Tail[0] !in t
    ensures Service.SerializeMessage(CallbackType(name), CallbackBlank[Back := Str(t)]) == Effect(Ok(Call + t + Tail), Called(t))
    ensures Service.DeserializeMessage(Service.SerializeMessage(CallbackType(name), CallbackBlank[Back := Str(t)]).out.value,
      [CallbackType(name)]) == Ok(Service.Decoded(0, Called(t)))
  {
    CallbackNames();
    CallbackSerialize(name, CallbackBlank[Back := Str(t)], t);
    assert CallbackBlank[Back := Str(t)][ClassCallbackField := Str(t + t)][CallbackField := Str(AsciiUpper(t))] == Called(t);
    CallbackDeserialize(name, t);
  }

  /**
   * The example of the tests: "hello" is written as "call-hello-message",
   * leaving "HELLO" and "hellohello" in the callbacks' fields, and reading
   * that message back gives the same record.
   */
  lemma CallbackExample(name: JString)
    ensures Service.SerializeMessage(CallbackType(name), CallbackBlank[Back := Str(J("hello"))]) ==
      Effect(Ok(J("call-hello-message")), map[Back := Str(J("hello")), CallbackField := Str(J("HELLO")), ClassCallbackField := Str(J("hellohello"))])
    ensures Service.DeserializeMessage(J("call-hello-message"), [CallbackType(name)]) ==
      Ok(Service.Decoded(0, map[Back := Str(J("hello")), CallbackField := Str(J("HELLO")), ClassCallbackField := Str(J("hellohello"))]))
  {
    var hello := J("hello");
    HelloTexts();
    CallbackRoundTrip(name, hello);
    CallbackDeserialize(name, hello);
  }

  /** The texts of the example, as code units. */
  lemma HelloTexts()
    ensures J("hello") == [0x68, 0x65, 0x6C, 0x6C, 0x6F] && Tail[0] !in J("hello")
    ensures AsciiUpper(J("hello")) == J("HELLO")
    ensures J("hello") + J("hello") == J("hellohello")
    ensures J("call-hello-message") == Call + J("hello") + Tail
  {
    HelloUpper();
    HelloTwice();
    HelloMessage();
  }

  lemma HelloUpper()
    ensures AsciiUpper(J("hello")) == J("HELLO")
  {
    var hello := J("hello");
    assert hello == [0x68, 0x65, 0x6C, 0x6C, 0x6F];
    assert J("HELLO") == [0x48, 0x45, 0x4C, 0x4C, 0x4F];
    forall i | 0 <= i < 5 ensures AsciiUpper(hello)[i] == J("HELLO")[i] {
      assert UpperUnit(hello[i]) == hello[i] - 0x20;
    }
  }

  lemma HelloTwice()
    ensures J("hello") + J("hello") == J("hellohello")
  {
    JAppend("hello", "hello");
    assert "hello" + "hello" == "hellohello";
  }

  lemma HelloMessage()
    ensures J("call-hello-message") == Call + J("hello") + Tail
  {
    assert J("call-") == Call;
    CallbackHalves();
    JAppend("call-", "hello");
    assert "call-" + "hello" == "call-hello";
    JAppend("call-hello", "-message");
    assert "call-hello" + "-message" == "call-hello-message";
  }

  // ---------------------------------------------------------------------
  // The represented field of `EnumContentMessage`

  /** The constants of its enumeration `Content`: VALUE_A, VALUE_B and VALUE_C, shown as "A", "B" and "C". */
  const ContentConstants: seq<Constant> :=
    [Constant(J("VALUE_A"), Some(Text([0x41]))), Constant(J("VALUE_B"), Some(Text([0x42]))), Constant(J("VALUE_C"), Some(Text([0x43])))]

  /**
   * Writing the field `content`: "B" (code unit 0x42) stores VALUE_B, while
   * "X" (0x58), which no constant carries and which has no default to fall
   * back on, cannot be stored in the enum-typed field and the write fails.
   */
  lemma EnumContentWrite(cls: MessageClass, record: Record)
    requires J("content") in record && J("content") !in cls.fieldHooks
    requires J("content") in cls.represented && cls.represented[J("content")] == ContentConstants
    ensures SetField(cls, record, J("content"), [0x42], None) == Effect(Ok(()), record[J("content") := Str(J("VALUE_B"))])
    ensures SetField(cls, record, J("content"), [0x58], None) == Effect(Err(Runtime(CouldNotSetData(J("content")))), record)
  {
    var cs := ContentConstants;
    assert cs[1] in cs && cs[1].mark == Some(Text([0x42]));
    SetRepresentedField(cls, record, J("content"), [0x42]);
    assert cs[..2][..1] == [cs[0]];
    assert LastMarked(cs, Text([0x42])) == LastMarked(cs[..2], Text([0x42]));
    assert forall c | c in cs :: c.mark != Some(Text([0x58])) && c.mark != Some(Default);
    SetRepresentedField(cls, record, J("content"), [0x58]);
  }
}
