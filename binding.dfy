/**
 * The boundary between a field node and a record: reading and writing a
 * named field, callback hooks, representation tables, fixed-length padding
 * and the list element an array node reads or writes.
 *
 * A record is a map from field names to values. A value is null, text, or a
 * list of nullable texts (the `List` fields an array body binds). Text stands
 * for the `toString()` of whatever the Java field holds; an enumeration
 * constant is held by its name.
 */
module Binding {
  import opened JavaText
  import opened Failures
  import EccService

  datatype Value = Null | Str(text: JString) | List(items: seq<Option<JString>>)

  type Record = map<JString, Value>

  /** What invoking a callback method gave back: a Boolean, anything else, or an exception. */
  datatype Answer = Returned(flag: bool) | ReturnedOther | Threw

  /** A callback runs on the record, may change it, and answers. */
  datatype HookResult = HookResult(answer: Answer, record: Record)

  type Hook = Record -> HookResult

  /** The value of an `@Representation` annotation: the designated default, or a text. */
  datatype Mark = Default | Text(text: JString)

  /** An enumeration constant of a represented field's type, with its annotation if any. */
  datatype Constant = Constant(name: JString, mark: Option<Mark>)

  /**
   * A record type as the codec sees it: its template, its checksum function
   * (`None` when the named function cannot be called), its type-level and
   * field-level callbacks, the constants of its represented fields in
   * declaration order, the fields declared as `List`, and the record a fresh
   * instance starts with (`None` when there is no accessible constructor).
   */
  datatype MessageClass = MessageClass(
    name: JString,
    template: JString,
    checksum: Option<JString> -> Option<JChar>,
    classHook: Option<Hook>,
    fieldHooks: map<JString, Hook>,
    represented: map<JString, seq<Constant>>,
    listFields: set<JString>,
    instance: Option<Record>)

  /** `ECCService.xor` as the checksum of the default `@ECC`; a null block makes the call fail. */
  function DefaultChecksum(content: Option<JString>): Option<JChar>
  {
    match content
    case None => None
    case Some(s) => Some(EccService.Xor(s))
  }

  /** An outcome together with the record as it stands afterwards. */
  datatype Effect<T> = Effect(out: Result<T>, record: Record)

  /**
   * `invokeCallbackMethod`: no hook counts as success; a Boolean answer is
   * the verdict; any other answer counts as success; an exception becomes a
   * ParserRuntimeException.
   */
  function Invoke(hook: Option<Hook>, name: JString, record: Record): (r: Effect<bool>)
    ensures hook.None? ==> r == Effect(Ok(true), record)
    ensures hook.Some? && hook.value(record).answer.Returned? ==>
      r == Effect(Ok(hook.value(record).answer.flag), hook.value(record).record)
    ensures hook.Some? && hook.value(record).answer.ReturnedOther? ==> r == Effect(Ok(true), hook.value(record).record)
    ensures r.out.Err? ==> r.out.failure == Runtime(CouldNotCallMethod(name))
    ensures r.out.Err? <==> hook.Some? && hook.value(record).answer.Threw?
  {
    match hook
    case None => Effect(Ok(true), record)
    case Some(h) =>
      var result := h(record);
      match result.answer
      case Returned(flag) => Effect(Ok(flag), result.record)
      case ReturnedOther => Effect(Ok(true), result.record)
      case Threw => Effect(Err(Runtime(CouldNotCallMethod(name))), result.record)
  }

  /** Runs a callback and turns a `false` answer into a ParserRuntimeException. */
  function RunHook(hook: Option<Hook>, name: JString, record: Record): (r: Effect<()>)
    ensures r.out.Ok? <==> Invoke(hook, name, record).out == Ok(true)
    ensures r.record == Invoke(hook, name, record).record
  {
    var e := Invoke(hook, name, record);
    match e.out
    case Err(f) => Effect(Err(f), e.record)
    case Ok(flag) => if flag then Effect(Ok(()), e.record) else Effect(Err(Runtime(CallbackReturnedFalse(name))), e.record)
  }

  function FieldHook(cls: MessageClass, name: JString): Option<Hook>
  {
    if name in cls.fieldHooks then Some(cls.fieldHooks[name]) else None
  }

  /** The value of a field, null when the record does not hold it. */
  function ValueOf(record: Record, name: JString): Value
  {
    if name in record then record[name] else Null
  }

  // ---------------------------------------------------------------------
  // Representations

  /** The constant named `name`, if the type declares one. */
  function ConstantNamed(cs: seq<Constant>, name: JString): (r: Option<Constant>)
    ensures r.Some? ==> r.value in cs && r.value.name == name
    ensures r.None? ==> forall c | c in cs :: c.name != name
  {
    if cs == [] then None
    else if cs[0].name == name then Some(cs[0])
    else ConstantNamed(cs[1..], name)
  }

  /**
   * The encode side of a represented field: a constant annotated with a text
   * other than the default is replaced by that text; everything else is kept.
   */
  function Represent(cls: MessageClass, field: JString, v: Value): (r: Value)
  {
    if field in cls.represented && v.Str? then
      match ConstantNamed(cls.represented[field], v.text)
      case Some(Constant(_, Some(Text(t)))) => Str(t)
      case _ => v
    else v
  }

  /** The name of the last constant annotated with `m`, if any. */
  function LastMarked(cs: seq<Constant>, m: Mark): (r: Option<JString>)
    ensures r.Some? ==> exists c | c in cs :: c.mark == Some(m) && c.name == r.value
    ensures r.None? ==> forall c | c in cs :: c.mark != Some(m)
  {
    if cs == [] then None
    else if cs[|cs| - 1].mark == Some(m) then Some(cs[|cs| - 1].name)
    else LastMarked(cs[..|cs| - 1], m)
  }

  /**
   * The decode side: the constant whose representation is the text, else the
   * constant marked as default, else the text itself. Among several matching
   * constants the last declared one wins.
   */
  function Unrepresent(cs: seq<Constant>, text: JString): JString
  {
    match LastMarked(cs, Text(text))
    case Some(c) => c
    case None =>
      match LastMarked(cs, Default)
      case Some(d) => d
      case None => text
  }

  /**
   * A text the representation table cannot resolve: the field's type declares
   * annotated constants, so it is no String type, and none of them carries
   * the text or is the default. The raw String is then kept, and storing it
   * in a field of the constants' type makes `Field.set` throw.
   */
  predicate Unresolved(cs: seq<Constant>, text: JString)
  {
    cs != [] && LastMarked(cs, Text(text)).None? && LastMarked(cs, Default).None?
  }

  /**
   * `processMessageContent`'s loop over the annotated constants: each
   * default constant and each constant whose text equals the content is
   * remembered, the last one winning.
   */
  method ResolveRepresentation(cs: seq<Constant>, text: JString) returns (r: JString)
    ensures r == Unrepresent(cs, text)
  {
    var newContent: Option<JString> := None;
    var defaultContent: Option<JString> := None;
    var i := 0;
    while i < |cs|
      invariant 0 <= i <= |cs|
      invariant newContent == LastMarked(cs[..i], Text(text))
      invariant defaultContent == LastMarked(cs[..i], Default)
    {
      assert cs[..i + 1][..i] == cs[..i];
      if cs[i].mark == Some(Default) {
        defaultContent := Some(cs[i].name);
      } else if cs[i].mark == Some(Text(text)) {
        newContent := Some(cs[i].name);
      }
      i := i + 1;
    }
    assert cs[..i] == cs;
    r := if newContent.Some? then newContent.value else if defaultContent.Some? then defaultContent.value else text;
  }

  /** Decoding a representation finds a constant annotated with exactly that text, when one exists. */
  lemma UnrepresentFinds(cs: seq<Constant>, text: JString)
    ensures (exists c | c in cs :: c.mark == Some(Text(text))) ==>
      exists c | c in cs :: c.mark == Some(Text(text)) && c.name == Unrepresent(cs, text)
    ensures (forall c | c in cs :: c.mark != Some(Text(text)) && c.mark != Some(Default)) ==>
      Unrepresent(cs, text) == text
  {
  }

  /**
   * Encoding then decoding a constant gives it back when its text is its
   * own: no other constant carries the same text.
   */
  lemma RepresentRoundTrip(cls: MessageClass, field: JString, c: Constant, t: JString)
    requires field in cls.represented
    requires c in cls.represented[field] && c.mark == Some(Text(t))
    requires forall d | d in cls.represented[field] && d.name == c.name :: d == c
    requires forall d | d in cls.represented[field] && d.mark == Some(Text(t)) :: d.name == c.name
    ensures Represent(cls, field, Str(c.name)) == Str(t)
    ensures Unrepresent(cls.represented[field], t) == c.name
  {
    var cs := cls.represented[field];
    var found := ConstantNamed(cs, c.name);
    assert found == Some(c);
    assert exists d | d in cs :: d.mark == Some(Text(t));
    UnrepresentFinds(cs, t);
  }

  // ---------------------------------------------------------------------
  // Reading a field

  /** `toString()` of a list: its items between brackets, separated by ", ", null as "null". */
  function ListText(items: seq<Option<JString>>): JString
  {
    [0x5B] + Join(seq(|items|, i requires 0 <= i < |items| => ItemText(items[i])), [0x2C, 0x20]) + [0x5D]
  }

  function ItemText(item: Option<JString>): JString
  {
    match item
    case None => [0x6E, 0x75, 0x6C, 0x6C]   // "null"
    case Some(s) => s
  }

  /** The text `toString()` gives, or none for null. */
  function TextOf(v: Value): Option<JString>
  {
    match v
    case Null => None
    case Str(s) => Some(s)
    case List(items) => Some(ListText(items))
  }

  /**
   * `ArrayNode.getCurrentArrayData`: the list element at the array index;
   * null for a value that is no list. A null value is dereferenced.
   */
  function CurrentItem(v: Value, index: int): (r: Result<Value>)
    ensures v.List? && 0 <= index < |v.items| ==> r == Ok(if v.items[index].Some? then Str(v.items[index].value) else Null)
    ensures v.List? && !(0 <= index < |v.items|) ==> r == Err(Parsing(OutOfRange))
    ensures v.Null? ==> r == Err(NullReference)
    ensures v.Str? ==> r == Ok(Null)
  {
    match v
    case Null => Err(NullReference)
    case Str(_) => Ok(Null)
    case List(items) =>
      if 0 <= index < |items| then Ok(if items[index].Some? then Str(items[index].value) else Null)
      else Err(Parsing(OutOfRange))
  }

  /** Fixed-length output: right-padded with spaces, or cut, to exactly `n` characters. */
  function Pad(data: JString, n: nat): (r: JString)
    ensures |r| == n
    ensures |data| <= n ==> r[..|data|] == data && forall i | |data| <= i < n :: r[i] == Space
    ensures |data| >= n ==> r == data[..n]
  {
    if |data| < n then data + Spaces(n - |data|)
    else if |data| > n then data[..n]
    else data
  }

  /** Padding keeps text that already has the length, and is idempotent. */
  lemma PadIdempotent(data: JString, n: nat)
    ensures |data| == n ==> Pad(data, n) == data
    ensures Pad(Pad(data, n), n) == Pad(data, n)
  {
  }

  /**
   * `getField`: the field must exist; its callback runs first; the value is
   * then read, represented, projected onto the array index when the node sits
   * in an array, turned into text and padded to a fixed length. `None` is a
   * null value.
   */
  function GetField(cls: MessageClass, record: Record, field: JString, fieldLength: int, arrayIndex: Option<int>): (r: Effect<Option<JString>>)
    ensures field !in record ==> r == Effect(Err(Runtime(CouldNotGetData(field))), record)
    ensures r.out.Ok? && r.out.value.Some? && fieldLength >= 0 ==> |r.out.value.value| == fieldLength
  {
    if field !in record then Effect(Err(Runtime(CouldNotGetData(field))), record)
    else
      var hooked := RunHook(FieldHook(cls, field), field, record);
      if hooked.out.Err? then Effect(Err(hooked.out.failure), hooked.record)
      else
        var v := Represent(cls, field, ValueOf(hooked.record, field));
        var item := if arrayIndex.Some? then CurrentItem(v, arrayIndex.value) else Ok(v);
        match item
        case Err(f) => Effect(Err(f), hooked.record)
        case Ok(w) =>
          match TextOf(w)
          case None => Effect(Ok(None), hooked.record)
          case Some(data) => Effect(Ok(Some(if fieldLength >= 0 then Pad(data, fieldLength) else data)), hooked.record)
  }

  /** A field without hook, representation or array reads back its own text. */
  lemma GetPlainField(cls: MessageClass, record: Record, field: JString, text: JString)
    requires field in record && record[field] == Str(text)
    requires field !in cls.fieldHooks && field !in cls.represented
    ensures GetField(cls, record, field, -1, None) == Effect(Ok(Some(text)), record)
  {
  }

  /**
   * A field with a callback and no representation, outside any array: the
   * callback runs on the record first, and the text is read from the record
   * it leaves. A `false` answer or a failing call is a ParserRuntimeException.
   */
  lemma GetHookedField(cls: MessageClass, record: Record, field: JString)
    requires field in record && field in cls.fieldHooks && field !in cls.represented
    ensures var h := cls.fieldHooks[field](record);
      GetField(cls, record, field, -1, None) ==
        if h.answer == Returned(false) then Effect(Err(Runtime(CallbackReturnedFalse(field))), h.record)
        else if h.answer.Threw? then Effect(Err(Runtime(CouldNotCallMethod(field))), h.record)
        else Effect(Ok(TextOf(ValueOf(h.record, field))), h.record)
  {
  }

  // ---------------------------------------------------------------------
  // Writing a field

  /**
   * `ArrayNode.setCurrentArrayData` for a field declared as `List`: the list
   * is created when null, the content is appended when the index is at or past
   * its end, and written at the index otherwise. A field of another type keeps
   * its value.
   */
  function StoreItem(isList: bool, current: Value, content: JString, index: int): (r: Result<Value>)
    ensures isList && index >= 0 ==> r.Ok? && r.value.List?
    ensures !isList ==> r == Ok(current)
  {
    if !isList then Ok(current)
    else
      var items := if current.List? then current.items else [];
      if index >= |items| then Ok(List(items + [Some(content)]))
      else if index < 0 then Err(Parsing(OutOfRange))
      else Ok(List(items[index := Some(content)]))
  }

  /** Storing at successive indices from an empty list builds the list of contents in order. */
  lemma StoreItemAppends(items: seq<Option<JString>>, content: JString)
    ensures StoreItem(true, List(items), content, |items|) == Ok(List(items + [Some(content)]))
    ensures StoreItem(true, Null, content, 0) == Ok(List([Some(content)]))
  {
    assert [] + [Some(content)] == [Some(content)];
  }

  /**
   * Writing a list element, then reading it: the content is at the index
   * when the index is inside the list, and at the old end when it is at or
   * past it; every other element is unchanged.
   */
  lemma StoreThenCurrent(current: Value, content: JString, index: int)
    requires index >= 0
    ensures var items := if current.List? then current.items else [];
      var at := if index < |items| then index else |items|;
      StoreItem(true, current, content, index).Ok? &&
      StoreItem(true, current, content, index).value.List? &&
      |StoreItem(true, current, content, index).value.items| == (if index < |items| then |items| else |items| + 1) &&
      CurrentItem(StoreItem(true, current, content, index).value, at) == Ok(Str(content)) &&
      forall j | 0 <= j < |items| && j != at :: CurrentItem(StoreItem(true, current, content, index).value, j) == CurrentItem(List(items), j)
  {
  }

  /**
   * `setField`: the field must exist; the text is mapped back through the
   * representation table, stored into the list element when the node sits in
   * an array, written, and then the field's callback runs. Outside an array,
   * a text the table cannot resolve fails to be written, before the callback.
   */
  function SetField(cls: MessageClass, record: Record, field: JString, text: JString, arrayIndex: Option<int>): (r: Effect<()>)
    ensures field !in record ==> r == Effect(Err(Runtime(CouldNotSetData(field))), record)
    ensures field in record && arrayIndex.None? && field in cls.represented && Unresolved(cls.represented[field], text) ==>
      r == Effect(Err(Runtime(CouldNotSetData(field))), record)
  {
    if field !in record then Effect(Err(Runtime(CouldNotSetData(field))), record)
    else if arrayIndex.None? && field in cls.represented && Unresolved(cls.represented[field], text) then
      Effect(Err(Runtime(CouldNotSetData(field))), record)
    else
      var content := if field in cls.represented then Unrepresent(cls.represented[field], text) else text;
      var stored :=
        if arrayIndex.Some? then StoreItem(field in cls.listFields, record[field], content, arrayIndex.value)
        else Ok(Str(content));
      match stored
      case Err(f) => Effect(Err(f), record)
      case Ok(v) => RunHook(FieldHook(cls, field), field, record[field := v])
  }

  /** A field without hook or representation, outside any array, is overwritten with the text. */
  lemma SetPlainField(cls: MessageClass, record: Record, field: JString, text: JString)
    requires field in record
    requires field !in cls.fieldHooks && field !in cls.represented
    ensures SetField(cls, record, field, text, None) == Effect(Ok(()), record[field := Str(text)])
  {
  }

  /**
   * A field with a callback and no representation, outside any array: the
   * text is written first and the callback then sees the written record; the
   * record it leaves is kept. A `false` answer is a ParserRuntimeException
   * naming the field, a failing call too; any other answer is success.
   */
  lemma SetHookedField(cls: MessageClass, record: Record, field: JString, text: JString)
    requires field in record && field in cls.fieldHooks && field !in cls.represented
    ensures var h := cls.fieldHooks[field](record[field := Str(text)]);
      SetField(cls, record, field, text, None).record == h.record &&
      (h.answer == Returned(false) ==> SetField(cls, record, field, text, None).out == Err(Runtime(CallbackReturnedFalse(field)))) &&
      (h.answer.Threw? ==> SetField(cls, record, field, text, None).out == Err(Runtime(CouldNotCallMethod(field)))) &&
      (h.answer == Returned(true) || h.answer.ReturnedOther? ==> SetField(cls, record, field, text, None).out == Ok(()))
  {
  }

  /** Writing a field's text and reading it back gives the text again. */
  lemma SetThenGet(cls: MessageClass, record: Record, field: JString, text: JString)
    requires field in record
    requires field !in cls.fieldHooks && field !in cls.represented
    ensures SetField(cls, record, field, text, None).out.Ok?
    ensures GetField(cls, SetField(cls, record, field, text, None).record, field, -1, None).out == Ok(Some(text))
  {
    SetPlainField(cls, record, field, text);
    GetPlainField(cls, record[field := Str(text)], field, text);
  }

  /**
   * A represented field outside any array receives the constant its text
   * stands for, or the default constant. When the type declares constants
   * and neither exists, the text cannot be stored in the field: the write is
   * a ParserRuntimeException and the record is left alone.
   */
  lemma SetRepresentedField(cls: MessageClass, record: Record, field: JString, text: JString)
    requires field in record
    requires field !in cls.fieldHooks && field in cls.represented
    ensures var cs := cls.represented[field];
      (cs == [] || exists c | c in cs :: c.mark == Some(Text(text)) || c.mark == Some(Default)) ==>
        SetField(cls, record, field, text, None) == Effect(Ok(()), record[field := Str(Unrepresent(cs, text))])
    ensures var cs := cls.represented[field];
      (cs != [] && forall c | c in cs :: c.mark != Some(Text(text)) && c.mark != Some(Default)) ==>
        SetField(cls, record, field, text, None) == Effect(Err(Runtime(CouldNotSetData(field))), record)
  {
    var cs := cls.represented[field];
    if exists c | c in cs :: c.mark == Some(Text(text)) || c.mark == Some(Default) {
      var c :| c in cs && (c.mark == Some(Text(text)) || c.mark == Some(Default));
      assert !Unresolved(cs, text);
    }
    if cs != [] && forall c | c in cs :: c.mark != Some(Text(text)) && c.mark != Some(Default) {
      assert LastMarked(cs, Text(text)).None? && LastMarked(cs, Default).None?;
    }
  }

  /**
   * Writing a represented constant's text and reading the field back gives
   * the text again, when no other constant carries that text.
   */
  lemma SetThenGetRepresented(cls: MessageClass, record: Record, field: JString, c: Constant, t: JString)
    requires field in record && field !in cls.fieldHooks && field in cls.represented
    requires c in cls.represented[field] && c.mark == Some(Text(t))
    requires forall d | d in cls.represented[field] && d.name == c.name :: d == c
    requires forall d | d in cls.represented[field] && d.mark == Some(Text(t)) :: d.name == c.name
    ensures SetField(cls, record, field, t, None) == Effect(Ok(()), record[field := Str(c.name)])
    ensures GetField(cls, SetField(cls, record, field, t, None).record, field, -1, None).out == Ok(Some(t))
  {
    RepresentRoundTrip(cls, field, c, t);
    SetRepresentedField(cls, record, field, t);
  }

  /**
   * Writing one element of a plain `List` field through an array index and
   * reading the element at that index back gives the text; the elements at
   * other indices read as before.
   */
  lemma SetThenGetItem(cls: MessageClass, record: Record, field: JString, text: JString, index: nat)
    requires field in record && field !in cls.fieldHooks && field !in cls.represented && field in cls.listFields
    requires record[field].List? && index <= |record[field].items|
    ensures SetField(cls, record, field, text, Some(index)).out.Ok?
    ensures GetField(cls, SetField(cls, record, field, text, Some(index)).record, field, -1, Some(index)).out == Ok(Some(text))
    ensures forall j | 0 <= j < |record[field].items| && j != index ::
      GetField(cls, SetField(cls, record, field, text, Some(index)).record, field, -1, Some(j)).out ==
      GetField(cls, record, field, -1, Some(j)).out
  {
    StoreThenCurrent(record[field], text, index);
  }
}
