/**
 * How each kind of parser node serializes a record into a message and
 * deserializes a message into a record. A walk threads two pieces of state
 * through the tree: the nodes' own fields (`Slots`) and the record being read
 * or written. Both are returned with the outcome, also when the outcome is a
 * failure, because Java keeps whatever was changed before the exception.
 */
module Walk {
  import opened JavaText
  import opened Failures
  import opened Binding
  import opened NodeTree
  import MP = MessageParser

  /** A compiled template and the record type it belongs to. */
  datatype Env = Env(parts: seq<MP.Node>, cls: MessageClass)

  /** The outcome of a walk together with the node state and the record it leaves behind. */
  datatype Walked<T> = Walked(out: Result<T>, slots: Slots, record: Record)

  /** Java's `IndexOutOfBoundsException`, caught and rethrown as a `ParsingException`. */
  function Wrap(f: Failure): (r: Failure)
    ensures r != IndexOutOfBounds
    ensures f != IndexOutOfBounds ==> r == f
  {
    if f == IndexOutOfBounds then Parsing(OutOfRange) else f
  }

  /** The element index a field reads or writes: that of the nearest enclosing array, if any. */
  function ArrayIndex(parts: seq<MP.Node>, s: Slots, p: Path): Option<int>
  {
    match FindParent(parts, p, ArrayClass)
    case None => None
    case Some(a) => Some(Get(s, a).index)
  }

  // ---------------------------------------------------------------------
  // Checksums

  /**
   * `findReferenceECCBlockNode`: the first checksum block of the whole tree,
   * in pre-order, whose reference is `reference`.
   */
  function FindBlock(parts: seq<MP.Node>, reference: JString): Option<Path>
  {
    FirstBlock(FilteredNodes(parts, EccBlockClass), reference, 0)
  }

  function FirstBlock(blocks: seq<Located>, reference: JString, i: nat): (r: Option<Path>)
    requires i <= |blocks|
    ensures r.Some? ==> exists j | i <= j < |blocks| :: blocks[j].path == r.value && blocks[j].node.EccBlock? && blocks[j].node.reference == reference
    ensures r.None? ==> forall j | i <= j < |blocks| :: !(blocks[j].node.EccBlock? && blocks[j].node.reference == reference)
    decreases |blocks| - i
  {
    if i == |blocks| then None
    else if blocks[i].node.EccBlock? && blocks[i].node.reference == reference then Some(blocks[i].path)
    else FirstBlock(blocks, reference, i + 1)
  }

  /** The checksum over the referenced block's current content, as one character. */
  function Checksum(env: Env, s: Slots, reference: JString): Result<JChar>
  {
    match FindBlock(env.parts, reference)
    case None => Err(Parsing(BlockNotFound(reference)))
    case Some(b) =>
      match env.cls.checksum(Get(s, b).text)
      case None => Err(Parsing(ChecksumFailed))
      case Some(c) => Ok(c)
  }

  // ---------------------------------------------------------------------
  // Arrays

  /**
   * `getAllListsSize`: the common size of the list fields below an array
   * (fields inside an optional do not take part), -1 when two sizes differ
   * or there is no list field at all.
   */
  function AllListsSize(env: Env, record: Record, body: seq<MP.Node>, p: Path): Result<int>
  {
    ListsSize(env, record, Filtered(body, p, FieldClass, 0), 0, -1)
  }

  /** A field the size check takes into account: one with no optional anywhere above it. */
  predicate Counted(env: Env, f: Located)
  {
    f.node.Field? && FindParent(env.parts, f.path, OptionalClass).None?
  }

  function ListsSize(env: Env, record: Record, fields: seq<Located>, i: nat, size: int): (r: Result<int>)
    requires i <= |fields|
    requires size >= -1
    ensures r.Ok? ==> r.value >= -1
    decreases |fields| - i
  {
    if i == |fields| then Ok(size)
    else if !Counted(env, fields[i]) then
      ListsSize(env, record, fields, i + 1, size)
    else
      var name := fields[i].node.name;
      if name !in record then Err(Parsing(MissingField(name)))
      else match record[name]
        case List(items) =>
          if size == -1 || size == |items| then ListsSize(env, record, fields, i + 1, |items|) else Ok(-1)
        case _ => Err(Parsing(NeedArrayOrList(name)))
  }

  /**
   * The trailing-delimiter trim at the end of `ArrayNode.serialize`, as
   * written: it deletes from `|buf| - |delimiter|` whenever the last
   * occurrence of the delimiter starts there, and a negative start throws.
   */
  function TrimAsWritten(buf: JString, delimiter: JString): (r: Result<JString>)
  {
    if LastIndexOf(buf, delimiter) == |buf| - |delimiter| then
      if |buf| - |delimiter| < 0 then Err(IndexOutOfBounds) else Ok(buf[..|buf| - |delimiter|])
    else Ok(buf)
  }

  /** The trim as intended: drop one trailing delimiter, if there is one. */
  function Trim(buf: JString, delimiter: JString): (r: JString)
    ensures |delimiter| <= |buf| && buf[|buf| - |delimiter|..] == delimiter ==> r == buf[..|buf| - |delimiter|]
    ensures !(|delimiter| <= |buf| && buf[|buf| - |delimiter|..] == delimiter) ==> r == buf
  {
    if |delimiter| <= |buf| && LastIndexOf(buf, delimiter) == |buf| - |delimiter| then buf[..|buf| - |delimiter|]
    else
      assert !OccursAt(buf, delimiter, |buf| - |delimiter|) || |delimiter| > |buf|;
      buf
  }

  /**
   * `StringTokenizer(s, delimiter)`: the maximal runs of characters that are
   * not among the delimiter's characters, in order.
   */
  function Tokens(s: JString, delimiter: JString): (r: seq<JString>)
    ensures forall i | 0 <= i < |r| :: |r[i]| > 0
    decreases |s|
  {
    if s == [] then []
    else if s[0] in delimiter then Tokens(s[1..], delimiter)
    else
      var e := RunLength(s, delimiter);
      [s[..e]] + Tokens(s[e..], delimiter)
  }

  /** The length of the run of non-delimiter characters that starts `s`. */
  function RunLength(s: JString, delimiter: JString): (r: nat)
    ensures r <= |s|
    ensures s != [] && s[0] !in delimiter ==> r > 0
    decreases |s|
  {
    if s == [] || s[0] in delimiter then 0 else 1 + RunLength(s[1..], delimiter)
  }

  // ---------------------------------------------------------------------
  // Serialization

  /** `serialize` of one node at path `p`. */
  function Serialize(env: Env, s: Slots, record: Record, n: MP.Node, p: Path): Walked<JString>
    decreases n, 3
  {
    match n
    case Literal(text) => Walked(Ok(text), s, record)
    case Symbol(name) => Walked(Ok(SymbolText(name)), s, record)
    case Field(name, fieldLength) =>
      var e := GetField(env.cls, record, name, fieldLength, ArrayIndex(env.parts, s, p));
      (match e.out
       case Err(f) => Walked(Err(f), s, e.record)
       case Ok(None) => Walked(Err(Parsing(NoData(name))), s, e.record)
       case Ok(Some(data)) => Walked(Ok(data), s, e.record))
    case Optional(body) =>
      var w := SerializeChildren(env, s, record, body, p, 0, []);
      if w.out.Err? && w.out.failure.Parsing? then
        Walked(Ok([]), w.slots[p := Get(w.slots, p).(failed := true)], w.record)
      else w
    case Array(delimiter, body) => SerializeArray(env, s, record, delimiter, body, p)
    case EccBlock(_, body) =>
      var w := SerializeChildren(env, s, record, body, p, 0, []);
      if w.out.Ok? then Walked(w.out, w.slots[p := Get(w.slots, p).(text := Some(w.out.value))], w.record)
      else w
    case EccCalc(reference) =>
      match Checksum(env, s, reference)
      case Err(f) => Walked(Err(f), s, record)
      case Ok(c) => Walked(Ok([c]), s[p := Get(s, p).(text := Some([c]))], record)
  }

  /** `serializeChildren`: the children from the k-th on, appended to `acc`, stopping at the first failure. */
  function SerializeChildren(env: Env, s: Slots, record: Record, kids: seq<MP.Node>, p: Path, k: nat, acc: JString): Walked<JString>
    requires k <= |kids|
    decreases kids, 0, |kids| - k
  {
    if k == |kids| then Walked(Ok(acc), s, record)
    else
      var w := Serialize(env, s, record, kids[k], p + [k]);
      if w.out.Err? then w
      else SerializeChildren(env, w.slots, w.record, kids, p, k + 1, acc + w.out.value)
  }

  /** What the children serialize to does not depend on the text already built: it is appended to it. */
  lemma {:induction false} SerializeChildrenAppends(env: Env, s: Slots, record: Record, kids: seq<MP.Node>, p: Path, k: nat, acc: JString)
    requires k <= |kids|
    ensures SerializeChildren(env, s, record, kids, p, k, acc).slots == SerializeChildren(env, s, record, kids, p, k, []).slots
    ensures SerializeChildren(env, s, record, kids, p, k, acc).record == SerializeChildren(env, s, record, kids, p, k, []).record
    ensures SerializeChildren(env, s, record, kids, p, k, []).out.Err? ==>
      SerializeChildren(env, s, record, kids, p, k, acc).out == SerializeChildren(env, s, record, kids, p, k, []).out
    ensures SerializeChildren(env, s, record, kids, p, k, []).out.Ok? ==>
      SerializeChildren(env, s, record, kids, p, k, acc).out == Ok(acc + SerializeChildren(env, s, record, kids, p, k, []).out.value)
    decreases |kids| - k
  {
    if k == |kids| {
      assert acc + [] == acc;
    } else {
      var w := Serialize(env, s, record, kids[k], p + [k]);
      if w.out.Ok? {
        SerializeChildrenAppends(env, w.slots, w.record, kids, p, k + 1, acc + w.out.value);
        SerializeChildrenAppends(env, w.slots, w.record, kids, p, k + 1, [] + w.out.value);
        assert [] + w.out.value == w.out.value;
        var rest := SerializeChildren(env, w.slots, w.record, kids, p, k + 1, []).out;
        if rest.Ok? {
          assert acc + w.out.value + rest.value == acc + (w.out.value + rest.value);
        }
      }
    }
  }

  /**
   * `ArrayNode.serialize`: the body once per list element from the current
   * index on, each copy followed by the delimiter, then the last delimiter
   * trimmed; the result becomes the array's content.
   */
  function SerializeArray(env: Env, s: Slots, record: Record, delimiter: JString, body: seq<MP.Node>, p: Path): Walked<JString>
    decreases body, 2
  {
    match AllListsSize(env, record, body, p)
    case Err(f) => Walked(Err(f), s, record)
    case Ok(count) =>
      if count < 0 then Walked(Err(Parsing(ListSizesDiffer)), s, record)
      else
        var w := Repeat(env, s, record, delimiter, body, p, count, []);
        if w.out.Err? then w
        else
          var content := Trim(w.out.value, delimiter);
          Walked(Ok(content), w.slots[p := Get(w.slots, p).(text := Some(content))], w.record)
  }

  /** The loop of `ArrayNode.serialize`, driven by the array's own index. */
  function Repeat(env: Env, s: Slots, record: Record, delimiter: JString, body: seq<MP.Node>, p: Path, count: nat, acc: JString): Walked<JString>
    decreases body, 1, count - Get(s, p).index
  {
    var i := Get(s, p).index;
    if i >= count then Walked(Ok(acc), s, record)
    else
      var w := SerializeChildren(env, s, record, body, p, 0, []);
      if w.out.Err? then w
      else
        var s' := w.slots[p := Get(w.slots, p).(index := i + 1)];
        Repeat(env, s', w.record, delimiter, body, p, count, acc + w.out.value + delimiter)
  }

  // ---------------------------------------------------------------------
  // Deserialization

  /**
   * A node that must find its own text at its position: a missing text is
   * out of range, a different one a mismatch. Nothing changes.
   */
  function MatchAt(env: Env, s: Slots, record: Record, p: Path, message: JString, expected: JString, span: int, mismatch: ParsingReason): (r: Walked<()>)
    ensures r.slots == s && r.record == record
  {
    match Position(env.parts, s, p)
    case Err(f) => Walked(Err(f), s, record)
    case Ok(pos) =>
      if !SubstringBounds(message, pos, pos + span) then Walked(Err(Parsing(OutOfRange)), s, record)
      else if message[pos..pos + span] == expected then Walked(Ok(()), s, record)
      else Walked(Err(Parsing(mismatch)), s, record)
  }

  /** How far a field reaching from `pos` extends: its declared length, or up to the end of its window. */
  function FieldSpan(env: Env, s: Slots, n: MP.Node, p: Path, message: JString, pos: int): (r: Result<int>)
    requires n.Field? && p != []
    ensures n.length >= 0 ==> r == Ok(n.length)
  {
    if n.length < 0 then
      match GetEnd(env.parts, s, n, p, message, pos)
      case Err(f) => Err(f)
      case Ok(end) => Ok(end - pos)
    else Ok(n.length)
  }

  /**
   * `ReflectionFieldNode.deserialize`: a free-length field spans up to its
   * end, a fixed-length one its declared length; the text is taken and
   * written to the record only when it fits inside a non-empty message.
   */
  function DeserializeField(env: Env, s: Slots, record: Record, n: MP.Node, p: Path, message: JString): (r: Walked<()>)
    requires n.Field? && p != []
  {
    match Position(env.parts, s, p)
    case Err(f) => Walked(Err(f), s, record)
    case Ok(pos) =>
      match FieldSpan(env, s, n, p, message, pos)
      case Err(f) => Walked(Err(f), s, record)
      case Ok(len) =>
        var s1 := s[p := Get(s, p).(length := len)];
        if |message| > 0 && len > 0 && pos + len <= |message| then
          if pos < 0 then Walked(Err(Parsing(OutOfRange)), s1, record)
          else
            var text := message[pos..pos + len];
            var s2 := s1[p := Get(s1, p).(text := Some(text))];
            var e := SetField(env.cls, record, n.name, text, ArrayIndex(env.parts, s2, p));
            Walked(e.out, s2, e.record)
        else Walked(Ok(()), s1, record)
  }

  /** `deserialize` of one node at path `p` against the message its parent hands down. */
  function Deserialize(env: Env, s: Slots, record: Record, n: MP.Node, p: Path, message: JString): Walked<()>
    requires p != []
    decreases n, 3
  {
    match n
    case Literal(text) => MatchAt(env, s, record, p, message, text, |text|, ContentMismatch)
    case Symbol(name) => MatchAt(env, s, record, p, message, SymbolText(name), 1, CharacterMismatch)
    case Field(_, _) => DeserializeField(env, s, record, n, p, message)
    case Optional(body) =>
      (match Extract(env.parts, s, n, p, message)
       case Err(f) => Walked(Err(Wrap(f)), s, record)
       case Ok(window) =>
         var w := DeserializeChildren(env, s, record, body, p, 0, window);
         if w.out.Err? && w.out.failure.Parsing? then
           Walked(Ok(()), w.slots[p := Get(w.slots, p).(failed := true)], w.record)
         else if w.out.Err? then Walked(Err(Wrap(w.out.failure)), w.slots, w.record)
         else w)
    case Array(delimiter, body) => DeserializeArray(env, s, record, delimiter, body, p, message)
    case EccBlock(_, body) =>
      (match Extract(env.parts, s, n, p, message)
       case Err(f) => Walked(Err(Wrap(f)), s, record)
       case Ok(window) =>
         var w := DeserializeChildren(env, s[p := Get(s, p).(text := Some(window))], record, body, p, 0, window);
         if w.out.Err? then Walked(Err(Wrap(w.out.failure)), w.slots, w.record) else w)
    case EccCalc(reference) =>
      match Extract(env.parts, s, n, p, message)
      case Err(f) => Walked(Err(Wrap(f)), s, record)
      case Ok(window) =>
        var s1 := s[p := Get(s, p).(text := Some(window))];
        match Checksum(env, s1, reference)
        case Err(f) => Walked(Err(f), s1, record)
        case Ok(c) => Walked(if window == [c] then Ok(()) else Err(Parsing(EccNotValid)), s1, record)
  }

  /**
   * `ArrayNode.deserialize`: the window becomes the array's content and is
   * cut into tokens, each read by the body in turn.
   */
  function DeserializeArray(env: Env, s: Slots, record: Record, delimiter: JString, body: seq<MP.Node>, p: Path, message: JString): Walked<()>
    requires p != []
    decreases body, 2
  {
    match Extract(env.parts, s, MP.Array(delimiter, body), p, message)
    case Err(f) => Walked(Err(f), s, record)
    case Ok(window) =>
      var s1 := s[p := Get(s, p).(text := Some(window))];
      DeserializeTokens(env, s1, record, body, p, Tokens(window, delimiter), 0)
  }

  /** `deserializeChildren`: the children from the k-th on, against the same message, stopping at the first failure. */
  function DeserializeChildren(env: Env, s: Slots, record: Record, kids: seq<MP.Node>, p: Path, k: nat, message: JString): Walked<()>
    requires k <= |kids|
    decreases kids, 0, |kids| - k
  {
    if k == |kids| then Walked(Ok(()), s, record)
    else
      var w := Deserialize(env, s, record, kids[k], p + [k], message);
      if w.out.Err? then w
      else DeserializeChildren(env, w.slots, w.record, kids, p, k + 1, message)
  }

  /**
   * The token loop of `ArrayNode.deserialize`: the body reads each token in
   * turn, the array's index advances, and the body is reset for the next one.
   */
  function DeserializeTokens(env: Env, s: Slots, record: Record, body: seq<MP.Node>, p: Path, tokens: seq<JString>, i: nat): Walked<()>
    requires i <= |tokens|
    decreases body, 1, |tokens| - i
  {
    if i == |tokens| then Walked(Ok(()), s, record)
    else
      var w := DeserializeChildren(env, s, record, body, p, 0, tokens[i]);
      if w.out.Err? then w
      else
        var s1 := w.slots[p := Get(w.slots, p).(index := Get(w.slots, p).index + 1)];
        DeserializeTokens(env, ResetChildren(s1, body, p, 0), w.record, body, p, tokens, i + 1)
  }

  /** One token of the loop, given what the body made of it. */
  lemma DeserializeTokensStep(env: Env, s: Slots, record: Record, body: seq<MP.Node>, p: Path, tokens: seq<JString>, i: nat, w: Walked<()>)
    requires i < |tokens| && w == DeserializeChildren(env, s, record, body, p, 0, tokens[i])
    ensures w.out.Err? ==> DeserializeTokens(env, s, record, body, p, tokens, i) == w
    ensures w.out.Ok? ==>
      DeserializeTokens(env, s, record, body, p, tokens, i) ==
      DeserializeTokens(env, ResetChildren(w.slots[p := Get(w.slots, p).(index := Get(w.slots, p).index + 1)], body, p, 0), w.record, body, p, tokens, i + 1)
  {
  }

  // ---------------------------------------------------------------------
  // The whole tree

  /** `ParserNode.serialize` on the root: its children in order. */
  function SerializeTree(env: Env, s: Slots, record: Record): Walked<JString>
  {
    SerializeChildren(env, s, record, env.parts, [], 0, [])
  }

  /** `ParserNode.deserialize` on the root: each child against the whole message. */
  function DeserializeTree(env: Env, s: Slots, record: Record, message: JString): Walked<()>
  {
    DeserializeChildren(env, s, record, env.parts, [], 0, message)
  }

  // ---------------------------------------------------------------------
  // Literal and symbol nodes

  /** A literal reads back exactly when the message holds it at the literal's position; nothing changes either way. */
  lemma LiteralDeserialize(env: Env, s: Slots, record: Record, text: JString, p: Path, message: JString)
    requires p != [] && Position(env.parts, s, p).Ok?
    ensures Deserialize(env, s, record, MP.Literal(text), p, message).slots == s
    ensures Deserialize(env, s, record, MP.Literal(text), p, message).record == record
    ensures Deserialize(env, s, record, MP.Literal(text), p, message).out.Ok? <==>
      OccursAt(message, text, Position(env.parts, s, p).value)
    ensures Deserialize(env, s, record, MP.Literal(text), p, message).out.Err? ==>
      Deserialize(env, s, record, MP.Literal(text), p, message).out.failure in {Parsing(ContentMismatch), Parsing(OutOfRange)}
  {
  }

  /** A symbol reads back exactly when the character at its position is the one its name stands for. */
  lemma SymbolDeserialize(env: Env, s: Slots, record: Record, name: JString, p: Path, message: JString)
    requires p != [] && Position(env.parts, s, p).Ok?
    ensures Deserialize(env, s, record, MP.Symbol(name), p, message).slots == s
    ensures Deserialize(env, s, record, MP.Symbol(name), p, message).record == record
    ensures Deserialize(env, s, record, MP.Symbol(name), p, message).out.Ok? <==>
      0 <= Position(env.parts, s, p).value < |message| &&
      MessageCharacters.NameToCharacter(name) == Some(message[Position(env.parts, s, p).value])
    ensures Deserialize(env, s, record, MP.Symbol(name), p, message).out.Err? ==>
      Deserialize(env, s, record, MP.Symbol(name), p, message).out.failure in {Parsing(CharacterMismatch), Parsing(OutOfRange)}
  {
    var pos := Position(env.parts, s, p).value;
    if 0 <= pos < |message| {
      assert message[pos..pos + 1] == [message[pos]];
    }
  }

  // ---------------------------------------------------------------------
  // Field nodes

  /**
   * Serializing a field never touches the node state; a fixed-length field
   * yields exactly its length; a missing field is a runtime failure and a
   * null value a parsing failure an optional can absorb.
   */
  lemma FieldSerialize(env: Env, s: Slots, record: Record, name: JString, fieldLength: int, p: Path)
    ensures Serialize(env, s, record, MP.Field(name, fieldLength), p).slots == s
    ensures Serialize(env, s, record, MP.Field(name, fieldLength), p).out.Ok? && fieldLength >= 0 ==>
      |Serialize(env, s, record, MP.Field(name, fieldLength), p).out.value| == fieldLength
    ensures name !in record ==>
      Serialize(env, s, record, MP.Field(name, fieldLength), p).out == Err(Runtime(CouldNotGetData(name)))
    ensures name in record && record[name] == Null && name !in env.cls.fieldHooks && ArrayIndex(env.parts, s, p).None? ==>
      Serialize(env, s, record, MP.Field(name, fieldLength), p).out == Err(Parsing(NoData(name)))
  {
  }

  /**
   * Deserializing a field records the span it computed, also when nothing is
   * read; the text is taken and written only when the span fits inside a
   * non-empty message, and the record is otherwise left alone.
   */
  lemma FieldDeserialize(env: Env, s: Slots, record: Record, n: MP.Node, p: Path, message: JString)
    requires n.Field? && p != [] && Position(env.parts, s, p).Ok?
    requires FieldSpan(env, s, n, p, message, Position(env.parts, s, p).value).Ok?
    ensures Get(Deserialize(env, s, record, n, p, message).slots, p).length ==
      FieldSpan(env, s, n, p, message, Position(env.parts, s, p).value).value
    ensures !Fits(message, Position(env.parts, s, p).value, FieldSpan(env, s, n, p, message, Position(env.parts, s, p).value).value) ==>
      Deserialize(env, s, record, n, p, message).out.Ok? &&
      Deserialize(env, s, record, n, p, message).record == record &&
      Get(Deserialize(env, s, record, n, p, message).slots, p).text == Get(s, p).text
    ensures Fits(message, Position(env.parts, s, p).value, FieldSpan(env, s, n, p, message, Position(env.parts, s, p).value).value) ==>
      if Position(env.parts, s, p).value < 0 then
        Deserialize(env, s, record, n, p, message).out == Err(Parsing(OutOfRange))
      else
        Get(Deserialize(env, s, record, n, p, message).slots, p).text ==
        Some(message[Position(env.parts, s, p).value..Position(env.parts, s, p).value + FieldSpan(env, s, n, p, message, Position(env.parts, s, p).value).value])
  {
  }

  /** The guard under which a field reads: a non-empty message that holds a non-empty span ending in it. */
  predicate Fits(message: JString, pos: int, len: int)
  {
    |message| > 0 && len > 0 && pos + len <= |message|
  }

  // ---------------------------------------------------------------------
  // Optional nodes

  /**
   * An optional absorbs every parsing failure of its body when serializing:
   * it then yields the empty text and marks itself failed, keeping whatever
   * the body wrote to the record. Other failures pass through.
   */
  lemma OptionalSerialize(env: Env, s: Slots, record: Record, body: seq<MP.Node>, p: Path)
    ensures Serialize(env, s, record, MP.Optional(body), p).out.Err? ==>
      !Serialize(env, s, record, MP.Optional(body), p).out.failure.Parsing?
    ensures SerializeChildren(env, s, record, body, p, 0, []).out.Err? && SerializeChildren(env, s, record, body, p, 0, []).out.failure.Parsing? ==>
      Serialize(env, s, record, MP.Optional(body), p).out == Ok([]) &&
      Get(Serialize(env, s, record, MP.Optional(body), p).slots, p).failed &&
      Serialize(env, s, record, MP.Optional(body), p).record == SerializeChildren(env, s, record, body, p, 0, []).record
    ensures SerializeChildren(env, s, record, body, p, 0, []).out.Ok? ==>
      Serialize(env, s, record, MP.Optional(body), p) == SerializeChildren(env, s, record, body, p, 0, [])
  {
  }

  /**
   * When deserializing, an optional absorbs its body's parsing failures the
   * same way. The one parsing failure it lets through is an index out of
   * range, from its own window or from its body, rethrown as such.
   */
  lemma OptionalDeserialize(env: Env, s: Slots, record: Record, body: seq<MP.Node>, p: Path, message: JString)
    requires p != []
    ensures (Deserialize(env, s, record, MP.Optional(body), p, message).out.Err? &&
      Deserialize(env, s, record, MP.Optional(body), p, message).out.failure.Parsing?) ==>
      Deserialize(env, s, record, MP.Optional(body), p, message).out.failure == Parsing(OutOfRange)
    ensures Deserialize(env, s, record, MP.Optional(body), p, message).out != Err(IndexOutOfBounds)
    ensures (Extract(env.parts, s, MP.Optional(body), p, message).Ok? &&
      DeserializeChildren(env, s, record, body, p, 0, Extract(env.parts, s, MP.Optional(body), p, message).value).out.Err? &&
      DeserializeChildren(env, s, record, body, p, 0, Extract(env.parts, s, MP.Optional(body), p, message).value).out.failure.Parsing?) ==>
      Deserialize(env, s, record, MP.Optional(body), p, message).out.Ok? &&
      Get(Deserialize(env, s, record, MP.Optional(body), p, message).slots, p).failed &&
      Deserialize(env, s, record, MP.Optional(body), p, message).record ==
      DeserializeChildren(env, s, record, body, p, 0, Extract(env.parts, s, MP.Optional(body), p, message).value).record
  {
  }

  // ---------------------------------------------------------------------
  // Array nodes

  /** The buffer the serialization loop builds: every rendering followed by the delimiter. */
  function Terminated(xs: seq<JString>, delimiter: JString): JString
  {
    if |xs| == 0 then [] else xs[0] + delimiter + Terminated(xs[1..], delimiter)
  }

  /** A terminated buffer is the joined renderings plus one delimiter. */
  lemma {:induction false} TerminatedIsJoin(xs: seq<JString>, delimiter: JString)
    requires |xs| > 0
    ensures Terminated(xs, delimiter) == Join(xs, delimiter) + delimiter
    decreases |xs|
  {
    if |xs| == 1 {
      assert Terminated(xs[1..], delimiter) == [];
    } else {
      TerminatedIsJoin(xs[1..], delimiter);
    }
  }

  /** Trimming the last delimiter off a non-empty terminated buffer gives the renderings joined by the delimiter. */
  lemma TrimTerminated(xs: seq<JString>, delimiter: JString)
    requires |xs| > 0
    ensures Trim(Terminated(xs, delimiter), delimiter) == Join(xs, delimiter)
  {
    TerminatedIsJoin(xs, delimiter);
    var j := Join(xs, delimiter);
    assert (j + delimiter)[|j|..] == delimiter;
    assert (j + delimiter)[..|j|] == j;
  }

  /** Where a pass of the array loop starts: the node state and the record. */
  datatype Stage = Stage(slots: Slots, record: Record)

  /** One pass of the array loop: the body serialized once, in the given stage. */
  function Pass(env: Env, st: Stage, body: seq<MP.Node>, p: Path): Walked<JString>
  {
    SerializeChildren(env, st.slots, st.record, body, p, 0, [])
  }

  /** The stage after a pass: what the body left behind, with the array's index advanced. */
  function Advance(env: Env, st: Stage, body: seq<MP.Node>, p: Path): Stage
  {
    var w := Pass(env, st, body, p);
    Stage(w.slots[p := Get(w.slots, p).(index := Get(st.slots, p).index + 1)], w.record)
  }

  /** The stage the k-th pass starts in. */
  function StageAt(env: Env, st: Stage, body: seq<MP.Node>, p: Path, k: nat): Stage
    decreases k
  {
    if k == 0 then st else StageAt(env, Advance(env, st, body, p), body, p, k - 1)
  }

  /** The text a pass produced; nothing for a pass that failed. */
  function Rendered(out: Result<JString>): JString
  {
    if out.Ok? then out.value else []
  }

  /** The texts of the first n passes: the k-th is what the body gives in the k-th stage. */
  function Renderings(env: Env, st: Stage, body: seq<MP.Node>, p: Path, n: nat): (r: seq<JString>)
    ensures |r| == n
  {
    seq(n, k requires 0 <= k < n => Rendered(Pass(env, StageAt(env, st, body, p, k), body, p).out))
  }

  /** The k-th pass runs with the index k places further on. */
  lemma {:induction false} StageIndex(env: Env, st: Stage, body: seq<MP.Node>, p: Path, k: nat)
    ensures Get(StageAt(env, st, body, p, k).slots, p).index == Get(st.slots, p).index + k
    decreases k
  {
    if k > 0 {
      StageIndex(env, Advance(env, st, body, p), body, p, k - 1);
    }
  }

  /** The passes after the first are those that start in the stage the first leaves. */
  lemma RenderingsCons(env: Env, st: Stage, body: seq<MP.Node>, p: Path, n: nat)
    requires n > 0
    ensures Renderings(env, st, body, p, n) ==
      [Rendered(Pass(env, st, body, p).out)] + Renderings(env, Advance(env, st, body, p), body, p, n - 1)
  {
    forall k | 0 < k < n
      ensures StageAt(env, st, body, p, k) == StageAt(env, Advance(env, st, body, p), body, p, k - 1)
    {
    }
  }

  /** The number of passes the loop makes from the index in `s`. */
  function PassesLeft(s: Slots, p: Path, count: nat): nat
  {
    if Get(s, p).index >= count then 0 else count - Get(s, p).index
  }

  /**
   * The loop succeeds exactly when each of its passes does, and then appends
   * each pass's text followed by the delimiter.
   */
  lemma {:induction false} RepeatRenders(env: Env, s: Slots, record: Record, delimiter: JString, body: seq<MP.Node>, p: Path, count: nat, acc: JString)
    ensures Repeat(env, s, record, delimiter, body, p, count, acc).out.Ok? <==>
      forall k | 0 <= k < PassesLeft(s, p, count) :: Pass(env, StageAt(env, Stage(s, record), body, p, k), body, p).out.Ok?
    ensures Repeat(env, s, record, delimiter, body, p, count, acc).out.Ok? ==>
      Repeat(env, s, record, delimiter, body, p, count, acc).out.value ==
      acc + Terminated(Renderings(env, Stage(s, record), body, p, PassesLeft(s, p, count)), delimiter)
    decreases count - Get(s, p).index
  {
    var st := Stage(s, record);
    var n := PassesLeft(s, p, count);
    if n == 0 {
      assert Renderings(env, st, body, p, 0) == [];
      assert acc + Terminated([], delimiter) == acc;
    } else {
      var w := Pass(env, st, body, p);
      assert StageAt(env, st, body, p, 0) == st;
      if w.out.Ok? {
        var next := Advance(env, st, body, p);
        var acc' := acc + w.out.value + delimiter;
        RepeatStep(env, s, record, delimiter, body, p, count, acc);
        RepeatRenders(env, next.slots, next.record, delimiter, body, p, count, acc');
        assert PassesLeft(next.slots, p, count) == n - 1;
        forall k | 0 < k < n
          ensures StageAt(env, st, body, p, k) == StageAt(env, next, body, p, k - 1)
        {
        }
        if Repeat(env, next.slots, next.record, delimiter, body, p, count, acc').out.Ok? {
          forall k | 0 <= k < n
            ensures Pass(env, StageAt(env, st, body, p, k), body, p).out.Ok?
          {
            if k > 0 {
              assert Pass(env, StageAt(env, next, body, p, k - 1), body, p).out.Ok?;
            }
          }
          RenderingsCons(env, st, body, p, n);
          TerminatedCons(acc, w.out.value, Renderings(env, next, body, p, n - 1), delimiter);
        } else {
          var k :| 0 <= k < n - 1 && !Pass(env, StageAt(env, next, body, p, k), body, p).out.Ok?;
          assert !Pass(env, StageAt(env, st, body, p, k + 1), body, p).out.Ok?;
          assert !Repeat(env, s, record, delimiter, body, p, count, acc).out.Ok?;
        }
      } else {
        assert !Pass(env, StageAt(env, st, body, p, 0), body, p).out.Ok?;
        assert !(forall k | 0 <= k < n :: Pass(env, StageAt(env, st, body, p, k), body, p).out.Ok?);
        assert Repeat(env, s, record, delimiter, body, p, count, acc) == w;
      }
    }
  }

  /** One round of the loop, when the body serializes. */
  lemma RepeatStep(env: Env, s: Slots, record: Record, delimiter: JString, body: seq<MP.Node>, p: Path, count: nat, acc: JString)
    requires Get(s, p).index < count && SerializeChildren(env, s, record, body, p, 0, []).out.Ok?
    ensures Repeat(env, s, record, delimiter, body, p, count, acc) ==
      Repeat(env, Advance(env, Stage(s, record), body, p).slots, Advance(env, Stage(s, record), body, p).record, delimiter, body, p, count,
        acc + SerializeChildren(env, s, record, body, p, 0, []).out.value + delimiter)
  {
  }

  /** One more rendering in front of a terminated buffer. */
  lemma TerminatedCons(acc: JString, x: JString, xs: seq<JString>, delimiter: JString)
    ensures |[x] + xs| == |xs| + 1
    ensures acc + x + delimiter + Terminated(xs, delimiter) == acc + Terminated([x] + xs, delimiter)
  {
    assert ([x] + xs)[1..] == xs;
  }

  /**
   * An array keeps the text it serializes to as its content; lists of
   * differing sizes are a parsing failure, and no elements give the empty
   * text.
   */
  lemma ArraySerialize(env: Env, s: Slots, record: Record, delimiter: JString, body: seq<MP.Node>, p: Path)
    ensures AllListsSize(env, record, body, p).Ok? && AllListsSize(env, record, body, p).value < 0 ==>
      SerializeArray(env, s, record, delimiter, body, p).out == Err(Parsing(ListSizesDiffer))
    ensures AllListsSize(env, record, body, p) == Ok(0) && Get(s, p).index >= 0 ==>
      SerializeArray(env, s, record, delimiter, body, p).out == Ok([])
    ensures SerializeArray(env, s, record, delimiter, body, p).out.Ok? ==>
      Get(SerializeArray(env, s, record, delimiter, body, p).slots, p).text == Some(SerializeArray(env, s, record, delimiter, body, p).out.value)
  {
  }

  /**
   * From a fresh index, an array serializes exactly when the list sizes agree
   * and each pass of its body does; the k-th pass runs with index k, and the
   * output is the passes' texts joined by the delimiter.
   */
  lemma ArraySerializeJoins(env: Env, s: Slots, record: Record, delimiter: JString, body: seq<MP.Node>, p: Path)
    requires Get(s, p).index == 0
    ensures SerializeArray(env, s, record, delimiter, body, p).out.Ok? <==>
      AllListsSize(env, record, body, p).Ok? && AllListsSize(env, record, body, p).value >= 0 &&
      forall k | 0 <= k < AllListsSize(env, record, body, p).value ::
        Pass(env, StageAt(env, Stage(s, record), body, p, k), body, p).out.Ok?
    ensures AllListsSize(env, record, body, p).Ok? ==>
      forall k: nat | k < AllListsSize(env, record, body, p).value ::
        Get(StageAt(env, Stage(s, record), body, p, k).slots, p).index == k
    ensures SerializeArray(env, s, record, delimiter, body, p).out.Ok? ==>
      SerializeArray(env, s, record, delimiter, body, p).out.value ==
      Join(Renderings(env, Stage(s, record), body, p, AllListsSize(env, record, body, p).value), delimiter)
  {
    var size := AllListsSize(env, record, body, p);
    if size.Ok? {
      forall k: nat | k < size.value
        ensures Get(StageAt(env, Stage(s, record), body, p, k).slots, p).index == k
      {
        StageIndex(env, Stage(s, record), body, p, k);
      }
    }
    if size.Ok? && size.value >= 0 {
      var count := size.value;
      RepeatRenders(env, s, record, delimiter, body, p, count, []);
      var w := Repeat(env, s, record, delimiter, body, p, count, []);
      if w.out.Ok? {
        var xs := Renderings(env, Stage(s, record), body, p, count);
        assert w.out.value == Terminated(xs, delimiter);
        if count > 0 {
          TrimTerminated(xs, delimiter);
        }
      }
    }
  }

  /** As written, an array with no elements and a one-character delimiter fails in the trim. */
  lemma TrimAsWrittenFailsOnEmpty(c: JChar)
    ensures TrimAsWritten([], [c]) == Err(IndexOutOfBounds)
    ensures Trim([], [c]) == []
  {
  }

  /** Whenever the buffer is at least as long as the delimiter, the trim as written and the intended one agree. */
  lemma TrimAsWrittenAgrees(buf: JString, delimiter: JString)
    requires |delimiter| <= |buf|
    ensures TrimAsWritten(buf, delimiter) == Ok(Trim(buf, delimiter))
  {
  }

  /** Renderings that are non-empty and free of the delimiter's characters. */
  predicate Separable(items: seq<JString>, delimiter: JString)
  {
    forall i | 0 <= i < |items| :: |items[i]| > 0 && forall j | 0 <= j < |items[i]| :: items[i][j] !in delimiter
  }

  lemma {:induction false} RunLengthOfItem(x: JString, rest: JString, delimiter: JString)
    requires forall j | 0 <= j < |x| :: x[j] !in delimiter
    requires rest == [] || rest[0] in delimiter
    ensures RunLength(x + rest, delimiter) == |x|
    decreases |x|
  {
    if x == [] {
      assert x + rest == rest;
    } else {
      assert (x + rest)[1..] == x[1..] + rest;
      RunLengthOfItem(x[1..], rest, delimiter);
    }
  }

  lemma {:induction false} TokensSkipDelimiters(pre: JString, rest: JString, delimiter: JString)
    requires forall j | 0 <= j < |pre| :: pre[j] in delimiter
    ensures Tokens(pre + rest, delimiter) == Tokens(rest, delimiter)
    decreases |pre|
  {
    if pre == [] {
      assert pre + rest == rest;
    } else {
      assert (pre + rest)[1..] == pre[1..] + rest;
      TokensSkipDelimiters(pre[1..], rest, delimiter);
    }
  }

  lemma TokensOfItem(x: JString, rest: JString, delimiter: JString)
    requires |x| > 0 && forall j | 0 <= j < |x| :: x[j] !in delimiter
    requires rest == [] || rest[0] in delimiter
    ensures Tokens(x + rest, delimiter) == [x] + Tokens(rest, delimiter)
  {
    RunLengthOfItem(x, rest, delimiter);
    assert (x + rest)[0] == x[0];
    assert (x + rest)[..|x|] == x;
    assert (x + rest)[|x|..] == rest;
  }

  /** Tokenising renderings joined by the delimiter gives the renderings back. */
  lemma {:induction false} TokensOfJoin(items: seq<JString>, delimiter: JString)
    requires |delimiter| > 0 && Separable(items, delimiter)
    ensures Tokens(Join(items, delimiter), delimiter) == items
    decreases |items|
  {
    if |items| == 1 {
      TokensOfItem(items[0], [], delimiter);
      assert items[0] + [] == items[0];
    } else if |items| > 1 {
      var rest := Join(items[1..], delimiter);
      assert forall j | 0 <= j < |delimiter| :: delimiter[j] in delimiter;
      TokensOfItem(items[0], delimiter + rest, delimiter);
      assert items[0] + delimiter + rest == items[0] + (delimiter + rest);
      TokensSkipDelimiters(delimiter, rest, delimiter);
      TokensOfJoin(items[1..], delimiter);
      assert items == [items[0]] + items[1..];
    }
  }

  /** `getAllListsSize` only reports a size every counted list field has. */
  lemma {:induction false} ListsSizeCommon(env: Env, record: Record, fields: seq<Located>, i: nat, size: int)
    requires i <= |fields| && size >= -1
    ensures ListsSize(env, record, fields, i, size).Ok? && ListsSize(env, record, fields, i, size).value >= 0 ==>
      forall j | i <= j < |fields| && Counted(env, fields[j]) ::
        fields[j].node.name in record && record[fields[j].node.name].List? &&
        |record[fields[j].node.name].items| == ListsSize(env, record, fields, i, size).value
    ensures ListsSize(env, record, fields, i, size).Ok? && ListsSize(env, record, fields, i, size).value >= 0 && size >= 0 ==>
      ListsSize(env, record, fields, i, size).value == size
    decreases |fields| - i
  {
    if i < |fields| {
      if !Counted(env, fields[i]) {
        ListsSizeCommon(env, record, fields, i + 1, size);
      } else {
        var name := fields[i].node.name;
        if name in record && record[name].List? && (size == -1 || size == |record[name].items|) {
          ListsSizeCommon(env, record, fields, i + 1, |record[name].items|);
        }
      }
    }
  }

  /** Without a counted field the size is left as it was: from the start, -1. */
  lemma {:induction false} ListsSizeNoneCounted(env: Env, record: Record, fields: seq<Located>, i: nat, size: int)
    requires i <= |fields| && size >= -1
    requires forall j | i <= j < |fields| :: !Counted(env, fields[j])
    ensures ListsSize(env, record, fields, i, size) == Ok(size)
    decreases |fields| - i
  {
    if i < |fields| {
      ListsSizeNoneCounted(env, record, fields, i + 1, size);
    }
  }

  /** When every counted field is a list of the same length n, and there is one, the size is n. */
  lemma {:induction false} ListsSizeAgreed(env: Env, record: Record, fields: seq<Located>, i: nat, size: int, n: nat)
    requires i <= |fields| && (size == -1 || size == n)
    requires forall j | i <= j < |fields| && Counted(env, fields[j]) :: IsListField(record, fields[j]) && ListLength(record, fields[j]) == n
    requires size == n || exists j | i <= j < |fields| :: Counted(env, fields[j])
    ensures ListsSize(env, record, fields, i, size) == Ok(n)
    decreases |fields| - i
  {
    if i == |fields| {
    } else if Counted(env, fields[i]) {
      if exists j | i + 1 <= j < |fields| :: Counted(env, fields[j]) {
        ListsSizeAgreed(env, record, fields, i + 1, n, n);
      } else {
        ListsSizeNoneCounted(env, record, fields, i + 1, n);
      }
    } else if size == n && !(exists j | i + 1 <= j < |fields| :: Counted(env, fields[j])) {
      ListsSizeNoneCounted(env, record, fields, i + 1, n);
    } else {
      ListsSizeAgreed(env, record, fields, i + 1, size, n);
    }
  }

  /** A field bound to a list. */
  predicate IsListField(record: Record, f: Located)
  {
    f.node.Field? && f.node.name in record && record[f.node.name].List?
  }

  function ListLength(record: Record, f: Located): nat
    requires IsListField(record, f)
  {
    |record[f.node.name].items|
  }

  /**
   * A size of -1 means the sizes differ: some counted list differs from the
   * size found so far, or, from the start, two counted lists differ in
   * length, or nothing is counted at all.
   */
  lemma {:induction false} ListsSizeDiffers(env: Env, record: Record, fields: seq<Located>, i: nat, size: int)
    requires i <= |fields| && size >= -1
    ensures ListsSize(env, record, fields, i, size) == Ok(-1) && size >= 0 ==>
      exists j | i <= j < |fields| ::
        Counted(env, fields[j]) && IsListField(record, fields[j]) && ListLength(record, fields[j]) != size
    ensures ListsSize(env, record, fields, i, size) == Ok(-1) && size == -1 ==>
      (forall j | i <= j < |fields| :: !Counted(env, fields[j])) ||
      exists j, k | i <= j < k < |fields| ::
        Counted(env, fields[j]) && Counted(env, fields[k]) && IsListField(record, fields[j]) && IsListField(record, fields[k]) &&
        ListLength(record, fields[j]) != ListLength(record, fields[k])
    decreases |fields| - i
  {
    if i < |fields| {
      if !Counted(env, fields[i]) {
        ListsSizeDiffers(env, record, fields, i + 1, size);
      } else if IsListField(record, fields[i]) {
        var m := ListLength(record, fields[i]);
        if size == -1 || size == m {
          ListsSizeDiffers(env, record, fields, i + 1, m);
        }
      }
    }
  }

  // ---------------------------------------------------------------------
  // What a walk may change

  /** Serializing a node changes no node state outside its subtree. */
  lemma {:induction false} SerializeFrame(env: Env, s: Slots, record: Record, n: MP.Node, p: Path)
    ensures forall q | !Below(p, q) && q != p :: Get(Serialize(env, s, record, n, p).slots, q) == Get(s, q)
    decreases n, 3
  {
    match n
    case Literal(_) =>
    case Symbol(_) =>
    case Field(_, _) =>
    case Optional(body) => SerializeChildrenFrame(env, s, record, body, p, 0, []);
    case Array(delimiter, body) => SerializeArrayFrame(env, s, record, delimiter, body, p);
    case EccBlock(_, body) => SerializeChildrenFrame(env, s, record, body, p, 0, []);
    case EccCalc(_) =>
  }

  lemma {:induction false} SerializeChildrenFrame(env: Env, s: Slots, record: Record, kids: seq<MP.Node>, p: Path, k: nat, acc: JString)
    requires k <= |kids|
    ensures forall q | !Below(p, q) :: Get(SerializeChildren(env, s, record, kids, p, k, acc).slots, q) == Get(s, q)
    decreases kids, 0, |kids| - k
  {
    if k < |kids| {
      var w := Serialize(env, s, record, kids[k], p + [k]);
      SerializeFrame(env, s, record, kids[k], p + [k]);
      BelowChild(p, k);
      if w.out.Ok? {
        SerializeChildrenFrame(env, w.slots, w.record, kids, p, k + 1, acc + w.out.value);
      }
    }
  }

  lemma {:induction false} SerializeArrayFrame(env: Env, s: Slots, record: Record, delimiter: JString, body: seq<MP.Node>, p: Path)
    ensures forall q | !Below(p, q) && q != p :: Get(SerializeArray(env, s, record, delimiter, body, p).slots, q) == Get(s, q)
    decreases body, 2
  {
    var size := AllListsSize(env, record, body, p);
    if size.Ok? && size.value >= 0 {
      RepeatFrame(env, s, record, delimiter, body, p, size.value, []);
    }
  }

  lemma {:induction false} RepeatFrame(env: Env, s: Slots, record: Record, delimiter: JString, body: seq<MP.Node>, p: Path, count: nat, acc: JString)
    ensures forall q | !Below(p, q) && q != p :: Get(Repeat(env, s, record, delimiter, body, p, count, acc).slots, q) == Get(s, q)
    decreases body, 1, count - Get(s, p).index
  {
    var i := Get(s, p).index;
    if i < count {
      var w := SerializeChildren(env, s, record, body, p, 0, []);
      SerializeChildrenFrame(env, s, record, body, p, 0, []);
      if w.out.Ok? {
        var s' := w.slots[p := Get(w.slots, p).(index := i + 1)];
        RepeatFrame(env, s', w.record, delimiter, body, p, count, acc + w.out.value + delimiter);
      }
    }
  }

  /** Deserializing a node changes no node state outside its subtree. */
  lemma {:induction false} DeserializeFrame(env: Env, s: Slots, record: Record, n: MP.Node, p: Path, message: JString)
    requires p != []
    ensures forall q | !Below(p, q) && q != p :: Get(Deserialize(env, s, record, n, p, message).slots, q) == Get(s, q)
    decreases n, 3
  {
    match n
    case Literal(_) =>
    case Symbol(_) =>
    case Field(_, _) =>
    case Optional(body) =>
      var window := Extract(env.parts, s, n, p, message);
      if window.Ok? {
        DeserializeChildrenFrame(env, s, record, body, p, 0, window.value);
      }
    case Array(delimiter, body) =>
      var window := Extract(env.parts, s, MP.Array(delimiter, body), p, message);
      if window.Ok? {
        var s1 := s[p := Get(s, p).(text := Some(window.value))];
        DeserializeTokensFrame(env, s1, record, body, p, Tokens(window.value, delimiter), 0);
      }
    case EccBlock(_, body) =>
      var window := Extract(env.parts, s, n, p, message);
      if window.Ok? {
        DeserializeChildrenFrame(env, s[p := Get(s, p).(text := Some(window.value))], record, body, p, 0, window.value);
      }
    case EccCalc(_) =>
  }

  lemma {:induction false} DeserializeChildrenFrame(env: Env, s: Slots, record: Record, kids: seq<MP.Node>, p: Path, k: nat, message: JString)
    requires k <= |kids|
    ensures forall q | !Below(p, q) :: Get(DeserializeChildren(env, s, record, kids, p, k, message).slots, q) == Get(s, q)
    decreases kids, 0, |kids| - k
  {
    if k < |kids| {
      var w := Deserialize(env, s, record, kids[k], p + [k], message);
      DeserializeFrame(env, s, record, kids[k], p + [k], message);
      BelowChild(p, k);
      if w.out.Ok? {
        DeserializeChildrenFrame(env, w.slots, w.record, kids, p, k + 1, message);
      }
    }
  }

  lemma {:induction false} DeserializeTokensFrame(env: Env, s: Slots, record: Record, body: seq<MP.Node>, p: Path, tokens: seq<JString>, i: nat)
    requires i <= |tokens|
    ensures forall q | !Below(p, q) && q != p :: Get(DeserializeTokens(env, s, record, body, p, tokens, i).slots, q) == Get(s, q)
    ensures Get(DeserializeTokens(env, s, record, body, p, tokens, i).slots, p).text == Get(s, p).text
    ensures DeserializeTokens(env, s, record, body, p, tokens, i).out.Ok? ==>
      Get(DeserializeTokens(env, s, record, body, p, tokens, i).slots, p).index == Get(s, p).index + (|tokens| - i)
    decreases body, 1, |tokens| - i
  {
    if i < |tokens| {
      var w := DeserializeChildren(env, s, record, body, p, 0, tokens[i]);
      DeserializeChildrenFrame(env, s, record, body, p, 0, tokens[i]);
      if w.out.Ok? {
        var s1 := w.slots[p := Get(w.slots, p).(index := Get(w.slots, p).index + 1)];
        ResetChildrenFrame(s1, body, p, 0);
        DeserializeTokensFrame(env, ResetChildren(s1, body, p, 0), w.record, body, p, tokens, i + 1);
      }
    }
  }

  // ---------------------------------------------------------------------
  // Arrays, checksum blocks and checksums, deserialized

  /**
   * An array keeps its whole window as its content, reads one token per body
   * pass and advances its index once per token; an empty window reads
   * nothing and leaves the record alone.
   */
  lemma ArrayDeserialize(env: Env, s: Slots, record: Record, delimiter: JString, body: seq<MP.Node>, p: Path, message: JString)
    requires p != [] && Extract(env.parts, s, MP.Array(delimiter, body), p, message).Ok?
    ensures Get(Deserialize(env, s, record, MP.Array(delimiter, body), p, message).slots, p).text ==
      Some(Extract(env.parts, s, MP.Array(delimiter, body), p, message).value)
    ensures Deserialize(env, s, record, MP.Array(delimiter, body), p, message).out.Ok? ==>
      Get(Deserialize(env, s, record, MP.Array(delimiter, body), p, message).slots, p).index ==
      Get(s, p).index + |Tokens(Extract(env.parts, s, MP.Array(delimiter, body), p, message).value, delimiter)|
    ensures Extract(env.parts, s, MP.Array(delimiter, body), p, message).value == [] ==>
      Deserialize(env, s, record, MP.Array(delimiter, body), p, message).out.Ok? &&
      Deserialize(env, s, record, MP.Array(delimiter, body), p, message).record == record
  {
    var window := Extract(env.parts, s, MP.Array(delimiter, body), p, message).value;
    var s1 := s[p := Get(s, p).(text := Some(window))];
    DeserializeTokensFrame(env, s1, record, body, p, Tokens(window, delimiter), 0);
  }

  // ---------------------------------------------------------------------
  // An array over one list field

  /** The list of a `List` field holding the texts, none of them null. */
  function Present(texts: seq<JString>): (r: seq<Option<JString>>)
    ensures |r| == |texts| && forall i | 0 <= i < |texts| :: r[i] == Some(texts[i])
  {
    seq(|texts|, i requires 0 <= i < |texts| => Some(texts[i]))
  }

  /** The elements `setCurrentArrayData` starts from: none unless the value is a list. */
  function ItemsOf(v: Value): seq<Option<JString>>
  {
    if v.List? then v.items else []
  }

  /**
   * The array at `p` repeats one free-length field bound to a plain `List`:
   * no optional above it, no callback and no representation.
   */
  predicate ListArray(env: Env, p: Path, delimiter: JString, name: JString)
  {
    NodeAt(env.parts, p) == Some(MP.Array(delimiter, [MP.Field(name, -1)])) &&
    FindParent(env.parts, p, OptionalClass).None? &&
    name !in env.cls.fieldHooks && name !in env.cls.represented && name in env.cls.listFields
  }

  /** In such an array the field is the only child: it starts at 0, has no right sibling, reads the array's index and is counted. */
  lemma ListArrayField(env: Env, s: Slots, p: Path, delimiter: JString, name: JString)
    requires ListArray(env, p, delimiter, name)
    ensures p != [] && ChildrenAt(env.parts, p) == [MP.Field(name, -1)]
    ensures NodeAt(env.parts, p + [0]) == Some(MP.Field(name, -1))
    ensures ArrayIndex(env.parts, s, p + [0]) == Some(Get(s, p).index)
    ensures Counted(env, Located(p + [0], MP.Field(name, -1)))
    ensures Position(env.parts, s, p + [0]) == Ok(0)
    ensures FollowingContent(env.parts, s, p + [0], false).None?
  {
    ChildAt(env.parts, p, 0);
    assert Parent(p + [0]) == p && Last(p + [0]) == 0;
    assert p != [] && Matches(env.parts, p, ArrayClass);
    assert FindParent(env.parts, p + [0], ArrayClass) == Some(p);
    assert FindParent(env.parts, p + [0], OptionalClass) == FindParent(env.parts, p, OptionalClass);
    PositionFirst(env.parts, s, p);
  }

  lemma ListArraySize(env: Env, record: Record, p: Path, delimiter: JString, name: JString)
    requires ListArray(env, p, delimiter, name) && name in record && record[name].List?
    ensures AllListsSize(env, record, [MP.Field(name, -1)], p) == Ok(|record[name].items|)
  {
    ListArrayField(env, map[], p, delimiter, name);
    var fields := [Located(p + [0], MP.Field(name, -1))];
    assert Filtered([MP.Field(name, -1)], p, FieldClass, 0) == fields;
    assert ListsSize(env, record, fields, 1, |record[name].items|) == Ok(|record[name].items|);
  }

  /** Each pass over such an array yields the list element at the index and changes nothing. */
  lemma ListArrayPass(env: Env, st: Stage, p: Path, delimiter: JString, name: JString, texts: seq<JString>)
    requires ListArray(env, p, delimiter, name) && name in st.record && st.record[name] == List(Present(texts))
    requires 0 <= Get(st.slots, p).index < |texts|
    ensures Pass(env, st, [MP.Field(name, -1)], p) == Walked(Ok(texts[Get(st.slots, p).index]), st.slots, st.record)
  {
    ListArrayField(env, st.slots, p, delimiter, name);
    var text := texts[Get(st.slots, p).index];
    assert GetField(env.cls, st.record, name, -1, Some(Get(st.slots, p).index)) == Effect(Ok(Some(text)), st.record);
    var body := [MP.Field(name, -1)];
    assert Serialize(env, st.slots, st.record, body[0], p + [0]) == Walked(Ok(text), st.slots, st.record);
    assert [] + text == text;
    assert SerializeChildren(env, st.slots, st.record, body, p, 1, text) == Walked(Ok(text), st.slots, st.record);
  }

  lemma {:induction false} ListArrayStages(env: Env, st: Stage, p: Path, delimiter: JString, name: JString, texts: seq<JString>, k: nat)
    requires ListArray(env, p, delimiter, name) && name in st.record && st.record[name] == List(Present(texts))
    requires 0 <= Get(st.slots, p).index && Get(st.slots, p).index + k <= |texts|
    ensures StageAt(env, st, [MP.Field(name, -1)], p, k).record == st.record
    decreases k
  {
    if k > 0 {
      ListArrayPass(env, st, p, delimiter, name, texts);
      ListArrayStages(env, Advance(env, st, [MP.Field(name, -1)], p), p, delimiter, name, texts, k - 1);
    }
  }

  /** From a fresh index, an array over one list field serializes to the list's texts joined by the delimiter. */
  lemma ListArraySerialize(env: Env, s: Slots, record: Record, p: Path, delimiter: JString, name: JString, texts: seq<JString>)
    requires ListArray(env, p, delimiter, name) && name in record && record[name] == List(Present(texts))
    requires Get(s, p).index == 0
    ensures SerializeArray(env, s, record, delimiter, [MP.Field(name, -1)], p).out == Ok(Join(texts, delimiter))
  {
    var body := [MP.Field(name, -1)];
    var st := Stage(s, record);
    ListArraySize(env, record, p, delimiter, name);
    ArraySerializeJoins(env, s, record, delimiter, body, p);
    forall k | 0 <= k < |texts|
      ensures Pass(env, StageAt(env, st, body, p, k), body, p).out == Ok(texts[k])
    {
      StageIndex(env, st, body, p, k);
      ListArrayStages(env, st, p, delimiter, name, texts, k);
      ListArrayPass(env, StageAt(env, st, body, p, k), p, delimiter, name, texts);
    }
    assert Renderings(env, st, body, p, |texts|) == texts;
  }

  /** One token read by the field: it is appended to the list, and the array's index is untouched. */
  lemma ListArrayToken(env: Env, s: Slots, record: Record, p: Path, delimiter: JString, name: JString, token: JString, items: seq<Option<JString>>)
    requires ListArray(env, p, delimiter, name) && name in record && ItemsOf(record[name]) == items
    requires |token| > 0 && Get(s, p).index == |items|
    ensures DeserializeChildren(env, s, record, [MP.Field(name, -1)], p, 0, token).out == Ok(())
    ensures DeserializeChildren(env, s, record, [MP.Field(name, -1)], p, 0, token).record == record[name := List(items + [Some(token)])]
    ensures Get(DeserializeChildren(env, s, record, [MP.Field(name, -1)], p, 0, token).slots, p) == Get(s, p)
  {
    ListArrayField(env, s, p, delimiter, name);
    var n := MP.Field(name, -1);
    assert GetEnd(env.parts, s, n, p + [0], token, 0) == Ok(|token|);
    assert token[0..|token|] == token;
    var s1 := s[p + [0] := Get(s, p + [0]).(length := |token|)];
    var s2 := s1[p + [0] := Get(s1, p + [0]).(text := Some(token))];
    assert ArrayIndex(env.parts, s2, p + [0]) == Some(|items|) by {
      ListArrayField(env, s2, p, delimiter, name);
      assert p + [0] != p;
    }
    assert DeserializeField(env, s, record, n, p + [0], token) == Walked(Ok(()), s2, record[name := List(items + [Some(token)])]);
  }

  /** One turn of the token loop over such an array: the token is appended and the index advances. */
  lemma ListArrayTurn(env: Env, s: Slots, record: Record, p: Path, delimiter: JString, name: JString, tokens: seq<JString>, i: nat)
    returns (s': Slots)
    requires ListArray(env, p, delimiter, name) && name in record
    requires i < |tokens| && |tokens[i]| > 0
    requires ItemsOf(record[name]) == Present(tokens[..i]) && Get(s, p).index == i
    ensures Get(s', p).index == i + 1
    ensures DeserializeTokens(env, s, record, [MP.Field(name, -1)], p, tokens, i) ==
      DeserializeTokens(env, s', record[name := List(Present(tokens[..i + 1]))], [MP.Field(name, -1)], p, tokens, i + 1)
  {
    var body := [MP.Field(name, -1)];
    var items := Present(tokens[..i]);
    ListArrayToken(env, s, record, p, delimiter, name, tokens[i], items);
    var w := DeserializeChildren(env, s, record, body, p, 0, tokens[i]);
    DeserializeTokensStep(env, s, record, body, p, tokens, i, w);
    var s1 := w.slots[p := Get(w.slots, p).(index := Get(w.slots, p).index + 1)];
    ResetChildrenFrame(s1, body, p, 0);
    assert items + [Some(tokens[i])] == Present(tokens[..i + 1]);
    s' := ResetChildren(s1, body, p, 0);
  }

  /** The token loop over such an array appends each token to the list in turn. */
  lemma {:induction false} ListArrayTokens(env: Env, s: Slots, record: Record, p: Path, delimiter: JString, name: JString, tokens: seq<JString>, i: nat)
    requires ListArray(env, p, delimiter, name) && name in record
    requires i <= |tokens| && forall j | 0 <= j < |tokens| :: |tokens[j]| > 0
    requires ItemsOf(record[name]) == Present(tokens[..i]) && Get(s, p).index == i
    ensures DeserializeTokens(env, s, record, [MP.Field(name, -1)], p, tokens, i).out == Ok(())
    ensures DeserializeTokens(env, s, record, [MP.Field(name, -1)], p, tokens, i).record ==
      if i < |tokens| then record[name := List(Present(tokens))] else record
    decreases |tokens| - i
  {
    if i < |tokens| {
      var s' := ListArrayTurn(env, s, record, p, delimiter, name, tokens, i);
      var r1 := record[name := List(Present(tokens[..i + 1]))];
      ListArrayTokens(env, s', r1, p, delimiter, name, tokens, i + 1);
      if i + 1 == |tokens| {
        assert tokens[..i + 1] == tokens;
      } else {
        assert r1[name := List(Present(tokens))] == record[name := List(Present(tokens))];
      }
    }
  }

  /**
   * An array over one list field whose window is texts joined by the
   * delimiter, each non-empty and free of the delimiter's characters, reads
   * them into the list, in order.
   */
  lemma ListArrayDeserialize(env: Env, s: Slots, record: Record, p: Path, delimiter: JString, name: JString, texts: seq<JString>, message: JString)
    requires ListArray(env, p, delimiter, name) && name in record && ItemsOf(record[name]) == [] && Get(s, p).index == 0
    requires |delimiter| > 0 && Separable(texts, delimiter)
    requires p != [] && Extract(env.parts, s, MP.Array(delimiter, [MP.Field(name, -1)]), p, message) == Ok(Join(texts, delimiter))
    ensures DeserializeArray(env, s, record, delimiter, [MP.Field(name, -1)], p, message).out == Ok(())
    ensures DeserializeArray(env, s, record, delimiter, [MP.Field(name, -1)], p, message).record ==
      if texts == [] then record else record[name := List(Present(texts))]
  {
    var window := Join(texts, delimiter);
    var s1 := s[p := Get(s, p).(text := Some(window))];
    TokensOfJoin(texts, delimiter);
    assert texts[..0] == [];
    ListArrayTokens(env, s1, record, p, delimiter, name, texts, 0);
  }

  /**
   * What such an array serializes to reads back into a fresh list: the
   * elements come back, in order, when they are non-empty and free of the
   * delimiter's characters.
   */
  lemma ListArrayRoundTrip(env: Env, s: Slots, s': Slots, record: Record, blank: Record, p: Path, delimiter: JString, name: JString, texts: seq<JString>, message: JString)
    requires ListArray(env, p, delimiter, name) && name in record && record[name] == List(Present(texts)) && Get(s, p).index == 0
    requires name in blank && ItemsOf(blank[name]) == [] && Get(s', p).index == 0
    requires |delimiter| > 0 && Separable(texts, delimiter) && texts != []
    requires p != [] && Extract(env.parts, s', MP.Array(delimiter, [MP.Field(name, -1)]), p, message) ==
      SerializeArray(env, s, record, delimiter, [MP.Field(name, -1)], p).out
    ensures DeserializeArray(env, s', blank, delimiter, [MP.Field(name, -1)], p, message).out == Ok(())
    ensures DeserializeArray(env, s', blank, delimiter, [MP.Field(name, -1)], p, message).record == blank[name := record[name]]
  {
    ListArraySerialize(env, s, record, p, delimiter, name, texts);
    ListArrayDeserialize(env, s', blank, p, delimiter, name, texts, message);
  }

  /** A checksum block serializes to its body's text and keeps that text for the checksum. */
  lemma EccBlockSerialize(env: Env, s: Slots, record: Record, reference: JString, body: seq<MP.Node>, p: Path)
    ensures Serialize(env, s, record, MP.EccBlock(reference, body), p).out == SerializeChildren(env, s, record, body, p, 0, []).out
    ensures Serialize(env, s, record, MP.EccBlock(reference, body), p).out.Ok? ==>
      Get(Serialize(env, s, record, MP.EccBlock(reference, body), p).slots, p).text ==
      Some(Serialize(env, s, record, MP.EccBlock(reference, body), p).out.value)
  {
  }

  /**
   * A checksum block keeps its window for the checksum, whatever its body
   * does with it; an index out of range anywhere becomes a parsing failure.
   */
  lemma EccBlockDeserialize(env: Env, s: Slots, record: Record, reference: JString, body: seq<MP.Node>, p: Path, message: JString)
    requires p != []
    ensures Extract(env.parts, s, MP.EccBlock(reference, body), p, message).Ok? ==>
      Get(Deserialize(env, s, record, MP.EccBlock(reference, body), p, message).slots, p).text ==
      Some(Extract(env.parts, s, MP.EccBlock(reference, body), p, message).value)
    ensures Deserialize(env, s, record, MP.EccBlock(reference, body), p, message).out != Err(IndexOutOfBounds)
  {
    var window := Extract(env.parts, s, MP.EccBlock(reference, body), p, message);
    if window.Ok? {
      DeserializeChildrenFrame(env, s[p := Get(s, p).(text := Some(window.value))], record, body, p, 0, window.value);
    }
  }

  /** The block a placeholder refers to is a checksum block with that reference, and none is missed. */
  lemma FindBlockSound(parts: seq<MP.Node>, reference: JString)
    ensures FindBlock(parts, reference).Some? ==>
      NodeAt(parts, FindBlock(parts, reference).value).Some? &&
      NodeAt(parts, FindBlock(parts, reference).value).value.EccBlock? &&
      NodeAt(parts, FindBlock(parts, reference).value).value.reference == reference
    ensures FindBlock(parts, reference).None? ==>
      forall q | q in FilteredNodes(parts, EccBlockClass) :: q.node.EccBlock? && q.node.reference != reference
  {
    FilteredSound(parts, [], parts, EccBlockClass, 0);
  }

  /**
   * A placeholder serializes to exactly one character, the checksum of the
   * referenced block's current text, and keeps it; with the default checksum
   * that is the XOR of the block, and a block not yet walked makes it fail.
   */
  lemma EccCalcSerialize(env: Env, s: Slots, record: Record, reference: JString, p: Path)
    ensures Serialize(env, s, record, MP.EccCalc(reference), p).record == record
    ensures Serialize(env, s, record, MP.EccCalc(reference), p).out.Ok? <==> Checksum(env, s, reference).Ok?
    ensures Serialize(env, s, record, MP.EccCalc(reference), p).out.Ok? ==>
      Serialize(env, s, record, MP.EccCalc(reference), p).out.value == [Checksum(env, s, reference).value] &&
      Get(Serialize(env, s, record, MP.EccCalc(reference), p).slots, p).text == Some([Checksum(env, s, reference).value])
    ensures FindBlock(env.parts, reference).None? ==>
      Serialize(env, s, record, MP.EccCalc(reference), p).out == Err(Parsing(BlockNotFound(reference)))
    ensures env.cls.checksum == DefaultChecksum && FindBlock(env.parts, reference).Some? ==>
      if Get(s, FindBlock(env.parts, reference).value).text.Some? then
        Serialize(env, s, record, MP.EccCalc(reference), p).out == Ok([EccService.Xor(Get(s, FindBlock(env.parts, reference).value).text.value)])
      else
        Serialize(env, s, record, MP.EccCalc(reference), p).out == Err(Parsing(ChecksumFailed))
  {
  }

  /**
   * A placeholder reads back exactly when its window is the one checksum
   * character of the referenced block; any other window is not valid.
   */
  lemma EccCalcDeserialize(env: Env, s: Slots, record: Record, reference: JString, p: Path, message: JString)
    requires p != []
    ensures Deserialize(env, s, record, MP.EccCalc(reference), p, message).record == record
    ensures Deserialize(env, s, record, MP.EccCalc(reference), p, message).out.Ok? <==>
      Extract(env.parts, s, MP.EccCalc(reference), p, message).Ok? &&
      Checksum(env, Deserialize(env, s, record, MP.EccCalc(reference), p, message).slots, reference).Ok? &&
      Extract(env.parts, s, MP.EccCalc(reference), p, message).value ==
        [Checksum(env, Deserialize(env, s, record, MP.EccCalc(reference), p, message).slots, reference).value]
    ensures (Extract(env.parts, s, MP.EccCalc(reference), p, message).Ok? &&
      Checksum(env, Deserialize(env, s, record, MP.EccCalc(reference), p, message).slots, reference).Ok? &&
      Extract(env.parts, s, MP.EccCalc(reference), p, message).value !=
        [Checksum(env, Deserialize(env, s, record, MP.EccCalc(reference), p, message).slots, reference).value]) ==>
      Deserialize(env, s, record, MP.EccCalc(reference), p, message).out == Err(Parsing(EccNotValid))
  {
    match Extract(env.parts, s, MP.EccCalc(reference), p, message)
    case Err(f) =>
      assert Deserialize(env, s, record, MP.EccCalc(reference), p, message) == Walked(Err(Wrap(f)), s, record);
    case Ok(window) =>
      var s1 := s[p := Get(s, p).(text := Some(window))];
      assert Deserialize(env, s, record, MP.EccCalc(reference), p, message).slots == s1;
  }

  // ---------------------------------------------------------------------
  // Templates of literals and symbols

  /** A node that only ever matches fixed text: a literal or a declared symbol. */
  predicate Plain(n: MP.Node)
  {
    n.Literal? || (n.Symbol? && MessageCharacters.NameToCharacter(n.name).Some?)
  }

  /** The fixed text of a plain node. */
  function Piece(n: MP.Node): JString
  {
    match n
    case Literal(text) => text
    case Symbol(name) => SymbolText(name)
    case _ => []
  }

  /** The text of a sequence of plain nodes, read left to right. */
  function PlainText(parts: seq<MP.Node>): JString
    decreases |parts|
  {
    if parts == [] then [] else PlainText(parts[..|parts| - 1]) + Piece(parts[|parts| - 1])
  }

  lemma PlainTextSnoc(parts: seq<MP.Node>, k: nat)
    requires k < |parts|
    ensures PlainText(parts[..k + 1]) == PlainText(parts[..k]) + Piece(parts[k])
  {
    assert parts[..k + 1][..k] == parts[..k];
  }

  lemma {:induction false} PlainTextPrefix(parts: seq<MP.Node>, k: nat)
    requires k <= |parts|
    ensures PlainText(parts[..k]) <= PlainText(parts)
    decreases |parts| - k
  {
    if k == |parts| {
      assert parts[..k] == parts;
    } else {
      PlainTextSnoc(parts, k);
      PlainTextPrefix(parts, k + 1);
    }
  }

  /** Each plain node spans the length of its text, so the k-th one starts after the first k texts. */
  lemma {:induction false} PlainLengths(s: Slots, parts: seq<MP.Node>, k: nat)
    requires k <= |parts| && forall i | 0 <= i < |parts| :: Plain(parts[i])
    ensures LengthsBetween(s, parts, [], 0, k) == Ok(|PlainText(parts[..k])|)
    decreases k
  {
    if k > 0 {
      PlainLengths(s, parts, k - 1);
      LengthsSnoc(s, parts, [], 0, k - 1);
      PlainTextSnoc(parts, k - 1);
    }
  }

  /** Extending a prefix of `m` by `piece` stays a prefix exactly when `m` holds `piece` right after it. */
  lemma PrefixExtend(a: JString, piece: JString, m: JString)
    requires a <= m
    ensures a + piece <= m <==> |a| + |piece| <= |m| && m[|a|..|a| + |piece|] == piece
  {
    if |a| + |piece| <= |m| {
      assert (a + piece == m[..|a| + |piece|]) <==> (m[|a|..|a| + |piece|] == piece) by {
        assert m[..|a| + |piece|] == m[..|a|] + m[|a|..|a| + |piece|];
      }
    }
  }

  lemma {:induction false} PlainSerialize(env: Env, s: Slots, record: Record, k: nat)
    requires k <= |env.parts| && forall i | 0 <= i < |env.parts| :: Plain(env.parts[i])
    ensures SerializeChildren(env, s, record, env.parts, [], k, PlainText(env.parts[..k])) == Walked(Ok(PlainText(env.parts)), s, record)
    decreases |env.parts| - k
  {
    if k == |env.parts| {
      assert env.parts[..k] == env.parts;
    } else {
      PlainTextSnoc(env.parts, k);
      PlainSerialize(env, s, record, k + 1);
    }
  }

  /** A plain node that starts right after `before` reads back exactly when the message continues with its text. */
  lemma PlainNodeDeserialize(env: Env, s: Slots, record: Record, n: MP.Node, p: Path, message: JString, before: JString)
    requires p != [] && Plain(n) && Position(env.parts, s, p) == Ok(|before|) && before <= message
    ensures Deserialize(env, s, record, n, p, message).slots == s
    ensures Deserialize(env, s, record, n, p, message).record == record
    ensures Deserialize(env, s, record, n, p, message).out.Ok? <==> before + Piece(n) <= message
  {
    PrefixExtend(before, Piece(n), message);
  }

  lemma {:induction false} PlainDeserialize(env: Env, s: Slots, record: Record, k: nat, message: JString)
    requires k <= |env.parts| && forall i | 0 <= i < |env.parts| :: Plain(env.parts[i])
    requires PlainText(env.parts[..k]) <= message
    ensures DeserializeChildren(env, s, record, env.parts, [], k, message).slots == s
    ensures DeserializeChildren(env, s, record, env.parts, [], k, message).record == record
    ensures DeserializeChildren(env, s, record, env.parts, [], k, message).out.Ok? <==> PlainText(env.parts) <= message
    decreases |env.parts| - k
  {
    if k == |env.parts| {
      assert env.parts[..k] == env.parts;
    } else {
      PlainChildStep(env, s, record, k, message);
      PlainTextPrefix(env.parts, k + 1);
      if PlainText(env.parts[..k + 1]) <= message {
        PlainDeserialize(env, s, record, k + 1, message);
      }
    }
  }

  /** One step of the children loop over a plain template: the k-th part reads back iff the message holds one more piece. */
  lemma PlainChildStep(env: Env, s: Slots, record: Record, k: nat, message: JString)
    requires k < |env.parts| && forall i | 0 <= i < |env.parts| :: Plain(env.parts[i])
    requires PlainText(env.parts[..k]) <= message
    ensures PlainText(env.parts[..k + 1]) <= message ==>
      DeserializeChildren(env, s, record, env.parts, [], k, message) == DeserializeChildren(env, s, record, env.parts, [], k + 1, message)
    ensures !(PlainText(env.parts[..k + 1]) <= message) ==>
      DeserializeChildren(env, s, record, env.parts, [], k, message).out.Err? &&
      DeserializeChildren(env, s, record, env.parts, [], k, message).slots == s &&
      DeserializeChildren(env, s, record, env.parts, [], k, message).record == record
  {
    PlainPosition(env, s, k);
    PlainNodeDeserialize(env, s, record, env.parts[k], [k], message, PlainText(env.parts[..k]));
    PlainTextSnoc(env.parts, k);
  }

  lemma PlainPosition(env: Env, s: Slots, k: nat)
    requires k < |env.parts| && forall i | 0 <= i < |env.parts| :: Plain(env.parts[i])
    ensures Position(env.parts, s, [k]) == Ok(|PlainText(env.parts[..k])|)
  {
    assert Parent([k]) == [] && Last([k]) == k;
    PlainLengths(s, env.parts, k);
  }

  /**
   * A template of literals and declared symbols serializes to its fixed text
   * without touching state, and deserializes, again without touching state,
   * exactly the messages that start with that text: the rest of the message
   * is never looked at.
   */
  lemma PlainRoundTrip(env: Env, s: Slots, record: Record, message: JString)
    requires forall i | 0 <= i < |env.parts| :: Plain(env.parts[i])
    ensures SerializeTree(env, s, record) == Walked(Ok(PlainText(env.parts)), s, record)
    ensures DeserializeTree(env, s, record, message).slots == s
    ensures DeserializeTree(env, s, record, message).record == record
    ensures DeserializeTree(env, s, record, message).out.Ok? <==> PlainText(env.parts) <= message
  {
    assert env.parts[..0] == [];
    PlainSerialize(env, s, record, 0);
    PlainDeserialize(env, s, record, 0, message);
  }
}
