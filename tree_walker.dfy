/**
 * The parser tree as the Java code holds it: the compiled template, whose
 * nodes keep their fields in `slots`, and the record being read or written.
 * Each method is one of the Java methods that loops over children, tokens or
 * list elements, and is proved to compute the function of `NodeTree` or
 * `Walk` that specifies it, state included.
 */
module TreeWalker {
  import opened JavaText
  import opened Failures
  import opened Binding
  import opened NodeTree
  import opened Walk
  import MP = MessageParser

  class ParserTree {
    const env: Env
    var slots: Slots
    var record: Record

    /** The tree for a template, as built by the parser: each composite node resets itself when created. */
    constructor (env: Env, record: Record)
      ensures this.env == env && slots == Initial(env.parts) && this.record == record
    {
      this.env := env;
      slots := Initial(env.parts);
      this.record := record;
    }

    // -------------------------------------------------------------------
    // Queries

    /** `getLength`: an optional that has not failed sums its children. */
    method GetLength(n: MP.Node, p: Path) returns (r: Result<int>)
      ensures r == Length(slots, n, p)
      decreases n, 1
    {
      match n
      case Literal(text) => r := Ok(|text|);
      case Symbol(_) => r := Ok(1);
      case Field(_, _) => r := Ok(Get(slots, p).length);
      case Optional(body) =>
        if Get(slots, p).failed {
          r := Ok(0);
        } else {
          r := SumLengths(body, p, |body|);
        }
      case Array(_, _) => r := TextLength(Get(slots, p).text);
      case EccBlock(_, _) => r := TextLength(Get(slots, p).text);
      case EccCalc(_) => r := TextLength(Get(slots, p).text);
    }

    /** The loop adding up the lengths of the first `end` children. */
    method SumLengths(kids: seq<MP.Node>, p: Path, end: nat) returns (r: Result<int>)
      requires end <= |kids|
      ensures r == LengthsBetween(slots, kids, p, 0, end)
      decreases kids, 0
    {
      var sum := 0;
      var k := 0;
      while k < end
        invariant k <= end
        invariant LengthsBetween(slots, kids, p, 0, k) == Ok(sum)
      {
        var l := GetLength(kids[k], p + [k]);
        LengthsSnoc(slots, kids, p, 0, k);
        if l.Err? {
          LengthsFailFrom(slots, kids, p, k + 1, end);
          return Err(l.failure);
        }
        sum := sum + l.value;
        k := k + 1;
      }
      return Ok(sum);
    }

    /** `getPosition`: the lengths of the left siblings added up. */
    method GetPosition(p: Path) returns (r: Result<int>)
      ensures r == Position(env.parts, slots, p)
    {
      if p == [] {
        return Ok(0);
      }
      var siblings := ChildrenAt(env.parts, Parent(p));
      r := SumLengths(siblings, Parent(p), if Last(p) <= |siblings| then Last(p) else |siblings|);
    }

    /** `getContent`: an optional that has not failed joins its children's contents. */
    method GetContent(n: MP.Node, p: Path) returns (r: Option<JString>)
      ensures r == Content(slots, n, p)
      decreases n, 1
    {
      match n
      case Literal(text) => r := Some(text);
      case Symbol(name) => r := Some(SymbolText(name));
      case Optional(body) =>
        if Get(slots, p).failed {
          r := Some([]);
        } else {
          var c := JoinContents(body, p);
          r := Some(c);
        }
      case _ => r := Get(slots, p).text;
    }

    /** The loop of `ParserNode.getContent`: contents appended, null as "", until a child is not defined. */
    method JoinContents(kids: seq<MP.Node>, p: Path) returns (r: JString)
      ensures r == ChildrenContent(slots, kids, p, 0)
      decreases kids, 0
    {
      r := [];
      var k := 0;
      while k < |kids|
        invariant k <= |kids|
        invariant ChildrenContent(slots, kids, p, 0) == r + ChildrenContent(slots, kids, p, k)
      {
        if !Defined(slots, kids[k], p + [k]) {
          assert r + ChildrenContent(slots, kids, p, k) == r;
          return;
        }
        var c := GetContent(kids[k], p + [k]);
        assert r + ChildrenContent(slots, kids, p, k) == (r + OrEmpty(c)) + ChildrenContent(slots, kids, p, k + 1);
        r := r + OrEmpty(c);
        k := k + 1;
      }
      assert r + ChildrenContent(slots, kids, p, k) == r;
    }

    /** `extractDelimiteredMessage`: the window from the node's position to its end. */
    method ExtractWindow(n: MP.Node, p: Path, message: JString) returns (r: Result<JString>)
      requires p != []
      ensures r == Extract(env.parts, slots, n, p, message)
    {
      var pos := GetPosition(p);
      if pos.Err? {
        return Err(pos.failure);
      }
      var end := GetEnd(env.parts, slots, n, p, message, pos.value);
      if end.Err? {
        return Err(end.failure);
      }
      if !SubstringBounds(message, pos.value, end.value) {
        return Err(IndexOutOfBounds);
      }
      return Ok(message[pos.value..end.value]);
    }

    /** `findReferenceECCBlockNode`: the search over the tree's checksum blocks. */
    method FindReference(reference: JString) returns (r: Option<Path>)
      ensures r == FindBlock(env.parts, reference)
    {
      var blocks := FilteredNodes(env.parts, EccBlockClass);
      var i := 0;
      while i < |blocks|
        invariant i <= |blocks|
        invariant FirstBlock(blocks, reference, i) == FindBlock(env.parts, reference)
      {
        if blocks[i].node.EccBlock? && blocks[i].node.reference == reference {
          return Some(blocks[i].path);
        }
        i := i + 1;
      }
      return None;
    }

    /** `callECCCalculationMethod` on the referenced block's current content. */
    method ComputeChecksum(reference: JString) returns (r: Result<JChar>)
      ensures r == Checksum(env, slots, reference)
    {
      var block := FindReference(reference);
      if block.None? {
        return Err(Parsing(BlockNotFound(reference)));
      }
      var c := env.cls.checksum(Get(slots, block.value).text);
      if c.None? {
        return Err(Parsing(ChecksumFailed));
      }
      return Ok(c.value);
    }

    /** `getAllListsSize`: the loop over the field descendants of an array. */
    method GetAllListsSize(body: seq<MP.Node>, p: Path) returns (r: Result<int>)
      ensures r == AllListsSize(env, record, body, p)
    {
      var fields := Filtered(body, p, FieldClass, 0);
      var size := -1;
      var i := 0;
      while i < |fields|
        invariant i <= |fields| && size >= -1
        invariant ListsSize(env, record, fields, i, size) == AllListsSize(env, record, body, p)
      {
        if Counted(env, fields[i]) {
          var name := fields[i].node.name;
          if name !in record {
            return Err(Parsing(MissingField(name)));
          }
          if !record[name].List? {
            return Err(Parsing(NeedArrayOrList(name)));
          }
          if size != -1 && size != |record[name].items| {
            return Ok(-1);
          }
          size := |record[name].items|;
        }
        i := i + 1;
      }
      return Ok(size);
    }

    // -------------------------------------------------------------------
    // Reset

    /** `reset`: the children first, then the node's own fields. */
    method ResetNode(n: MP.Node, p: Path)
      modifies this
      ensures slots == Reset(old(slots), n, p) && record == old(record)
      decreases n, 1
    {
      match n
      case Literal(_) =>
      case Symbol(_) =>
      case Field(_, _) => slots := slots[p := ResetSlot(n, Get(slots, p))];
      case EccCalc(_) => slots := slots[p := ResetSlot(n, Get(slots, p))];
      case Optional(body) =>
        ResetChildrenLoop(body, p);
        slots := slots[p := ResetSlot(n, Get(slots, p))];
      case Array(_, body) =>
        ResetChildrenLoop(body, p);
        slots := slots[p := ResetSlot(n, Get(slots, p))];
      case EccBlock(_, body) =>
        ResetChildrenLoop(body, p);
        slots := slots[p := ResetSlot(n, Get(slots, p))];
    }

    /** `resetChildren`. */
    method ResetChildrenLoop(kids: seq<MP.Node>, p: Path)
      modifies this
      ensures slots == ResetChildren(old(slots), kids, p, 0) && record == old(record)
      decreases kids, 0
    {
      var k := 0;
      while k < |kids|
        invariant k <= |kids|
        invariant ResetChildren(slots, kids, p, k) == ResetChildren(old(slots), kids, p, 0)
        invariant record == old(record)
      {
        ResetNode(kids[k], p + [k]);
        k := k + 1;
      }
    }

    // -------------------------------------------------------------------
    // Serialization

    /** `serialize` of one node. */
    method SerializeNode(n: MP.Node, p: Path) returns (out: Result<JString>)
      modifies this
      ensures Walked(out, slots, record) == Serialize(env, old(slots), old(record), n, p)
      decreases n, 3
    {
      match n
      case Literal(text) => out := Ok(text);
      case Symbol(name) => out := Ok(SymbolText(name));
      case Field(name, fieldLength) =>
        var e := GetField(env.cls, record, name, fieldLength, ArrayIndex(env.parts, slots, p));
        record := e.record;
        if e.out.Err? {
          out := Err(e.out.failure);
        } else if e.out.value.None? {
          out := Err(Parsing(NoData(name)));
        } else {
          out := Ok(e.out.value.value);
        }
      case Optional(body) =>
        out := SerializeChildrenLoop(body, p);
        if out.Err? && out.failure.Parsing? {
          slots := slots[p := Get(slots, p).(failed := true)];
          out := Ok([]);
        }
      case Array(delimiter, body) => out := SerializeArrayNode(delimiter, body, p);
      case EccBlock(_, body) =>
        out := SerializeChildrenLoop(body, p);
        if out.Ok? {
          slots := slots[p := Get(slots, p).(text := Some(out.value))];
        }
      case EccCalc(reference) =>
        var c := ComputeChecksum(reference);
        if c.Err? {
          return Err(c.failure);
        }
        slots := slots[p := Get(slots, p).(text := Some([c.value]))];
        out := Ok([c.value]);
    }

    /** `serializeChildren`: the loop appending each child's text. */
    method SerializeChildrenLoop(kids: seq<MP.Node>, p: Path) returns (out: Result<JString>)
      modifies this
      ensures Walked(out, slots, record) == SerializeChildren(env, old(slots), old(record), kids, p, 0, [])
      decreases kids, 0
    {
      var acc := [];
      var k := 0;
      while k < |kids|
        invariant k <= |kids|
        invariant SerializeChildren(env, slots, record, kids, p, k, acc) == SerializeChildren(env, old(slots), old(record), kids, p, 0, [])
      {
        var part := SerializeNode(kids[k], p + [k]);
        if part.Err? {
          return part;
        }
        acc := acc + part.value;
        k := k + 1;
      }
      return Ok(acc);
    }

    /** `ArrayNode.serialize`: the body once per list element, each followed by the delimiter, then the last one trimmed. */
    method SerializeArrayNode(delimiter: JString, body: seq<MP.Node>, p: Path) returns (out: Result<JString>)
      modifies this
      ensures Walked(out, slots, record) == SerializeArray(env, old(slots), old(record), delimiter, body, p)
      decreases body, 2
    {
      var size := GetAllListsSize(body, p);
      if size.Err? {
        return Err(size.failure);
      }
      if size.value < 0 {
        return Err(Parsing(ListSizesDiffer));
      }
      var count: nat := size.value;
      var buf := [];
      while Get(slots, p).index < count
        invariant Repeat(env, slots, record, delimiter, body, p, count, buf) == Repeat(env, old(slots), old(record), delimiter, body, p, count, [])
        decreases count - Get(slots, p).index
      {
        var i := Get(slots, p).index;
        var part := SerializeChildrenLoop(body, p);
        if part.Err? {
          return part;
        }
        buf := buf + part.value + delimiter;
        slots := slots[p := Get(slots, p).(index := i + 1)];
      }
      var content := Trim(buf, delimiter);
      slots := slots[p := Get(slots, p).(text := Some(content))];
      return Ok(content);
    }
  
    // -------------------------------------------------------------------
    // Deserialization

    /** The comparison `ContentNode` and `MessageCharacterNode` make at their position. */
    method MatchText(p: Path, message: JString, expected: JString, span: int, mismatch: ParsingReason) returns (out: Result<()>)
      ensures Walked(out, slots, record) == MatchAt(env, slots, record, p, message, expected, span, mismatch)
    {
      var pos := GetPosition(p);
      if pos.Err? {
        return Err(pos.failure);
      }
      if !SubstringBounds(message, pos.value, pos.value + span) {
        return Err(Parsing(OutOfRange));
      }
      if message[pos.value..pos.value + span] != expected {
        return Err(Parsing(mismatch));
      }
      return Ok(());
    }

    /** `ReflectionFieldNode.deserialize`. */
    method DeserializeFieldNode(n: MP.Node, p: Path, message: JString) returns (out: Result<()>)
      requires n.Field? && p != []
      modifies this
      ensures Walked(out, slots, record) == DeserializeField(env, old(slots), old(record), n, p, message)
    {
      var pos := GetPosition(p);
      if pos.Err? {
        return Err(pos.failure);
      }
      var len := FieldSpan(env, slots, n, p, message, pos.value);
      if len.Err? {
        return Err(len.failure);
      }
      slots := slots[p := Get(slots, p).(length := len.value)];
      if |message| > 0 && len.value > 0 && pos.value + len.value <= |message| {
        if pos.value < 0 {
          return Err(Parsing(OutOfRange));
        }
        var text := message[pos.value..pos.value + len.value];
        slots := slots[p := Get(slots, p).(text := Some(text))];
        var e := SetField(env.cls, record, n.name, text, ArrayIndex(env.parts, slots, p));
        record := e.record;
        out := e.out;
      } else {
        out := Ok(());
      }
    }

    /** `deserialize` of one node against the window its parent hands down. */
    method DeserializeNode(n: MP.Node, p: Path, message: JString) returns (out: Result<()>)
      requires p != []
      modifies this
      ensures Walked(out, slots, record) == Deserialize(env, old(slots), old(record), n, p, message)
      decreases n, 3
    {
      match n
      case Literal(text) => out := MatchText(p, message, text, |text|, ContentMismatch);
      case Symbol(name) => out := MatchText(p, message, SymbolText(name), 1, CharacterMismatch);
      case Field(_, _) => out := DeserializeFieldNode(n, p, message);
      case Optional(body) =>
        var window := ExtractWindow(n, p, message);
        if window.Err? {
          return Err(Wrap(window.failure));
        }
        out := DeserializeChildrenLoop(body, p, window.value);
        if out.Err? && out.failure.Parsing? {
          slots := slots[p := Get(slots, p).(failed := true)];
          out := Ok(());
        } else if out.Err? {
          out := Err(Wrap(out.failure));
        }
      case Array(delimiter, body) => out := DeserializeArrayNode(delimiter, body, p, message);
      case EccBlock(_, body) =>
        var window := ExtractWindow(n, p, message);
        if window.Err? {
          return Err(Wrap(window.failure));
        }
        slots := slots[p := Get(slots, p).(text := Some(window.value))];
        out := DeserializeChildrenLoop(body, p, window.value);
        if out.Err? {
          out := Err(Wrap(out.failure));
        }
      case EccCalc(reference) =>
        var window := ExtractWindow(n, p, message);
        if window.Err? {
          return Err(Wrap(window.failure));
        }
        slots := slots[p := Get(slots, p).(text := Some(window.value))];
        var c := ComputeChecksum(reference);
        if c.Err? {
          return Err(c.failure);
        }
        out := if window.value == [c.value] then Ok(()) else Err(Parsing(EccNotValid));
    }

    /** `deserializeChildren`: each child in turn against the same window. */
    method DeserializeChildrenLoop(kids: seq<MP.Node>, p: Path, message: JString) returns (out: Result<()>)
      modifies this
      ensures Walked(out, slots, record) == DeserializeChildren(env, old(slots), old(record), kids, p, 0, message)
      decreases kids, 0
    {
      var k := 0;
      while k < |kids|
        invariant k <= |kids|
        invariant DeserializeChildren(env, slots, record, kids, p, k, message) == DeserializeChildren(env, old(slots), old(record), kids, p, 0, message)
      {
        var r := DeserializeNode(kids[k], p + [k], message);
        if r.Err? {
          return r;
        }
        k := k + 1;
      }
      return Ok(());
    }

    /**
     * `ArrayNode.deserialize`: the window becomes the content, and each token
     * is read by the body, advances the index and resets the body.
     */
    method DeserializeArrayNode(delimiter: JString, body: seq<MP.Node>, p: Path, message: JString) returns (out: Result<()>)
      requires p != []
      modifies this
      ensures Walked(out, slots, record) == DeserializeArray(env, old(slots), old(record), delimiter, body, p, message)
      decreases body, 2
    {
      var window := ExtractWindow(MP.Array(delimiter, body), p, message);
      if window.Err? {
        return Err(window.failure);
      }
      slots := slots[p := Get(slots, p).(text := Some(window.value))];
      out := DeserializeTokensLoop(body, p, Tokens(window.value, delimiter));
    }

    /** The token loop of `ArrayNode.deserialize`. */
    method DeserializeTokensLoop(body: seq<MP.Node>, p: Path, tokens: seq<JString>) returns (out: Result<()>)
      modifies this
      ensures Walked(out, slots, record) == DeserializeTokens(env, old(slots), old(record), body, p, tokens, 0)
      decreases body, 1
    {
      var i := 0;
      while i < |tokens|
        invariant i <= |tokens|
        invariant DeserializeTokens(env, slots, record, body, p, tokens, i) == DeserializeTokens(env, old(slots), old(record), body, p, tokens, 0)
      {
        ghost var before, recordBefore := slots, record;
        var r := DeserializeChildrenLoop(body, p, tokens[i]);
        DeserializeTokensStep(env, before, recordBefore, body, p, tokens, i, Walked(r, slots, record));
        if r.Err? {
          return r;
        }
        NextToken(body, p);
        i := i + 1;
      }
      return Ok(());
    }

    /** Between tokens: the array's index advances and the body is reset. */
    method NextToken(body: seq<MP.Node>, p: Path)
      modifies this
      ensures slots == ResetChildren(old(slots)[p := Get(old(slots), p).(index := Get(old(slots), p).index + 1)], body, p, 0)
      ensures record == old(record)
      decreases body, 0
    {
      slots := slots[p := Get(slots, p).(index := Get(slots, p).index + 1)];
      ResetChildrenLoop(body, p);
    }
  }
}
