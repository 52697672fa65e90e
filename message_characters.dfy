/**
 * The named control characters of message templates: the table of char
 * constants, the two lookup maps filled from it, the expansion of `<NAME>`
 * inside a string, and pretty-printing, which goes the other way.
 */
module MessageCharacters {
  import opened JavaText
  import opened Failures

  /** One declared char constant: the field's name and its value. */
  datatype Entry = Entry(name: JString, character: JChar)

  /** Number of declared char constants. */
  const Count := 34

  /** The name of the `i`-th char constant, spelled as code units. */
  function NameAt(i: nat): JString
    requires i < Count
  {
    match i
    case 0 => [0x4E, 0x55, 0x4C]        // NUL
    case 1 => [0x53, 0x4F, 0x48]        // SOH
    case 2 => [0x53, 0x54, 0x58]        // STX
    case 3 => [0x45, 0x54, 0x58]        // ETX
    case 4 => [0x45, 0x4F, 0x54]        // EOT
    case 5 => [0x45, 0x4E, 0x51]        // ENQ
    case 6 => [0x41, 0x43, 0x4B]        // ACK
    case 7 => [0x42, 0x45, 0x4C]        // BEL
    case 8 => [0x42, 0x53]              // BS
    case 9 => [0x54, 0x41, 0x42]        // TAB
    case 10 => [0x4C, 0x46]             // LF
    case 11 => [0x56, 0x54]             // VT
    case 12 => [0x46, 0x46]             // FF
    case 13 => [0x43, 0x52]             // CR
    case 14 => [0x53, 0x4F]             // SO
    case 15 => [0x53, 0x49]             // SI
    case 16 => [0x44, 0x4C, 0x45]       // DLE
    case 17 => [0x44, 0x43, 0x31]       // DC1
    case 18 => [0x44, 0x43, 0x32]       // DC2
    case 19 => [0x44, 0x43, 0x33]       // DC3
    case 20 => [0x44, 0x43, 0x34]       // DC4
    case 21 => [0x4E, 0x41, 0x4B]       // NAK
    case 22 => [0x53, 0x59, 0x4E]       // SYN
    case 23 => [0x45, 0x54, 0x42]       // ETB
    case 24 => [0x43, 0x41, 0x4E]       // CAN
    case 25 => [0x45, 0x4D]             // EM
    case 26 => [0x53, 0x55, 0x42]       // SUB
    case 27 => [0x45, 0x53, 0x43]       // ESC
    case 28 => [0x46, 0x53]             // FS
    case 29 => [0x47, 0x53]             // GS
    case 30 => [0x52, 0x53]             // RS
    case 31 => [0x55, 0x53]             // US
    case 32 => [0x53, 0x50, 0x41, 0x43, 0x45]// SPACE
    case 33 => [0x44, 0x45, 0x4C]       // DEL
  }

  /** The value of the `i`-th char constant. */
  function CharacterAt(i: nat): JChar
    requires i < Count
  {
    match i
    case 0 => 0x00      // NUL
    case 1 => 0x01      // SOH
    case 2 => 0x02      // STX
    case 3 => 0x03      // ETX
    case 4 => 0x04      // EOT
    case 5 => 0x05      // ENQ
    case 6 => 0x06      // ACK
    case 7 => 0x07      // BEL
    case 8 => 0x08      // BS
    case 9 => 0x09      // TAB
    case 10 => 0x0A     // LF
    case 11 => 0x0B     // VT
    case 12 => 0x0C     // FF
    case 13 => 0x0D     // CR
    case 14 => 0x0E     // SO
    case 15 => 0x0F     // SI
    case 16 => 0x10     // DLE
    case 17 => 0x11     // DC1
    case 18 => 0x12     // DC2
    case 19 => 0x13     // DC3
    case 20 => 0x14     // DC4
    case 21 => 0x15     // NAK
    case 22 => 0x16     // SYN
    case 23 => 0x17     // ETB
    case 24 => 0x18     // CAN
    case 25 => 0x19     // EM
    case 26 => 0x1A     // SUB
    case 27 => 0x1B     // ESC
    case 28 => 0x1C     // FS
    case 29 => 0x1D     // GS
    case 30 => 0x1E     // RS
    case 31 => 0x1F     // US
    case 32 => 0x20     // SPACE
    case 33 => 0x7F     // DEL
  }

  /** The `i`-th char constant. */
  function EntryAt(i: nat): Entry
    requires i < Count
  {
    Entry(NameAt(i), CharacterAt(i))
  }

  /** The char constants in declaration order. */
  function Declared(): seq<Entry>
  {
    seq(Count, i requires 0 <= i < Count => EntryAt(i))
  }

  const Table: seq<Entry> := Declared()

  lemma TableEntries()
    ensures |Table| == Count
    ensures forall i | 0 <= i < Count :: Table[i] == Entry(NameAt(i), CharacterAt(i))
  {
  }

  const Lt: JChar := 0x3C  // '<'
  const Gt: JChar := 0x3E  // '>'

  /** `allNames`: the names of the char constants in declaration order. */
  function AllNames(): (r: seq<JString>)
    ensures |r| == Count
    ensures forall i | 0 <= i < Count :: r[i] == NameAt(i)
  {
    seq(Count, i requires 0 <= i < Count => NameAt(i))
  }

  predicate DistinctNames(t: seq<Entry>)
  {
    forall i, j | 0 <= i < j < |t| :: t[i].name != t[j].name
  }

  predicate DistinctCharacters(t: seq<Entry>)
  {
    forall i, j | 0 <= i < j < |t| :: t[i].character != t[j].character
  }

  lemma CharactersConsecutiveLow()
    ensures forall i | 0 <= i < 16 :: CharacterAt(i + 1) == CharacterAt(i) + 1
  {
  }

  lemma CharactersConsecutiveHigh()
    ensures forall i | 16 <= i < 32 :: CharacterAt(i + 1) == CharacterAt(i) + 1
  {
  }

  /** NUL..US are 0x00..0x1F in order, SPACE is 0x20 and DEL is 0x7F. */
  lemma TableValues()
    ensures |Table| == Count && Table[0].character == 0x00
    ensures forall i | 0 <= i < 32 :: Table[i + 1].character == Table[i].character + 1
    ensures Table[32].character == 0x20 && Table[33].character == 0x7F
  {
    TableEntries();
    CharactersConsecutiveLow();
    CharactersConsecutiveHigh();
  }

  lemma NamesDistinctLow()
    ensures forall i, j | 0 <= i < j < 17 :: NameAt(i) != NameAt(j)
  {
  }

  lemma NamesDistinctHigh()
    ensures forall i, j | 17 <= i < j < Count :: NameAt(i) != NameAt(j)
  {
  }

  lemma NamesDistinctAcross()
    ensures forall i, j | 0 <= i < 17 <= j < Count :: NameAt(i) != NameAt(j)
  {
  }

  /** Field names are unique in a Java class, so the table's names are distinct. */
  lemma TableNamesDistinct()
    ensures DistinctNames(Table)
  {
    TableEntries();
    NamesDistinctLow();
    NamesDistinctHigh();
    NamesDistinctAcross();
  }

  lemma CharactersDistinct()
    ensures forall i, j | 0 <= i < j < Count :: CharacterAt(i) != CharacterAt(j)
  {
  }

  lemma TableCharactersDistinct()
    ensures DistinctCharacters(Table)
  {
    TableEntries();
    CharactersDistinct();
  }

  /** `a` differs from `b` within its first three units, or is longer: then it is no prefix of `b`. */
  predicate Unprefixed(a: JString, b: JString)
  {
    |a| > |b| || (|a| >= 1 && a[0] != b[0]) || (|a| >= 2 && a[1] != b[1]) || (|a| >= 3 && a[2] != b[2])
  }

  lemma PrefixFreeLow()
    ensures forall i, j | 0 <= j < i < 17 :: Unprefixed(NameAt(j), NameAt(i))
  {
  }

  lemma PrefixFreeHigh()
    ensures forall i, j | 17 <= j < i < Count :: Unprefixed(NameAt(j), NameAt(i))
  {
  }

  lemma PrefixFreeAcross()
    ensures forall i, j | 0 <= j < 17 <= i < Count :: Unprefixed(NameAt(j), NameAt(i))
  {
  }

  /** No name is a prefix of a name declared after it (SOH comes before SO). */
  lemma NamesPrefixFree()
    ensures forall i, j | 0 <= j < i < Count :: !(NameAt(j) <= NameAt(i))
  {
    PrefixFreeLow();
    PrefixFreeHigh();
    PrefixFreeAcross();
    forall i, j | 0 <= j < i < Count ensures !(NameAt(j) <= NameAt(i)) {
      assert Unprefixed(NameAt(j), NameAt(i));
    }
  }

  lemma NamesPlainLow()
    ensures forall i | 0 <= i < 17 :: |NameAt(i)| > 0 && Lt !in NameAt(i) && Gt !in NameAt(i)
  {
  }

  lemma NamesPlainHigh()
    ensures forall i | 17 <= i < Count :: |NameAt(i)| > 0 && Lt !in NameAt(i) && Gt !in NameAt(i)
  {
  }

  /** Names are non-empty and hold neither '<' nor '>'. */
  lemma TableNamesPlain()
    ensures forall i | 0 <= i < |Table| :: |Table[i].name| > 0 && Lt !in Table[i].name && Gt !in Table[i].name
  {
    TableEntries();
    NamesPlainLow();
    NamesPlainHigh();
  }

  // The two HashMaps filled by `fillMaps`: each constant is put in declaration
  // order, so a later entry would overwrite an earlier one with the same key.

  function NameMap(t: seq<Entry>): map<JString, JChar>
  {
    if t == [] then map[]
    else NameMap(t[..|t| - 1])[t[|t| - 1].name := t[|t| - 1].character]
  }

  /** Keyed by the code unit's numeric value, as the boxed Character is. */
  function CharacterMap(t: seq<Entry>): map<int, JString>
  {
    if t == [] then map[]
    else CharacterMap(t[..|t| - 1])[t[|t| - 1].character as int := t[|t| - 1].name]
  }

  /** `fillMaps`: puts every constant into both maps, in declaration order. */
  method FillMaps() returns (nameToCharacter: map<JString, JChar>, characterToName: map<int, JString>)
    ensures nameToCharacter == NameMap(Table) && characterToName == CharacterMap(Table)
  {
    nameToCharacter, characterToName := map[], map[];
    var k := 0;
    while k < |Table|
      invariant 0 <= k <= |Table|
      invariant nameToCharacter == NameMap(Table[..k])
      invariant characterToName == CharacterMap(Table[..k])
    {
      assert Table[..k + 1][..k] == Table[..k];
      var field := Table[k];
      nameToCharacter := nameToCharacter[field.name := field.character];
      characterToName := characterToName[field.character as int := field.name];
      k := k + 1;
    }
    assert Table[..k] == Table;
  }

  /** With distinct names, the name map sends each entry's name to its value and holds nothing else. */
  lemma {:induction false} NameMapSpec(t: seq<Entry>, name: JString, c: JChar)
    requires DistinctNames(t)
    ensures name in NameMap(t) && NameMap(t)[name] == c <==> Entry(name, c) in t
    ensures name in NameMap(t) <==> exists e | e in t :: e.name == name
  {
    if t != [] {
      var init, last := t[..|t| - 1], t[|t| - 1];
      assert t == init + [last];
      NameMapSpec(init, name, c);
      assert NameMap(t) == NameMap(init)[last.name := last.character];
      if name == last.name {
        forall e | e in init ensures e.name != name {
          var i :| 0 <= i < |init| && init[i] == e;
          assert t[i] == e;
        }
        assert Entry(name, c) !in init;
      }
      assert Entry(name, c) in t <==> Entry(name, c) in init || Entry(name, c) == last;
    }
  }

  /** With distinct values, the character map sends each entry's value to its name and holds nothing else. */
  lemma {:induction false} CharacterMapSpec(t: seq<Entry>, c: JChar, name: JString)
    requires DistinctCharacters(t)
    ensures c as int in CharacterMap(t) && CharacterMap(t)[c as int] == name <==> Entry(name, c) in t
    ensures c as int in CharacterMap(t) <==> exists e | e in t :: e.character == c
  {
    if t != [] {
      var init, last := t[..|t| - 1], t[|t| - 1];
      assert t == init + [last];
      CharacterMapSpec(init, c, name);
      CodeInjective(c, last.character);
      var m, key := CharacterMap(init), last.character as int;
      assert CharacterMap(t) == m[key := last.name];
      if c == last.character {
        forall e | e in init ensures e.character != c {
          var i :| 0 <= i < |init| && init[i] == e;
          assert t[i] == e;
        }
        assert Entry(name, c) !in init;
      } else {
        assert c as int != key;
        assert Entry(name, c) != last;
      }
      assert Entry(name, c) in t <==> Entry(name, c) in init || Entry(name, c) == last;
    }
  }

  /** `nameToCharacter`: the value of the constant with that name; None where Java's map has no entry. */
  function NameToCharacter(name: JString): Option<JChar>
  {
    if name in NameMap(Table) then Some(NameMap(Table)[name]) else None
  }

  /** `characterToName`: the name of the constant with that value, or None (Java's null). */
  function CharacterToName(c: JChar): Option<JString>
  {
    if c as int in CharacterMap(Table) then Some(CharacterMap(Table)[c as int]) else None
  }

  /** A name is found exactly when it is declared, and then gives its constant's value. */
  lemma NameToCharacterSpec(name: JString, c: JChar)
    ensures NameToCharacter(name) == Some(c) <==> Entry(name, c) in Table
    ensures NameToCharacter(name).Some? <==> name in AllNames()
  {
    TableEntries();
    TableNamesDistinct();
    NameMapSpec(Table, name, c);
    if name in AllNames() {
      var i :| 0 <= i < Count && AllNames()[i] == name;
      assert Table[i] in Table;
    }
    if e :| e in Table && e.name == name {
      var i :| 0 <= i < Count && Table[i] == e;
      assert AllNames()[i] == name;
    }
  }

  /** A value is found exactly when some constant has it, and then gives that constant's name. */
  lemma CharacterToNameSpec(c: JChar, name: JString)
    ensures CharacterToName(c) == Some(name) <==> Entry(name, c) in Table
  {
    TableCharactersDistinct();
    CharacterMapSpec(Table, c, name);
  }

  /** The two lookups are inverse to each other on the table. */
  lemma LookupsInverse(name: JString, c: JChar)
    ensures NameToCharacter(name) == Some(c) <==> CharacterToName(c) == Some(name)
  {
    NameToCharacterSpec(name, c);
    CharacterToNameSpec(c, name);
  }

  /** Prefixes the text of a successful result; a failure passes through. */
  function Prepend(prefix: JString, r: Result<JString>): Result<JString>
  {
    if r.Ok? then Ok(prefix + r.value) else r
  }

  /**
   * What `parseString` returns. A '<' with a later '>' and the name between
   * them becomes the named character; any other character is copied. A name
   * that is not declared fails, as Java's unboxing of the null lookup does.
   */
  function Parse(s: JString): Result<JString>
    decreases |s|
  {
    if s == [] then Ok([])
    else if s[0] == Lt && IndexOf(s, [Gt], 1) != -1 then
      ParseNamed(s, IndexOf(s, [Gt], 1))
    else
      Prepend([s[0]], Parse(s[1..]))
  }

  /** The `<NAME>` case of Parse, where `end` is the index of the closing '>'. */
  function ParseNamed(s: JString, end: int): Result<JString>
    requires 1 <= end < |s|
    decreases |s|, 0
  {
    match NameToCharacter(s[1..end])
    case None => Err(NullReference)
    case Some(c) => Prepend([c], Parse(s[end + 1..]))
  }

  lemma PrependTwice(a: JString, b: JString, r: Result<JString>)
    ensures Prepend(a, Prepend(b, r)) == Prepend(a + b, r)
  {
    if r.Ok? {
      assert a + (b + r.value) == a + b + r.value;
    }
  }

  /** Parse of a suffix starting at a '<' whose closing '>' is at `end`. */
  lemma ParseSuffixNamed(s: JString, i: nat, end: int)
    requires i < |s| && s[i] == Lt && end == IndexOf(s, [Gt], i + 1) && end != -1
    ensures i < end < |s|
    ensures Parse(s[i..]) == ParseNamed(s[i..], end - i)
    ensures s[i..][1..end - i] == s[i + 1..end] && s[i..][end - i + 1..] == s[end + 1..]
  {
    IndexOfSuffix(s, [Gt], i, 1);
  }

  /** Parse of a suffix starting at a character that is copied. */
  lemma ParseSuffixCopied(s: JString, i: nat)
    requires i < |s| && !(s[i] == Lt && IndexOf(s, [Gt], i + 1) != -1)
    ensures Parse(s[i..]) == Prepend([s[i]], Parse(s[i + 1..]))
  {
    IndexOfSuffix(s, [Gt], i, 1);
    assert s[i..][1..] == s[i + 1..];
  }

  /** `parseString`: the index loop that jumps past each expanded name. */
  method ParseString(s: JString) returns (r: Result<JString>)
    ensures r == Parse(s)
  {
    var parsed: JString := [];
    var i := 0;
    assert s[i..] == s;
    if Parse(s).Ok? {
      assert parsed + Parse(s).value == Parse(s).value;
    }
    while i < |s|
      invariant 0 <= i <= |s|
      invariant Parse(s) == Prepend(parsed, Parse(s[i..]))
    {
      var character := s[i];
      var next := i + 1;
      var end := if character == Lt then IndexOf(s, [Gt], i + 1) else -1;
      if end != -1 {
        ParseSuffixNamed(s, i, end);
        var found := NameToCharacter(s[i + 1..end]);
        if found.None? {
          return Err(NullReference);
        }
        character := found.value;
        next := end + 1;
      } else {
        ParseSuffixCopied(s, i);
      }
      PrependTwice(parsed, [character], Parse(s[next..]));
      parsed := parsed + [character];
      i := next;
    }
    assert parsed + [] == parsed;
    return Ok(parsed);
  }

  /** The text `prettyReplaceString` writes for one character. */
  function Piece(c: JChar): JString
  {
    match CharacterToName(c)
    case Some(name) => [Lt] + name + [Gt]
    case None => [c]
  }

  /** What `prettyReplaceString` returns: every named character written as `<NAME>`. */
  function Pretty(s: JString): JString
  {
    if s == [] then [] else Piece(s[0]) + Pretty(s[1..])
  }

  lemma {:induction false} PrettyAppend(a: JString, b: JString)
    ensures Pretty(a + b) == Pretty(a) + Pretty(b)
  {
    if a == [] {
      assert a + b == b;
    } else {
      assert (a + b)[1..] == a[1..] + b;
      PrettyAppend(a[1..], b);
    }
  }

  /** `prettyReplaceString`: the loop appending one piece per character. */
  method PrettyReplaceString(s: JString) returns (r: JString)
    ensures r == Pretty(s)
  {
    r := [];
    var i := 0;
    while i < |s|
      invariant 0 <= i <= |s|
      invariant r == Pretty(s[..i])
    {
      assert s[..i + 1] == s[..i] + [s[i]];
      PrettyAppend(s[..i], [s[i]]);
      assert Pretty([s[i]]) == Piece(s[i]) + Pretty([]);
      var name := CharacterToName(s[i]);
      if name.Some? {
        r := r + ([Lt] + name.value + [Gt]);
      } else {
        r := r + [s[i]];
      }
      i := i + 1;
    }
    assert s[..i] == s;
  }

  /** Pretty-printing never shortens a string. */
  lemma {:induction false} PrettyNotShorter(s: JString)
    ensures |Pretty(s)| >= |s|
  {
    if s != [] {
      PrettyNotShorter(s[1..]);
    }
  }

  /** A string without '<' is returned unchanged. */
  lemma {:induction false} ParseWithoutLt(s: JString)
    requires Lt !in s
    ensures Parse(s) == Ok(s)
  {
    if s != [] {
      assert s[0] != Lt;
      ParseWithoutLt(s[1..]);
      assert [s[0]] + s[1..] == s;
    }
  }

  /** The first '>' after a '<' that opens a name without '>' is the one closing it. */
  lemma ClosingIndex(name: JString, rest: JString)
    requires Gt !in name
    ensures IndexOf([Lt] + name + [Gt] + rest, [Gt], 1) == |name| + 1
  {
    var s := [Lt] + name + [Gt] + rest;
    assert OccursAt(s, [Gt], |name| + 1);
    forall k | 1 <= k < |name| + 1 ensures !OccursAt(s, [Gt], k) {
      assert s[k] == name[k - 1];
    }
  }

  /** `<NAME>` for a declared name expands to its character. */
  lemma ParseName(name: JString, c: JChar, rest: JString)
    requires Entry(name, c) in Table
    ensures Parse([Lt] + name + [Gt] + rest) == Prepend([c], Parse(rest))
  {
    var s := [Lt] + name + [Gt] + rest;
    DeclaredNamePlain(name, c);
    ClosingIndex(name, rest);
    assert Parse(s) == ParseNamed(s, |name| + 1);
    assert s[1..|name| + 1] == name;
    assert s[|name| + 2..] == rest;
    NameToCharacterSpec(name, c);
  }

  /** A declared name contains no '>'. */
  lemma DeclaredNamePlain(name: JString, c: JChar)
    requires Entry(name, c) in Table
    ensures Gt !in name
  {
    TableNamesPlain();
    var i :| 0 <= i < |Table| && Table[i] == Entry(name, c);
  }

  /** `<NAME>` for an undeclared name without '>' makes the whole parse fail. */
  lemma ParseUnknownName(name: JString, rest: JString)
    requires Gt !in name && name !in AllNames()
    ensures Parse([Lt] + name + [Gt] + rest) == Err(NullReference)
  {
    var s := [Lt] + name + [Gt] + rest;
    ClosingIndex(name, rest);
    NameToCharacterSpec(name, 0);
    assert s[1..|name| + 1] == name;
  }

  /** `<CR><LF>` expands to carriage return and line feed. */
  lemma ParseCrLf()
    ensures Parse([Lt, 0x43, 0x52, Gt, Lt, 0x4C, 0x46, Gt]) == Ok([0x0D, 0x0A])
  {
    TableEntries();
    assert Table[13] == Entry(NameAt(13), 0x0D) && Table[10] == Entry(NameAt(10), 0x0A);
    var cr: JString, lf: JString := [0x0D], [0x0A];
    var lfText := [Lt] + NameAt(10) + [Gt];
    ParseName(NameAt(10), 0x0A, []);
    assert lfText + [] == lfText && lf + [] == lf;
    ParseName(NameAt(13), 0x0D, lfText);
    assert [Lt, 0x43, 0x52, Gt, Lt, 0x4C, 0x46, Gt] == [Lt] + NameAt(13) + [Gt] + lfText;
    assert cr + lf == [0x0D, 0x0A];
  }

  /** Expanding a pretty-printed string gives it back, if it had no '<'. */
  lemma {:induction false} ParsePretty(s: JString)
    requires Lt !in s
    ensures Parse(Pretty(s)) == Ok(s)
  {
    if s != [] {
      var c := s[0];
      assert [c] + s[1..] == s;
      ParsePretty(s[1..]);
      assert Pretty(s) == Piece(c) + Pretty(s[1..]);
      match CharacterToName(c)
      case Some(name) =>
        CharacterToNameSpec(c, name);
        assert Piece(c) == [Lt] + name + [Gt];
        ParseName(name, c, Pretty(s[1..]));
        assert Parse(Pretty(s)) == Prepend([c], Ok(s[1..]));
      case None =>
        assert Pretty(s) == [c] + Pretty(s[1..]);
        assert Pretty(s)[1..] == Pretty(s[1..]);
    }
  }
}
