# libInterface message codec, modelled in Dafny

libInterface turns Java objects into wire messages and back. The shape of a
message is a template attached to the record type. The template language has
these parts:

- fields `{name}` and `{N:name}`;
- optional parts `[...]`;
- repeated parts `(body:delimiter)`;
- checksum blocks `~body:ref~` with checksum placeholders `!ref!`;
- named control characters `<STX>`;
- literal text, in which `\` escapes the next character.

A template compiles into a tree of parser nodes. The same tree serializes a
record into a message and deserializes a message into a record.

This project models that codec and proves properties of the model:

- `java_text.dfy` (`JavaText`): Java strings as sequences of 16-bit code
  units, with `indexOf`, `lastIndexOf` and `String.join`.
- `failures.dfy` (`Failures`): exceptions as values. `Parsing` is a
  ParsingException, which an optional part absorbs and the candidate loop
  skips. `Runtime` is a ParserRuntimeException, which nothing absorbs. The
  unchecked Java exceptions are kept apart.
- `ecc_service.dfy` (`EccService`): the checksum fold and the default XOR
  checksum.
- `message_characters.dfy` (`MessageCharacters`): covers
  - the table of control-character names;
  - the two lookups;
  - `parseString` and `prettyReplaceString`.
- `message_parser.dfy` (`MessageParser`): the template grammar as
  ordered-choice recursive descent, plus a printer whose output parses back.
- `binding.dfy` (`Binding`): covers
  - reading and writing a record field (a record is a map from field names
    to values);
  - callbacks;
  - representation tables;
  - fixed-length padding;
  - the list element an array reads or writes.
- `node_tree.dfy` (`NodeTree`): the compiled tree. Nodes are addressed by
  path. The per-node mutable fields (content, length, failure flag, array
  index) are kept in slots. The module also has the tree queries: position,
  content, length, following sibling, end of a window, the search for nodes
  of a class, and reset.
- `walk.dfy` (`Walk`): what each node kind does when it serializes and
  deserializes, as functions that return the outcome together with the new
  node state and the record.
- `tree_walker.dfy` (`TreeWalker`): the class `ParserTree`. Its fields are
  the node state and the record. Its methods are the Java loops, and each is
  proved equal to the function that specifies it.
- `service.dfy` (`Service`): `serialize`, and the `deserialize` loop that
  tries candidate record types in order.
- `sample_messages.dfy` (`SampleMessages`): the message types of the tests
  walked end to end: a fixed-length field `{5:setting}`, the template
  `[{beginning}-]{ending}`, and `CallbackMessage` (`call-{back}-message`)
  with its type callback and field callback.

All paths below are relative to the repository root.

## Model

| member | source | states |
|---|---|---|
| JavaText.IndexOf | src/main/java/de/iisys/libinterface/parser/node/ParserNode.java:298-305 | `indexOf` returns an occurrence at or after the start index with none before it from there, or -1 exactly when there is none from there on |
| JavaText.LastIndexOf | src/main/java/de/iisys/libinterface/parser/node/ArrayNode.java:214-216 | `lastIndexOf` returns an occurrence with no later one, or -1 |
| EccService.Apply | src/main/java/de/iisys/libinterface/service/ECCService.java:23-28 | the loop returns the left fold of the function over the characters, starting from the seed |
| EccService.XorOfEmpty | src/main/java/de/iisys/libinterface/service/ECCService.java:36-38 | the checksum of the empty string is NUL (the seed is `Character.MIN_VALUE`) |
| EccService.XorSnoc | src/main/java/de/iisys/libinterface/service/ECCService.java:36-38 | appending a character XORs it into the 16-bit checksum |
| EccService.XorAppend | src/main/java/de/iisys/libinterface/service/ECCService.java:36-38 | the checksum of a concatenation is the XOR of the two checksums |
| EccService.XorReplace | src/main/java/de/iisys/libinterface/service/ECCService.java:36-38 | replacing character `a` by `b` changes the checksum by `a ^ b` |
| EccService.XorDetectsSingleChange | src/main/java/de/iisys/libinterface/service/ECCService.java:36-38 | every single-character change alters the checksum |
| EccService.XorOfTestBlocks | src/test/java/de/iisys/libinterface/parser/MessageParserTest.java:203-220 | the checksum of "coming-*eccTest1" followed by ETX is 'g'; with 2 it is 'd', with 3 it is 'e' |
| MessageCharacters.AllNames | src/main/java/de/iisys/libinterface/parser/service/MessageCharacters.java:344-362 | `allNames` lists the 34 constant names in declaration order |
| MessageCharacters.TableValues | src/main/java/de/iisys/libinterface/parser/service/MessageCharacters.java:20-185 | NUL..US are 0x00..0x1F in order, SPACE is 0x20 and DEL is 0x7F |
| MessageCharacters.TableNamesDistinct | src/main/java/de/iisys/libinterface/parser/service/MessageCharacters.java:20-185 | the names are pairwise distinct |
| MessageCharacters.TableCharactersDistinct | src/main/java/de/iisys/libinterface/parser/service/MessageCharacters.java:20-185 | the values are pairwise distinct |
| MessageCharacters.NamesPrefixFree | src/main/java/de/iisys/libinterface/parser/service/MessageCharacters.java:20-185 | no name is a prefix of a name declared after it, so the grammar's first-match choice finds every name (SOH before SO) |
| MessageCharacters.TableNamesPlain | src/main/java/de/iisys/libinterface/parser/service/MessageCharacters.java:20-185 | every name is non-empty and contains neither '<' nor '>' |
| MessageCharacters.FillMaps | src/main/java/de/iisys/libinterface/parser/service/MessageCharacters.java:224-238 | the loop builds the name map and the character map of the whole table, as `NameMapSpec` and `CharacterMapSpec` describe them |
| MessageCharacters.NameMapSpec | src/main/java/de/iisys/libinterface/parser/service/MessageCharacters.java:224-238 | when names are distinct, the name map sends a name to a value iff that entry is in the table |
| MessageCharacters.CharacterMapSpec | src/main/java/de/iisys/libinterface/parser/service/MessageCharacters.java:224-238 | when values are distinct, the character map sends a value to a name iff that entry is in the table |
| MessageCharacters.NameToCharacterSpec | src/main/java/de/iisys/libinterface/parser/service/MessageCharacters.java:256-258 | `nameToCharacter(n)` is `c` iff the table declares (n, c); it finds something iff `n` is in `allNames` |
| MessageCharacters.CharacterToNameSpec | src/main/java/de/iisys/libinterface/parser/service/MessageCharacters.java:265-267 | `characterToName(c)` is `n` iff the table declares (n, c) |
| MessageCharacters.LookupsInverse | src/main/java/de/iisys/libinterface/parser/service/MessageCharacters.java:256-267 | the two lookups are inverse to each other |
| MessageCharacters.ParseString | src/main/java/de/iisys/libinterface/parser/service/MessageCharacters.java:276-292 | the index loop, which jumps past each `<NAME>`, computes the specification `Parse`, failures included |
| MessageCharacters.ParseWithoutLt | src/main/java/de/iisys/libinterface/parser/service/MessageCharacters.java:276-292 | a string without '<' is returned unchanged |
| MessageCharacters.ParseName | src/main/java/de/iisys/libinterface/parser/service/MessageCharacters.java:276-292 | `<NAME>` for a declared name becomes its character, and the rest is parsed on |
| MessageCharacters.ParseUnknownName | src/main/java/de/iisys/libinterface/parser/service/MessageCharacters.java:276-292 | `<NAME>` for an undeclared name fails the whole call (the null lookup is unboxed) |
| MessageCharacters.PrettyReplaceString | src/main/java/de/iisys/libinterface/parser/service/MessageCharacters.java:300-313 | the loop computes `Pretty`: every named character written as `<NAME>`, every other character copied |
| MessageCharacters.PrettyAppend | src/main/java/de/iisys/libinterface/parser/service/MessageCharacters.java:300-313 | pretty-printing distributes over concatenation |
| MessageCharacters.PrettyNotShorter | src/main/java/de/iisys/libinterface/parser/service/MessageCharacters.java:300-313 | the output is never shorter than the input |
| MessageCharacters.ParsePretty | src/main/java/de/iisys/libinterface/parser/service/MessageCharacters.java:276-313 | `parseString(prettyReplaceString(s)) == s` for every `s` without '<' |
| MessageCharacters.ParseCrLf | src/main/java/de/iisys/libinterface/parser/service/MessageCharacters.java:276-292 | `<CR><LF>`, the delimiter of the tests' arrays, expands to carriage return and line feed |
| MessageParser.NonControlEnd | src/main/java/de/iisys/libinterface/parser/MessageParser.java:280-302 | a non-control character (or an escape pair) matches one or two characters, or nothing |
| MessageParser.RunEnd | src/main/java/de/iisys/libinterface/parser/MessageParser.java:255-264 | a run of non-control characters stays inside the template |
| MessageParser.DigitsEnd | src/main/java/de/iisys/libinterface/parser/MessageParser.java:202-210 | a run of digits stays inside the template |
| MessageParser.DigitValue | src/main/java/de/iisys/libinterface/parser/MessageParser.java:202-210 | a digit's value is below 10 |
| MessageParser.IdentifierEnd | src/main/java/de/iisys/libinterface/parser/MessageParser.java:216-227 | a run of identifier parts stays inside the template |
| MessageParser.FirstName | src/main/java/de/iisys/libinterface/parser/MessageParser.java:233-240 | `FirstOf(allNamesArray())` picks a declared name that the template continues with, and no name listed before it matches |
| MessageParser.MessageAt | src/main/java/de/iisys/libinterface/parser/MessageParser.java:41-50 | a message is one or more parts and consumes at least one character, so an empty template or an empty body is rejected |
| MessageParser.PartsFrom | src/main/java/de/iisys/libinterface/parser/MessageParser.java:41-50 | further parts only extend those already matched |
| MessageParser.PartAt | src/main/java/de/iisys/libinterface/parser/MessageParser.java:66-76 | a part consumes at least one character |
| MessageParser.EccBlockAt | src/main/java/de/iisys/libinterface/parser/MessageParser.java:82-101 | an ECC block consumes at least one character |
| MessageParser.EccCalcAt | src/main/java/de/iisys/libinterface/parser/MessageParser.java:107-123 | an ECC placeholder consumes at least one character |
| MessageParser.OptionalAt | src/main/java/de/iisys/libinterface/parser/MessageParser.java:129-145 | an optional consumes at least one character |
| MessageParser.ArrayAt | src/main/java/de/iisys/libinterface/parser/MessageParser.java:151-170 | an array consumes at least one character |
| MessageParser.FieldAt | src/main/java/de/iisys/libinterface/parser/MessageParser.java:176-195 | a field consumes at least one character |
| MessageParser.SymbolAt | src/main/java/de/iisys/libinterface/parser/MessageParser.java:233-249 | a named character consumes at least one character |
| MessageParser.LiteralAt | src/main/java/de/iisys/libinterface/parser/MessageParser.java:255-273 | a literal consumes at least one character |
| MessageParser.NoPartAtEnd | src/main/java/de/iisys/libinterface/parser/MessageParser.java:41-50 | no part starts at the end of input, at `]` or at `:`, so a message stops there |
| MessageParser.PartsFromStep | src/main/java/de/iisys/libinterface/parser/MessageParser.java:41-50 | a matched part is appended and the message goes on after it |
| MessageParser.PartsFromStop | src/main/java/de/iisys/libinterface/parser/MessageParser.java:41-50 | where no part starts, the message ends with the parts matched so far |
| MessageParser.PartAtTilde | src/main/java/de/iisys/libinterface/parser/MessageParser.java:66-76 | at `~` the part is whatever the ECC-block rule gives |
| MessageParser.PartAtBang | src/main/java/de/iisys/libinterface/parser/MessageParser.java:66-76 | at `!` the part is whatever the placeholder rule gives |
| MessageParser.PartAtBracket | src/main/java/de/iisys/libinterface/parser/MessageParser.java:66-76 | at `[` the part is whatever the optional rule gives |
| MessageParser.PartAtParen | src/main/java/de/iisys/libinterface/parser/MessageParser.java:66-76 | at `(` the part is whatever the array rule gives |
| MessageParser.PartAtBrace | src/main/java/de/iisys/libinterface/parser/MessageParser.java:66-76 | at `{` the part is whatever the field rule gives |
| MessageParser.PartAtLt | src/main/java/de/iisys/libinterface/parser/MessageParser.java:66-76 | at `<` the part is whatever the named-character rule gives |
| MessageParser.PartAtText | src/main/java/de/iisys/libinterface/parser/MessageParser.java:66-76 | at `\` or a non-control character the part is a literal |
| MessageParser.SymbolAtWhen | src/main/java/de/iisys/libinterface/parser/MessageParser.java:233-249 | `<` + a declared name + `>` gives that symbol: no name declared before it is a prefix of it |
| MessageParser.FieldAtSized | src/main/java/de/iisys/libinterface/parser/MessageParser.java:176-210 | `{N:name}` with N up to `Integer.MAX_VALUE` gives a field of length N |
| MessageParser.FieldAtUnsized | src/main/java/de/iisys/libinterface/parser/MessageParser.java:176-227 | `{name}` gives a field of length -1 |
| MessageParser.OptionalAtWhen | src/main/java/de/iisys/libinterface/parser/MessageParser.java:129-145 | `[` + message + `]` gives an optional with that message's parts as children, in order |
| MessageParser.ArrayAtWhen | src/main/java/de/iisys/libinterface/parser/MessageParser.java:151-170 | `(` + message + `:` + raw text + `)` gives an array whose delimiter is the raw text, which `parseString` leaves as it is when it holds no `<` |
| MessageParser.ArrayAtParsed | src/main/java/de/iisys/libinterface/parser/MessageParser.java:151-170 | whatever its raw text, an array's delimiter is that text with every `<NAME>` expanded by `parseString` |
| MessageParser.ArrayAtAborts | src/main/java/de/iisys/libinterface/parser/MessageParser.java:151-170 | a delimiter naming an undeclared character aborts the whole parse |
| MessageParser.ArrayAtCrLf | src/main/java/de/iisys/libinterface/parser/MessageParser.java:151-170 | an array written with `:<CR><LF>)` is delimited by carriage return and line feed |
| MessageParser.EccBlockAtWhen | src/main/java/de/iisys/libinterface/parser/MessageParser.java:82-101 | `~` + message + `:` + raw text + `~` gives a block whose reference is the raw text, escapes not stripped |
| MessageParser.EccCalcAtWhen | src/main/java/de/iisys/libinterface/parser/MessageParser.java:107-123 | `!` + raw text + `!` gives a placeholder with that reference |
| MessageParser.RunOverRaw | src/main/java/de/iisys/libinterface/parser/MessageParser.java:280-288 | raw text free of the stop character and `\`, followed by the stop character, is read as one run |
| MessageParser.RunOverEscaped | src/main/java/de/iisys/libinterface/parser/MessageParser.java:255-302 | an escaped literal is read as one run, and only the escaped characters are kept |
| MessageParser.DecimalOfText | src/main/java/de/iisys/libinterface/parser/MessageParser.java:202-210 | the decimal digits of `n` read back as `n` |
| MessageParser.DigitsOver | src/main/java/de/iisys/libinterface/parser/MessageParser.java:202-210 | digits followed by `:` form one run of digits |
| MessageParser.IdentifierOver | src/main/java/de/iisys/libinterface/parser/MessageParser.java:216-227 | identifier parts followed by `}` form one run |
| MessageParser.FirstNameOf | src/main/java/de/iisys/libinterface/parser/MessageParser.java:233-240 | a declared name followed by `>` is found as itself |
| MessageParser.PartOfPrint | src/main/java/de/iisys/libinterface/parser/MessageParser.java:66-76 | a printed canonical node parses back to itself |
| MessageParser.LiteralOfPrint | src/main/java/de/iisys/libinterface/parser/MessageParser.java:255-273 | a printed literal parses back to itself |
| MessageParser.SymbolOfPrint | src/main/java/de/iisys/libinterface/parser/MessageParser.java:233-249 | a printed named character parses back to itself |
| MessageParser.FieldOfPrint | src/main/java/de/iisys/libinterface/parser/MessageParser.java:176-227 | a printed field, with or without a length, parses back to itself |
| MessageParser.SizedFieldOfPrint | src/main/java/de/iisys/libinterface/parser/MessageParser.java:176-210 | a printed field with a length parses back to itself |
| MessageParser.OptionalOfPrint | src/main/java/de/iisys/libinterface/parser/MessageParser.java:129-145 | a printed optional parses back to itself |
| MessageParser.ArrayOfPrint | src/main/java/de/iisys/libinterface/parser/MessageParser.java:151-170 | a printed array parses back to itself |
| MessageParser.EccBlockOfPrint | src/main/java/de/iisys/libinterface/parser/MessageParser.java:82-101 | a printed ECC block parses back to itself |
| MessageParser.EccCalcOfPrint | src/main/java/de/iisys/libinterface/parser/MessageParser.java:107-123 | a printed placeholder parses back to itself |
| MessageParser.BodyOfPrint | src/main/java/de/iisys/libinterface/parser/MessageParser.java:41-50 | a printed body followed by `]` or `:` is read back up to that character |
| MessageParser.PartsOfPrint | src/main/java/de/iisys/libinterface/parser/MessageParser.java:41-50 | printed parts parse back to the same parts |
| MessageParser.ParsePrint | src/main/java/de/iisys/libinterface/parser/MessageParser.java:26-31 | every parse tree the grammar can produce prints to a template that `Parse` maps back to it |
| MessageParser.Parse | src/main/java/de/iisys/libinterface/parser/MessageParser.java:26-31 | a template is one message followed by the end of input. Specified by `MessageAt`, `PartsFromStep`, `PartsFromStop` and `NoPartAtEnd`; with `Print` its inverse, by `ParsePrint` |
| MessageParser.Print | src/main/java/de/iisys/libinterface/parser/MessageParser.java:41-273 | writes each part in the syntax its grammar rule reads; `ParsePrint` and the `...OfPrint` lemmas state that `Parse` reads it back |
| Binding.Invoke | src/main/java/de/iisys/libinterface/parser/node/ReflectionFieldNode.java:264-282 | no callback counts as success; a callback answering a Boolean gives that Boolean as the verdict, any other answer counts as success, and the record it leaves is kept; a call that throws, and only that, becomes ParserRuntimeException "could not call method", which the model tags with the field's name rather than the method's |
| Binding.RunHook | src/main/java/de/iisys/libinterface/parser/node/ReflectionFieldNode.java:101-104 | the run succeeds iff the callback was called and answered `true` (no callback counts as `true`); the callback's changes to the record are kept |
| Binding.ConstantNamed | src/main/java/de/iisys/libinterface/parser/node/ReflectionFieldNode.java:109-119 | finds the enumeration constant with the value's name, if there is one |
| Binding.LastMarked | src/main/java/de/iisys/libinterface/parser/node/ReflectionFieldNode.java:225-236 | finds a constant with the given annotation, if there is one |
| Binding.ResolveRepresentation | src/main/java/de/iisys/libinterface/parser/node/ReflectionFieldNode.java:220-243 | the loop over the annotated constants computes `Unrepresent`: the text's constant, else the default, else the text |
| Binding.UnrepresentFinds | src/main/java/de/iisys/libinterface/parser/node/ReflectionFieldNode.java:220-243 | decoding finds a constant annotated with the text when one exists; without such a constant and without a default, the text is kept |
| Binding.RepresentRoundTrip | src/main/java/de/iisys/libinterface/parser/node/ReflectionFieldNode.java:109-119 | encoding a constant to its representation and decoding it gives the constant back, when its text is its own |
| Binding.Represent | src/main/java/de/iisys/libinterface/parser/node/ReflectionFieldNode.java:109-119 | an enumeration constant becomes the text of its `Representation`; specified by `ConstantNamed` and, with `Unrepresent`, by `RepresentRoundTrip` |
| Binding.Unrepresent | src/main/java/de/iisys/libinterface/parser/node/ReflectionFieldNode.java:220-243 | a text becomes the constant annotated with it, else the default, else stays itself; specified by `UnrepresentFinds` and computed by `ResolveRepresentation` |
| Binding.TextOf | src/main/java/de/iisys/libinterface/parser/node/ReflectionFieldNode.java:146-151 | a value's `toString()`, none for null; `GetPlainField` and `SetThenGet` state that a written text reads back |
| Binding.CurrentItem | src/main/java/de/iisys/libinterface/parser/node/ArrayNode.java:85-96 | `getCurrentArrayData` gives the list element at the index; an out-of-range index is a ParsingException, a non-list value reads as null, and a null value fails |
| Binding.Pad | src/main/java/de/iisys/libinterface/parser/node/ReflectionFieldNode.java:156-163 | fixed-length output has exactly N characters: the text right-padded with spaces, or cut |
| Binding.PadIdempotent | src/main/java/de/iisys/libinterface/parser/node/ReflectionFieldNode.java:156-163 | text that already has the length is kept, and padding twice equals padding once |
| Binding.GetField | src/main/java/de/iisys/libinterface/parser/node/ReflectionFieldNode.java:141-165 | a missing field is a ParserRuntimeException; a fixed-length field's text has exactly the declared length |
| Binding.GetHookedField | src/main/java/de/iisys/libinterface/parser/node/ReflectionFieldNode.java:141-165 | reading a field with a callback runs the callback first: false is a ParserRuntimeException, a throwing call is "could not call method", otherwise the field's text is read from the record the callback left |
| Binding.GetPlainField | src/main/java/de/iisys/libinterface/parser/node/ReflectionFieldNode.java:141-165 | a field with no callback, representation or array reads back its own text, and the record is unchanged |
| Binding.StoreItem | src/main/java/de/iisys/libinterface/parser/node/ArrayNode.java:109-142 | storing into a `List` field at a non-negative index gives a list; a field of another type keeps its value |
| Binding.StoreItemAppends | src/main/java/de/iisys/libinterface/parser/node/ArrayNode.java:125-136 | a null list is created holding the item; at the end index the item is appended |
| Binding.SetField | src/main/java/de/iisys/libinterface/parser/node/ReflectionFieldNode.java:218-304 | writing a missing field is a ParserRuntimeException and leaves the record alone; so is writing, outside an array, a text that matches none of a represented field's declared constants when none is the default |
| Binding.SetPlainField | src/main/java/de/iisys/libinterface/parser/node/ReflectionFieldNode.java:218-256 | a plain field is overwritten with the text and nothing else changes |
| Binding.SetHookedField | src/main/java/de/iisys/libinterface/parser/node/ReflectionFieldNode.java:245-282 | writing a field with a callback stores the text, then runs the callback on the written record; its answer false is a ParserRuntimeException, a throwing call is "could not call method", true or another answer succeeds; the record the callback left is kept |
| Binding.SetThenGet | src/main/java/de/iisys/libinterface/parser/node/ReflectionFieldNode.java:141-165 | writing a plain field's text and reading it back gives the text |
| Binding.StoreThenCurrent | src/main/java/de/iisys/libinterface/parser/node/ArrayNode.java:85-142 | storing a list element at an index and reading it back gives the text; inside the list it overwrites that element, at or past the end it is appended; the other elements are unchanged |
| Binding.SetRepresentedField | src/main/java/de/iisys/libinterface/parser/node/ReflectionFieldNode.java:218-304 | outside an array, a represented field receives the constant its text stands for, or the default constant (`Unrepresent`), and nothing else changes; when the type declares constants and none carries the text or is the default, the raw text cannot be stored in the enum-typed field: the write is a ParserRuntimeException "could not set data" and the record is left alone |
| Binding.SetThenGetRepresented | src/main/java/de/iisys/libinterface/parser/node/ReflectionFieldNode.java:109-256 | writing a constant's representation text and reading the field back gives that text again, when no other constant carries it |
| Binding.SetThenGetItem | src/main/java/de/iisys/libinterface/parser/node/ArrayNode.java:85-142 | writing a `List` field through an array index and reading that index back gives the text; the other indices read as before |
| NodeTree.FindParent | src/main/java/de/iisys/libinterface/parser/node/ParserNode.java:73-84 | `findParent` returns the node itself or its nearest ancestor of the class, or none when no node on the path is of the class |
| NodeTree.ContentStopsAtUndefined | src/main/java/de/iisys/libinterface/parser/node/ParserNode.java:329-338 | a composite's content is its children's contents concatenated up to, and excluding, the first child that is not defined |
| NodeTree.Length | src/main/java/de/iisys/libinterface/parser/node/ParserNode.java:345-351 | `getLength` can only fail by dereferencing a null content |
| NodeTree.LengthsBetween | src/main/java/de/iisys/libinterface/parser/node/ParserNode.java:345-351 | summing children's lengths can only fail by dereferencing a null content |
| NodeTree.LengthsSnoc | src/main/java/de/iisys/libinterface/parser/node/ParserNode.java:345-351 | one more child adds its length to the sum, and the sum fails iff the shorter sum or that length fails |
| NodeTree.LengthsFailFrom | src/main/java/de/iisys/libinterface/parser/node/ParserNode.java:345-351 | once a prefix of the sum fails, every longer prefix fails |
| NodeTree.PositionStep | src/main/java/de/iisys/libinterface/parser/node/ParserNode.java:165-171 | each node starts where its left sibling ends |
| NodeTree.PositionFirst | src/main/java/de/iisys/libinterface/parser/node/ParserNode.java:165-171 | the first child starts at 0 in its parent's window |
| NodeTree.FirstFrom | src/main/java/de/iisys/libinterface/parser/node/ParserNode.java:186-195 | `getFollowingNode(skip)` is the first right sibling not of the skipped class; every sibling before it is skipped; none means all are skipped |
| NodeTree.AnchorEndSpec | src/main/java/de/iisys/libinterface/parser/node/ParserNode.java:298-305 | the end stays between the position and the end of the message. With a non-empty anchor, the anchor does not occur before the end, and when it occurs at all it occurs at the end. An empty anchor ends at the position |
| NodeTree.UnanchoredEnd | src/main/java/de/iisys/libinterface/parser/node/ParserNode.java:306-311 | without an anchor, a leaf runs to the end of the message; a composite ends just after the first occurrence of its last child's content, and fails when that content is null |
| NodeTree.OptionalEnd | src/main/java/de/iisys/libinterface/parser/node/OptionalNode.java:77-86 | with no following content, an optional runs to the end of the message. It ends at the first occurrence of its right sibling's content. When that content does not occur, it ends at the first following non-optional's content |
| NodeTree.Extract | src/main/java/de/iisys/libinterface/parser/node/ParserNode.java:319-322 | the window is the slice of the message that starts at the node's position; bounds that `substring` rejects raise IndexOutOfBounds |
| NodeTree.FilteredSound | src/main/java/de/iisys/libinterface/parser/node/ParserNode.java:92-118 | every node the search returns lies below the start node, is the node at its path, and belongs to the class |
| NodeTree.FilteredFindsChild | src/main/java/de/iisys/libinterface/parser/node/ParserNode.java:107-118 | every child of the class is found |
| NodeTree.ResetFrame | src/main/java/de/iisys/libinterface/parser/node/ParserNode.java:37-48 | `reset` gives the node its reset slot and changes no node outside its subtree |
| NodeTree.ResetChildrenFrame | src/main/java/de/iisys/libinterface/parser/node/ParserNode.java:44-48 | `resetChildren` touches only nodes below the parent |
| NodeTree.FailedOptional | src/main/java/de/iisys/libinterface/parser/node/OptionalNode.java:37-59 | a failed optional reads as "", has length 0, and is not defined, so its parent's content stops there |
| NodeTree.ResetDescendants | src/main/java/de/iisys/libinterface/parser/node/ParserNode.java:37-48 | after `reset`, every node below holds its own reset slot of what it held before |
| NodeTree.Position | src/main/java/de/iisys/libinterface/parser/node/ParserNode.java:165-171 | `getPosition`: the sum of the left siblings' lengths; stated by `PositionFirst` and `PositionStep` |
| NodeTree.Content | src/main/java/de/iisys/libinterface/parser/node/ParserNode.java:329-338 | `getContent`: a leaf's own text, a composite's children joined; stated by `ContentStopsAtUndefined` and `FailedOptional` |
| NodeTree.GetEnd | src/main/java/de/iisys/libinterface/parser/node/ParserNode.java:275-311 | `getEnd(message, position)` anchored on the following content; stated by `AnchorEndSpec`, `UnanchoredEnd` and `OptionalEnd` |
| NodeTree.AnchorEnd | src/main/java/de/iisys/libinterface/parser/node/ParserNode.java:298-305 | the first occurrence of the anchor from the position, else the position; stated by `AnchorEndSpec` |
| NodeTree.Reset | src/main/java/de/iisys/libinterface/parser/node/ParserNode.java:37-48 | `reset` and its overrides; stated by `ResetFrame`, `ResetChildrenFrame` and `ResetDescendants` |
| NodeTree.Filtered | src/main/java/de/iisys/libinterface/parser/node/ParserNode.java:92-118 | the pre-order search for nodes of a class; stated by `FilteredSound` and `FilteredFindsChild` |
| NodeTree.Initial | src/main/java/de/iisys/libinterface/parser/node/ParserNode.java:24-32 | the node state of a newly built tree: each composite reset by its constructor; stated by `ParserTree.constructor` and, for the test templates, by `SampleMessages` |
| Walk.Wrap | src/main/java/de/iisys/libinterface/parser/node/ContentNode.java:62-64 | an IndexOutOfBounds is turned into a ParsingException; every other failure passes unchanged |
| Walk.FirstBlock | src/main/java/de/iisys/libinterface/parser/node/ECCCalculationNode.java:94-103 | the first block in the list with the reference, or none when no block has it |
| Walk.FindBlockSound | src/main/java/de/iisys/libinterface/parser/node/ECCCalculationNode.java:94-103 | the block found is an ECC block with that reference; none found means no block in the tree has it |
| Walk.ListsSize | src/main/java/de/iisys/libinterface/parser/node/ArrayNode.java:166-192 | the common size is never below -1 |
| Walk.ListsSizeCommon | src/main/java/de/iisys/libinterface/parser/node/ArrayNode.java:166-192 | a non-negative size is the length of every counted list field, and it equals the size found so far when there was one |
| Walk.ListsSizeNoneCounted | src/main/java/de/iisys/libinterface/parser/node/ArrayNode.java:166-192 | with no counted field the size is what it was: from the start, -1 |
| Walk.ListsSizeAgreed | src/main/java/de/iisys/libinterface/parser/node/ArrayNode.java:166-192 | when every counted field is a list of length n, and one is counted, the size is n |
| Walk.ListsSizeDiffers | src/main/java/de/iisys/libinterface/parser/node/ArrayNode.java:166-192 | a size of -1 means that two counted lists differ in length, or one differs from the size so far, or nothing is counted |
| Walk.Trim | src/main/java/de/iisys/libinterface/parser/node/ArrayNode.java:214-216 | one trailing delimiter is dropped when there is one; otherwise the buffer is kept |
| Walk.TrimAsWrittenFailsOnEmpty | src/main/java/de/iisys/libinterface/parser/node/ArrayNode.java:214-216 | as written, an empty buffer with a one-character delimiter throws; the intended trim gives "" |
| Walk.TrimAsWrittenAgrees | src/main/java/de/iisys/libinterface/parser/node/ArrayNode.java:214-216 | whenever the buffer is at least as long as the delimiter, the trim as written equals the intended trim |
| Walk.Tokens | src/main/java/de/iisys/libinterface/parser/node/ArrayNode.java:229-243 | `StringTokenizer` never yields an empty token |
| Walk.TokensOfJoin | src/main/java/de/iisys/libinterface/parser/node/ArrayNode.java:229-243 | tokenising non-empty, delimiter-free renderings joined by the delimiter gives back the renderings |
| Walk.TokensSkipDelimiters | src/main/java/de/iisys/libinterface/parser/node/ArrayNode.java:229-243 | leading delimiter characters produce no tokens |
| Walk.SerializeChildrenAppends | src/main/java/de/iisys/libinterface/parser/node/ParserNode.java:358-364 | the children's text is appended to whatever was built before, and neither the node state nor the record depends on it |
| Walk.TerminatedIsJoin | src/main/java/de/iisys/libinterface/parser/node/ArrayNode.java:207-211 | a buffer of renderings each followed by the delimiter is their join plus one delimiter |
| Walk.TrimTerminated | src/main/java/de/iisys/libinterface/parser/node/ArrayNode.java:207-216 | trimming such a buffer gives the renderings joined by the delimiter |
| Walk.RepeatRenders | src/main/java/de/iisys/libinterface/parser/node/ArrayNode.java:207-211 | the loop succeeds iff every pass of the body does, and appends each pass's text followed by the delimiter, in index order |
| Walk.StageIndex | src/main/java/de/iisys/libinterface/parser/node/ArrayNode.java:207-211 | the k-th pass of the loop runs with the array index k places further on |
| Walk.RenderingsCons | src/main/java/de/iisys/libinterface/parser/node/ArrayNode.java:207-211 | the passes after the first are those that start from the state the first leaves |
| Walk.ArraySerialize | src/main/java/de/iisys/libinterface/parser/node/ArrayNode.java:200-219 | differing list sizes are a ParsingException; the output becomes the array's content; with the intended trim, no elements give "" (as written, the source throws there for a one-character delimiter: see Findings) |
| Walk.ArraySerializeJoins | src/main/java/de/iisys/libinterface/parser/node/ArrayNode.java:200-219 | from index 0, an array serializes iff the list sizes agree and every pass succeeds; the k-th pass runs with index k; the output is the passes' texts, one per element, joined by the delimiter |
| Walk.MatchAt | src/main/java/de/iisys/libinterface/parser/node/ContentNode.java:53-65 | comparing against the message changes neither the node state nor the record |
| Walk.FieldSpan | src/main/java/de/iisys/libinterface/parser/node/ReflectionFieldNode.java:314-324 | a fixed-length field spans its declared length |
| Walk.LiteralDeserialize | src/main/java/de/iisys/libinterface/parser/node/ContentNode.java:53-65 | a literal reads back iff the message holds it at the node's position; otherwise a content mismatch or out-of-range ParsingException; nothing changes |
| Walk.SymbolDeserialize | src/main/java/de/iisys/libinterface/parser/node/MessageCharacterNode.java:54-66 | a named character reads back iff the message character at the node's position is the named one; otherwise a ParsingException; nothing changes |
| Walk.FieldSerialize | src/main/java/de/iisys/libinterface/parser/node/ReflectionFieldNode.java:173-179 | serializing a field leaves the node state alone; fixed-length output has that length; a missing field is a ParserRuntimeException and a null value a ParsingException |
| Walk.FieldDeserialize | src/main/java/de/iisys/libinterface/parser/node/ReflectionFieldNode.java:313-338 | the computed span is always stored as the length. When the span does not fit the message, nothing is read and the record and content stay as they were. When it fits, a negative position is out of range and otherwise the window becomes the field's content |
| Walk.OptionalSerialize | src/main/java/de/iisys/libinterface/parser/node/OptionalNode.java:94-101 | a ParsingException from the body gives "" and sets the failure flag, and the body's record changes are kept; no ParsingException escapes; success is the body's text |
| Walk.OptionalDeserialize | src/main/java/de/iisys/libinterface/parser/node/OptionalNode.java:110-121 | a ParsingException from the body sets the failure flag and keeps the body's record changes; of the ParsingExceptions, only the converted out-of-range one escapes |
| Walk.SerializeFrame | src/main/java/de/iisys/libinterface/parser/node/ParserNode.java:358-374 | serializing a node changes no node state outside its subtree |
| Walk.SerializeChildrenFrame | src/main/java/de/iisys/libinterface/parser/node/ParserNode.java:358-364 | serializing the children changes only node state below the parent |
| Walk.SerializeArrayFrame | src/main/java/de/iisys/libinterface/parser/node/ArrayNode.java:200-219 | serializing an array changes no node state outside its subtree |
| Walk.RepeatFrame | src/main/java/de/iisys/libinterface/parser/node/ArrayNode.java:207-211 | the array's loop changes no node state outside its subtree |
| Walk.DeserializeFrame | src/main/java/de/iisys/libinterface/parser/node/ParserNode.java:382-398 | deserializing a node changes no node state outside its subtree |
| Walk.DeserializeChildrenFrame | src/main/java/de/iisys/libinterface/parser/node/ParserNode.java:382-387 | deserializing the children changes only node state below the parent |
| Walk.DeserializeTokensFrame | src/main/java/de/iisys/libinterface/parser/node/ArrayNode.java:229-243 | the token loop keeps the array's content, advances its index once per token, and changes nothing outside the array's subtree |
| Walk.ArrayDeserialize | src/main/java/de/iisys/libinterface/parser/node/ArrayNode.java:229-243 | the window becomes the array's content; the index advances by the number of tokens; an empty window reads nothing and leaves the record alone |
| Walk.ListArraySerialize | src/main/java/de/iisys/libinterface/parser/node/ArrayNode.java:200-219 | from index 0, an array over one plain `List` field serializes to the list's texts joined by the delimiter |
| Walk.ListArrayTokens | src/main/java/de/iisys/libinterface/parser/node/ArrayNode.java:229-243 | the token loop over such an array appends each token to the list, in order |
| Walk.ListArrayDeserialize | src/main/java/de/iisys/libinterface/parser/node/ArrayNode.java:229-243 | such an array reads a window of non-empty, delimiter-free texts joined by the delimiter into the list, in order |
| Walk.ListArrayRoundTrip | src/test/java/de/iisys/libinterface/parser/MessageParserTest.java:235-246 | what such an array serializes reads back into an empty list as the same elements, when they are non-empty and free of delimiter characters |
| Walk.EccBlockSerialize | src/main/java/de/iisys/libinterface/parser/node/ECCBlockNode.java:61-64 | a block outputs its body's text and keeps that text |
| Walk.EccBlockDeserialize | src/main/java/de/iisys/libinterface/parser/node/ECCBlockNode.java:74-81 | a block keeps its window; no IndexOutOfBounds escapes |
| Walk.EccCalcSerialize | src/main/java/de/iisys/libinterface/parser/node/ECCCalculationNode.java:111-118 | a placeholder outputs exactly one character, the checksum of the referenced block's stored text, and keeps it. A missing block or an unwalked block is a ParsingException. With the default checksum the character is the XOR |
| Walk.EccCalcDeserialize | src/main/java/de/iisys/libinterface/parser/node/ECCCalculationNode.java:127-142 | a placeholder reads back iff its window is the one recomputed checksum character; any other window is "ECC was not valid" |
| Walk.PlainLengths | src/main/java/de/iisys/libinterface/parser/node/ParserNode.java:165-171 | in a template of literals and named characters, the k-th part starts after the texts of the parts before it |
| Walk.PlainSerialize | src/main/java/de/iisys/libinterface/parser/node/ParserNode.java:358-364 | such parts serialize to their fixed text and change no state |
| Walk.PlainNodeDeserialize | src/main/java/de/iisys/libinterface/parser/node/ContentNode.java:53-65 | a plain node reads back iff the message continues with its text at its position |
| Walk.PlainDeserialize | src/main/java/de/iisys/libinterface/parser/node/ParserNode.java:382-387 | such parts read a message, changing nothing, iff it starts with their text |
| Walk.PlainRoundTrip | src/main/java/de/iisys/libinterface/parser/node/ParserNode.java:358-398 | a tree of literals and named characters serializes to its text and deserializes exactly the messages that start with it; the rest of the message is never looked at |
| Walk.Serialize | src/main/java/de/iisys/libinterface/parser/node/ParserNode.java:358-374 | `serialize` of each node kind; stated by the per-kind lemmas (`FieldSerialize`, `OptionalSerialize`, `ArraySerializeJoins`, `EccBlockSerialize`, `EccCalcSerialize`, `PlainSerialize`) and `SerializeFrame` |
| Walk.Deserialize | src/main/java/de/iisys/libinterface/parser/node/ParserNode.java:382-398 | `deserialize` of each node kind; stated by the per-kind lemmas (`LiteralDeserialize`, `SymbolDeserialize`, `FieldDeserialize`, `OptionalDeserialize`, `ArrayDeserialize`, `EccCalcDeserialize`) and `DeserializeFrame` |
| Walk.SerializeArray | src/main/java/de/iisys/libinterface/parser/node/ArrayNode.java:200-219 | the array's serialize loop, with the intended trim; stated by `ArraySerialize`, `ArraySerializeJoins` and `ListArraySerialize` |
| Walk.DeserializeArray | src/main/java/de/iisys/libinterface/parser/node/ArrayNode.java:229-243 | the array's deserialize; stated by `ArrayDeserialize`, `ListArrayDeserialize` and `ListArrayRoundTrip` |
| Walk.DeserializeField | src/main/java/de/iisys/libinterface/parser/node/ReflectionFieldNode.java:313-338 | a field reads its window into the record; `FieldDeserialize` states the span, the length and the write |
| Walk.DeserializeTokens | src/main/java/de/iisys/libinterface/parser/node/ArrayNode.java:229-243 | the loop over the tokens; stated by `DeserializeTokensFrame` and `ListArrayTokens` |
| Walk.Checksum | src/main/java/de/iisys/libinterface/parser/node/ECCCalculationNode.java:61-88 | the checksum of the referenced block's stored text; stated by `EccCalcSerialize` and `EccCalcDeserialize` |
| Walk.TrimAsWritten | src/main/java/de/iisys/libinterface/parser/node/ArrayNode.java:214-216 | the trim as the source writes it; stated by `TrimAsWrittenFailsOnEmpty` and `TrimAsWrittenAgrees` |
| TreeWalker.ParserTree.constructor | src/main/java/de/iisys/libinterface/parser/node/ParserNode.java:24-32 | a new tree holds the compiled template, each composite reset as its constructor does, and the record |
| TreeWalker.ParserTree.GetLength | src/main/java/de/iisys/libinterface/parser/node/ParserNode.java:345-351 | computes `Length` |
| TreeWalker.ParserTree.SumLengths | src/main/java/de/iisys/libinterface/parser/node/ParserNode.java:345-351 | the loop computes the sum of the first children's lengths |
| TreeWalker.ParserTree.GetPosition | src/main/java/de/iisys/libinterface/parser/node/ParserNode.java:165-171 | computes `Position` |
| TreeWalker.ParserTree.GetContent | src/main/java/de/iisys/libinterface/parser/node/ParserNode.java:329-338 | computes `Content` |
| TreeWalker.ParserTree.JoinContents | src/main/java/de/iisys/libinterface/parser/node/ParserNode.java:329-338 | the loop with its early exit computes `ChildrenContent` |
| TreeWalker.ParserTree.ExtractWindow | src/main/java/de/iisys/libinterface/parser/node/ParserNode.java:319-322 | computes `Extract` |
| TreeWalker.ParserTree.FindReference | src/main/java/de/iisys/libinterface/parser/node/ECCCalculationNode.java:94-103 | the search loop finds the block `FindBlock` names |
| TreeWalker.ParserTree.ComputeChecksum | src/main/java/de/iisys/libinterface/parser/node/ECCCalculationNode.java:61-88 | computes `Checksum` over the referenced block's current text |
| TreeWalker.ParserTree.GetAllListsSize | src/main/java/de/iisys/libinterface/parser/node/ArrayNode.java:166-192 | the loop computes `AllListsSize` |
| TreeWalker.ParserTree.ResetNode | src/main/java/de/iisys/libinterface/parser/node/ParserNode.java:37-39 | the node state becomes `Reset` of the old state; the record is unchanged |
| TreeWalker.ParserTree.ResetChildrenLoop | src/main/java/de/iisys/libinterface/parser/node/ParserNode.java:44-48 | the node state becomes `ResetChildren` of the old state; the record is unchanged |
| TreeWalker.ParserTree.SerializeNode | src/main/java/de/iisys/libinterface/parser/node/ParserNode.java:372-374 | output, node state and record are those of `Serialize` on the old state |
| TreeWalker.ParserTree.SerializeChildrenLoop | src/main/java/de/iisys/libinterface/parser/node/ParserNode.java:358-364 | the loop leaves the output, node state and record of `SerializeChildren` |
| TreeWalker.ParserTree.SerializeArrayNode | src/main/java/de/iisys/libinterface/parser/node/ArrayNode.java:200-219 | the while loop over the array index leaves the output, node state and record of `SerializeArray` |
| TreeWalker.ParserTree.MatchText | src/main/java/de/iisys/libinterface/parser/node/ContentNode.java:53-65 | computes `MatchAt` and changes nothing |
| TreeWalker.ParserTree.DeserializeFieldNode | src/main/java/de/iisys/libinterface/parser/node/ReflectionFieldNode.java:313-338 | leaves the outcome, node state and record of `DeserializeField` |
| TreeWalker.ParserTree.DeserializeNode | src/main/java/de/iisys/libinterface/parser/node/ParserNode.java:396-398 | leaves the outcome, node state and record of `Deserialize` |
| TreeWalker.ParserTree.DeserializeChildrenLoop | src/main/java/de/iisys/libinterface/parser/node/ParserNode.java:382-387 | the loop leaves the outcome, node state and record of `DeserializeChildren` |
| TreeWalker.ParserTree.DeserializeArrayNode | src/main/java/de/iisys/libinterface/parser/node/ArrayNode.java:229-243 | the token loop leaves the outcome, node state and record of `DeserializeArray` |
| TreeWalker.ParserTree.DeserializeTokensLoop | src/main/java/de/iisys/libinterface/parser/node/ArrayNode.java:229-243 | the loop over the tokens, which walks the body, advances the index and resets the body each time, leaves the outcome, node state and record of `DeserializeTokens` |
| Service.SerializeMessage | src/main/java/de/iisys/libinterface/parser/service/MessageParserService.java:87-98 | a template that does not parse fails with its parse failure and leaves the record alone; a type callback answering false is a ParserRuntimeException; when it accepts, the fresh tree serializes the record the callback left, and that walk's text and record are the outcome |
| Service.Serialize | src/main/java/de/iisys/libinterface/parser/service/MessageParserService.java:87-98 | running the callback and then a fresh tree gives the outcome and record of `SerializeMessage` |
| Service.Attempt | src/main/java/de/iisys/libinterface/parser/service/MessageParserService.java:169-186 | a type without a usable constructor fails to instantiate; a template that does not parse fails with its parse failure; otherwise a failed walk is the failure, and after a successful walk the type callback runs: false is a ParserRuntimeException, acceptance gives the record the callback left |
| Service.TryCandidate | src/main/java/de/iisys/libinterface/parser/service/MessageParserService.java:172-186 | one candidate run over a fresh tree gives `Attempt` |
| Service.Deserialize | src/main/java/de/iisys/libinterface/parser/service/MessageParserService.java:169-198 | the candidate loop, with its early returns, gives `DeserializeMessage` |
| Service.FirstCandidateWins | src/main/java/de/iisys/libinterface/parser/service/MessageParserService.java:172-186 | a decoded message comes from the first candidate that reads it, and every earlier candidate failed with a ParsingException |
| Service.AllCandidatesFail | src/main/java/de/iisys/libinterface/parser/service/MessageParserService.java:187-197 | when every candidate fails with a ParsingException, one ParsingException carries all their diagnostics in order |
| Service.OtherFailureAborts | src/main/java/de/iisys/libinterface/parser/service/MessageParserService.java:184-191 | the first failure that is not a ParsingException ends the loop and is what the caller gets |
| Service.SingleCandidate | src/main/java/de/iisys/libinterface/parser/service/MessageParserService.java:135-149 | single-class `deserialize` returns the candidate's record, or its ParsingException as the only diagnostic, or its other failure |
| Service.DeserializeMessage | src/main/java/de/iisys/libinterface/parser/service/MessageParserService.java:169-198 | the candidate loop as a function; stated by `FirstCandidateWins`, `AllCandidatesFail`, `OtherFailureAborts` and `SingleCandidate` |
| Service.PlainMessageRoundTrip | src/test/java/de/iisys/libinterface/parser/MessageParserTest.java:38-45 | a type whose template is only literals and named characters and which has no callback serializes any record to the fixed text, and that text deserializes to a fresh instance |
| SampleMessages.SizedFieldWalk | src/main/java/de/iisys/libinterface/parser/node/ReflectionFieldNode.java:156-163 | a tree of one `{N:name}` field serializes a text to its padded form and reads that back into the field |
| SampleMessages.SizedFieldMessage | src/test/java/de/iisys/libinterface/parser/MessageParserTest.java:94-110 | a type whose template is one `{N:name}` field serializes to the padded text and deserializes it back; a text of length N comes back unchanged |
| SampleMessages.PadExamples | src/test/java/de/iisys/libinterface/parser/MessageParserTest.java:94-110 | "fine" is padded to "fine " and "perfect" is cut to "perfe" |
| SampleMessages.EndingSerialize | src/test/java/de/iisys/libinterface/message/EndingMessage.java:9 | `[{beginning}-]{ending}` writes the beginning, a dash and the ending; a null beginning drops the optional part; the record is unchanged |
| SampleMessages.EndingDeserializeFull | src/test/java/de/iisys/libinterface/parser/MessageParserTest.java:117-124 | a dash-free beginning, a dash and an ending read back into both fields |
| SampleMessages.EndingDeserializeShort | src/test/java/de/iisys/libinterface/parser/MessageParserTest.java:126-133 | a message without a dash is all ending: the optional part fails and the beginning is left as it was |
| SampleMessages.EndingMessageRoundTrip | src/test/java/de/iisys/libinterface/parser/MessageParserTest.java:117-133 | the type with that template: a dash-free beginning and an ending both come back; a null beginning stays null when the ending holds no dash |
| SampleMessages.EndingTemplate | src/test/java/de/iisys/libinterface/message/EndingMessage.java:9 | the printed tree of the test template is the template text |
| SampleMessages.EndingExample | src/test/java/de/iisys/libinterface/parser/MessageParserTest.java:117-124 | "one" and "ending" serialize to "one-ending", which deserializes back to them |
| SampleMessages.EndingExampleNull | src/test/java/de/iisys/libinterface/parser/MessageParserTest.java:126-133 | a null beginning and "ending" serialize to "ending", which deserializes to a null beginning and "ending" |
| SampleMessages.FramedSerialize | src/main/java/de/iisys/libinterface/parser/node/ReflectionFieldNode.java:141-165 | a field between two literals serializes as the text the field callback leaves in the record, between the literals, and the walk keeps the callback's record |
| SampleMessages.FramedFieldEnd | src/main/java/de/iisys/libinterface/parser/node/ParserNode.java:275-311 | a field followed by a literal ends at the literal's first occurrence, so a text free of the literal's first character is read whole |
| SampleMessages.FramedDeserialize | src/main/java/de/iisys/libinterface/parser/node/ReflectionFieldNode.java:245-282 | a text between the two literals is written to the field and the field callback runs on it: acceptance gives the callback's record, false a ParserRuntimeException naming the field |
| SampleMessages.FramedPrint | src/main/java/de/iisys/libinterface/parser/MessageParser.java:41-273 | a field between two literals prints as the escaped first literal, `{name}` and the escaped second literal |
| SampleMessages.CallbackTemplate | src/test/java/de/iisys/libinterface/message/CallbackMessage.java:11 | the parse tree `call-`, `{back}`, `-message` prints as the template of `CallbackMessage` |
| SampleMessages.CallbackSerialize | src/test/java/de/iisys/libinterface/message/CallbackMessage.java:10-45 | `classCallback()` runs before the walk and `callback()` while `back` is read: the message is `back` between "call-" and "-message", and the record gains `back + back` and `back` in upper case |
| SampleMessages.CallbackSerializeNull | src/test/java/de/iisys/libinterface/message/CallbackMessage.java:36-38 | a null `back` makes `callback()` throw, so serializing fails with "could not call method", tagged with the field name `back` |
| SampleMessages.CallbackAttempt | src/main/java/de/iisys/libinterface/parser/service/MessageParserService.java:169-186 | reading "call-" t "-message" for a dash-free t gives back `back = t`, its upper case and `t + t` |
| SampleMessages.CallbackDeserialize | src/main/java/de/iisys/libinterface/parser/service/MessageParserService.java:169-198 | the same through the candidate loop, with the type as the only candidate |
| SampleMessages.CallbackRoundTrip | src/test/java/de/iisys/libinterface/parser/MessageParserTest.java:184-196 | serializing `back = t` and deserializing the message gives the same record, with both callbacks' fields filled in |
| SampleMessages.CallbackExample | src/test/java/de/iisys/libinterface/parser/MessageParserTest.java:184-196 | "hello" serializes to "call-hello-message" leaving "HELLO" and "hellohello", and the message deserializes to that record |
| SampleMessages.EnumContentWrite | src/test/java/de/iisys/libinterface/message/EnumContentMessage.java:11-47 | the field `content` of `EnumContentMessage`: "B" stores VALUE_B, and "X", which no constant carries and which has no default, makes the write fail with "could not set data" and leaves the record alone |
| SampleMessages.HelloUpper | src/test/java/de/iisys/libinterface/message/CallbackMessage.java:36-38 | "hello" in upper case is "HELLO" |

## Left out

- Reflection is left out (`ReflectionService`, `Class.forName`, `Method.invoke`, annotation lookup). A record type is given as plain configuration: its template, checksum function, callbacks, representation tables, `List` fields and a fresh instance. Values are held as their `toString()` text, so coercion to primitive field types (`parseInt`, `parseFloat` and the like) is not modelled. The one type clash that is modelled is a represented field outside an array: a type that declares annotated constants is taken to be an enumeration, so a text none of them resolves cannot be stored (`Binding.Unresolved`). A represented field whose type declares no annotated constants is taken to hold a String.
- Callbacks are functions from a record to a new record and an answer. A callback cannot do anything besides change the record.
- `SampleMessages.AsciiUpper`: `toUpperCase` in `CallbackMessage.callback()` is modelled for the Latin letters a to z only; other characters are left as they are.
- The array-typed storage path of `ArrayNode.setCurrentArrayData` is left out; only `List` fields are modelled. As written, that path builds an array of the field's own array type, so storing a String there fails.
- `buildErrorString` and every exception message are left out. Failures are kept as values; a failed candidate loop returns the list of failures, not a formatted string.
- Constructor arguments of `deserialize` are left out: each candidate type supplies the record a fresh instance starts with.
- The parboiled machinery is left out (parse runners, the value stack, error recovery). The grammar is modelled directly. An exception inside a grammar action aborts the whole parse. The two such actions are an unknown `<NAME>` in an array delimiter and a length beyond `Integer.MAX_VALUE`.
- `MessageParser.IdentifierStart`, `MessageParser.IdentifierPart`: Java identifier characters are modelled for the Latin-1 range only. Characters from U+0100 up count as non-identifier characters.
- The classes `ParsingException` and `ParserRuntimeException` are not part of this model. They are taken to be unrelated runtime exceptions, so an optional part and the candidate loop catch only the former.
- `ParserNode.toString`, `MessageCharacters.getInstance` and the reflective `allFields`/`allChars` are left out. The character table is a constant.
- `ProtocolRunner` and `NetworkProtocolRunner` are not part of this model; they belong to the session layer above the codec.
- Aliasing between Java node objects is not modelled. A node's mutable fields are held in a map from its path, inside one `ParserTree` object.
- `NodeTree.FilteredSound`: `getFilteredNodes` climbs to the root before searching. The model always searches from the root, and states soundness and that children are found, not the full pre-order listing.
- `MessageParser.EccBlockAt`, `MessageParser.EccCalcAt`, `MessageParser.OptionalAt`, `MessageParser.ArrayAt`, `MessageParser.FieldAt`, `MessageParser.SymbolAt`, `MessageParser.LiteralAt`: their own contracts only bound what a match consumes. What each rule builds is stated by the `...When` and `...OfPrint` lemmas beside them; for an array whose delimiter holds `<NAME>`, by `MessageParser.ArrayAtParsed` and `MessageParser.ArrayAtAborts`.
- `Walk.ListsSize`: its own contract only bounds the size. `Walk.ListsSizeCommon`, `Walk.ListsSizeAgreed`, `Walk.ListsSizeNoneCounted` and `Walk.ListsSizeDiffers` state what the size means, in both directions.
- `Walk.SerializeArray`: the walk trims the buffer as intended (`Walk.Trim`). So `Walk.Serialize`, `Service.SerializeMessage` and `Service.Serialize` give "" for an array with no elements and a one-character delimiter, such as `ArrayMessage` (delimiter `,`) with no keys and no values. For that input ArrayNode.java:214-216 throws StringIndexOutOfBoundsException out of `serialize`; `Walk.TrimAsWritten` models the code as written (see Findings).
- `Walk.ArraySerializeJoins`: stated from array index 0 only, the index a freshly reset array has.
- `Binding.GetField`: its own contract covers only the missing field and the fixed length. The array projection is stated through `Binding.SetThenGetItem`, the callback through `Binding.GetHookedField`, and a plain field through `Binding.GetPlainField` and `Binding.SetThenGet`.
- Of the tests' message types, only those with a fixed-length field, `EndingMessage` and `CallbackMessage` are walked end to end (`SampleMessages`), and arrays only for a body of one plain `List` field (`Walk.ListArrayRoundTrip`). The checksum message of MessageParserTest.java:203-220 is stated through its three checksums (`EccService.XorOfTestBlocks`) and the per-node lemmas `Walk.EccBlockSerialize`, `Walk.EccCalcSerialize` and `Walk.EccCalcDeserialize`, not as one walk; `MegaMessage` and the full `ArrayMessage` are not walked either.

## Findings

| source | as written | input that shows it | evidently intended | confidence | as-written member | corrected member |
|---|---|---|---|---|---|---|
| src/main/java/de/iisys/libinterface/parser/node/ArrayNode.java:214-216 | the trailing-delimiter trim runs whenever `lastIndexOf(delimiter) == length - |delimiter|`. For an empty buffer and a one-character delimiter both sides are -1, so `delete(-1, 0)` throws StringIndexOutOfBoundsException | an array with delimiter `,` whose lists are all empty, e.g. `ArrayMessage` with no keys and no values | an array with no elements serializes to the empty text | not executed | Walk.TrimAsWritten (shown by Walk.TrimAsWrittenFailsOnEmpty) | Walk.Trim (Walk.TrimAsWrittenAgrees, Walk.ArraySerialize, Walk.ArraySerializeJoins) |
