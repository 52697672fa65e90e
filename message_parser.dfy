/**
 * The template grammar: an ordered-choice, recursive-descent grammar over a
 * template string, producing the parts of the root message. A part is an ECC
 * block `~body:ref~`, an ECC placeholder `!ref!`, an optional `[body]`, an
 * array `(body:delimiter)`, a field `{name}` or `{N:name}`, a named control
 * character `<NAME>` or literal text in which `\` escapes the next character.
 *
 * Each rule is a function from a template and a start index to a `Step`:
 * the value it builds and the index after its match, no match (the parser
 * backtracks), or an aborted run (a grammar action threw, which ends the
 * whole parse).
 */
module MessageParser {
  import opened JavaText
  import opened Failures
  import MessageCharacters

  /** The parse tree: the nodes the grammar's actions push. */
  datatype Node =
    | Literal(text: JString)                          // ContentNode
    | Symbol(name: JString)                           // MessageCharacterNode
    | Field(name: JString, length: int)               // ReflectionFieldNode, -1 when unbounded
    | Optional(body: seq<Node>)                       // OptionalNode
    | Array(delimiter: JString, body: seq<Node>)      // ArrayNode
    | EccBlock(reference: JString, body: seq<Node>)   // ECCBlockNode
    | EccCalc(reference: JString)                     // ECCCalculationNode

  datatype Step<T> = Matched(value: T, next: nat) | NoMatch | Aborted

  const Escape: JChar := 0x5C       // '\'
  const LeftParen: JChar := 0x28    // '('
  const RightParen: JChar := 0x29   // ')'
  const LeftBracket: JChar := 0x5B  // '['
  const RightBracket: JChar := 0x5D // ']'
  const LeftBrace: JChar := 0x7B    // '{'
  const RightBrace: JChar := 0x7D   // '}'
  const Colon: JChar := 0x3A        // ':'
  const Tilde: JChar := 0x7E        // '~'
  const Bang: JChar := 0x21         // '!'

  /** `Integer.MAX_VALUE`: the largest length `Integer.parseInt` accepts. */
  const MaxInt := 0x7FFF_FFFF

  /** The control characters `()[]{}<>:~!`. */
  predicate IsControl(c: JChar)
  {
    c == LeftParen || c == RightParen || c == LeftBracket || c == RightBracket ||
    c == LeftBrace || c == RightBrace || c == MessageCharacters.Lt || c == MessageCharacters.Gt ||
    c == Colon || c == Tilde || c == Bang
  }

  /** What ends a run of non-control characters: all control characters, or just one. */
  datatype Stop = Controls | Only(c: JChar)

  predicate Stops(stop: Stop, c: JChar)
  {
    match stop
    case Controls => IsControl(c)
    case Only(d) => c == d
  }

  /**
   * `NonControlCharacter` at `p`: a character that is neither a stop nor `\`,
   * or `\` followed by any character. The index after the match, or `p`.
   */
  function NonControlEnd(t: JString, p: nat, stop: Stop): (e: nat)
    requires p <= |t|
    ensures e == p || p < e <= |t|
  {
    if p == |t| then p
    else if t[p] == Escape then (if p + 1 < |t| then p + 2 else p)
    else if Stops(stop, t[p]) then p
    else p + 1
  }

  /** The end of the longest run of `NonControlCharacter` matches from `p`. */
  function RunEnd(t: JString, p: nat, stop: Stop): (e: nat)
    requires p <= |t|
    ensures p <= e <= |t|
    decreases |t| - p
  {
    var q := NonControlEnd(t, p, stop);
    if q == p then p else RunEnd(t, q, stop)
  }

  /** The run's text as `Content` collects it: the last character of each match, so escapes are dropped. */
  function RunText(t: JString, p: nat, stop: Stop): JString
    requires p <= |t|
    decreases |t| - p
  {
    var q := NonControlEnd(t, p, stop);
    if q == p then [] else [t[q - 1]] + RunText(t, q, stop)
  }

  predicate IsDigit(c: JChar)
  {
    0x30 <= c <= 0x39
  }

  /** The end of the longest run of decimal digits from `p`. */
  function DigitsEnd(t: JString, p: nat): (e: nat)
    requires p <= |t|
    ensures p <= e <= |t|
    decreases |t| - p
  {
    if p < |t| && IsDigit(t[p]) then DigitsEnd(t, p + 1) else p
  }

  /** The value of a decimal digit (0 for any other character). */
  function DigitValue(c: JChar): (v: nat)
    ensures v < 10
  {
    if c == 0x31 then 1 else if c == 0x32 then 2 else if c == 0x33 then 3
    else if c == 0x34 then 4 else if c == 0x35 then 5 else if c == 0x36 then 6
    else if c == 0x37 then 7 else if c == 0x38 then 8 else if c == 0x39 then 9 else 0
  }

  /** The value of the decimal digits `t[p..e]`, as `Integer.parseInt` reads it before its range check. */
  function Decimal(t: JString, p: nat, e: nat): nat
    requires p <= e <= |t|
    decreases e - p
  {
    if e == p then 0 else Decimal(t, p, e - 1) * 10 + DigitValue(t[e - 1])
  }

  /**
   * `Character.isJavaIdentifierStart` for the Latin-1 range: letters, `$`,
   * `_` and the currency signs U+00A2..U+00A5.
   */
  predicate IdentifierStart(c: JChar)
  {
    (0x41 <= c <= 0x5A) || (0x61 <= c <= 0x7A) || c == 0x24 || c == 0x5F ||
    (0xA2 <= c <= 0xA5) || c == 0xAA || c == 0xB5 || c == 0xBA ||
    (0xC0 <= c <= 0xD6) || (0xD8 <= c <= 0xF6) || (0xF8 <= c <= 0xFF)
  }

  /**
   * `Character.isJavaIdentifierPart` for the Latin-1 range: identifier
   * starts, digits and the identifier-ignorable controls and soft hyphen.
   */
  predicate IdentifierPart(c: JChar)
  {
    IdentifierStart(c) || IsDigit(c) ||
    c <= 0x08 || (0x0E <= c <= 0x1B) || (0x7F <= c <= 0x9F) || c == 0xAD
  }

  /** The end of the longest run of identifier-part characters from `p`. */
  function IdentifierEnd(t: JString, p: nat): (e: nat)
    requires p <= |t|
    ensures p <= e <= |t|
    decreases |t| - p
  {
    if p < |t| && IdentifierPart(t[p]) then IdentifierEnd(t, p + 1) else p
  }

  /**
   * `FirstOf(allNamesArray())`: the index of the first declared name, from
   * the `k`-th on, that the template continues with at `p`.
   */
  function FirstName(t: JString, p: nat, k: nat): (r: Option<nat>)
    requires p <= |t| && k <= MessageCharacters.Count
    ensures r.Some? ==> k <= r.value < MessageCharacters.Count && MessageCharacters.NameAt(r.value) <= t[p..]
    ensures forall j | k <= j < (if r.Some? then r.value else MessageCharacters.Count) ::
      !(MessageCharacters.NameAt(j) <= t[p..])
    decreases MessageCharacters.Count - k
  {
    if k == MessageCharacters.Count then None
    else if MessageCharacters.NameAt(k) <= t[p..] then Some(k)
    else FirstName(t, p, k + 1)
  }

  /** `FirstOf`: the first alternative that does not fail to match. */
  function Else<T>(first: Step<T>, second: Step<T>): Step<T>
  {
    if first.NoMatch? then second else first
  }

  /** `Message`: one or more parts, as many as match. */
  function MessageAt(t: JString, p: nat): (r: Step<seq<Node>>)
    requires p <= |t|
    ensures r.Matched? ==> p < r.next <= |t| && r.value != []
    decreases |t| - p, 3
  {
    PartsFrom(t, p, [])
  }

  /** The remaining parts of a `Message` from `p`, after the parts `done`. */
  function PartsFrom(t: JString, p: nat, done: seq<Node>): (r: Step<seq<Node>>)
    requires p <= |t|
    ensures r.Matched? ==> p <= r.next <= |t| && done <= r.value
    ensures r.Matched? && done == [] ==> p < r.next && r.value != []
    decreases |t| - p, 2
  {
    match PartAt(t, p)
    case Aborted => Aborted
    case NoMatch => if done == [] then NoMatch else Matched(done, p)
    case Matched(n, q) => PartsFrom(t, q, done + [n])
  }

  /** `Part`: the alternatives in their fixed order. */
  function PartAt(t: JString, p: nat): (r: Step<Node>)
    requires p <= |t|
    ensures r.Matched? ==> p < r.next <= |t|
    decreases |t| - p, 1
  {
    Else(EccBlockAt(t, p),
    Else(EccCalcAt(t, p),
    Else(OptionalAt(t, p),
    Else(ArrayAt(t, p),
    Else(FieldAt(t, p),
    Else(SymbolAt(t, p),
         LiteralAt(t, p)))))))
  }

  /** `ECCBlock`: `~`, a message, `:`, the raw reference, `~`. */
  function EccBlockAt(t: JString, p: nat): (r: Step<Node>)
    requires p <= |t|
    ensures r.Matched? ==> p < r.next <= |t|
    decreases |t| - p, 0
  {
    if p == |t| || t[p] != Tilde then NoMatch
    else
      match MessageAt(t, p + 1)
      case Aborted => Aborted
      case NoMatch => NoMatch
      case Matched(body, q) =>
        if q == |t| || t[q] != Colon then NoMatch
        else
          var e := RunEnd(t, q + 1, Only(Tilde));
          if e == q + 1 || e == |t| || t[e] != Tilde then NoMatch
          else Matched(EccBlock(t[q + 1..e], body), e + 1)
  }

  /** `ECCCalculation`: `!`, the raw reference, `!`. */
  function EccCalcAt(t: JString, p: nat): (r: Step<Node>)
    requires p <= |t|
    ensures r.Matched? ==> p < r.next <= |t|
  {
    if p == |t| || t[p] != Bang then NoMatch
    else
      var e := RunEnd(t, p + 1, Only(Bang));
      if e == p + 1 || e == |t| || t[e] != Bang then NoMatch
      else Matched(EccCalc(t[p + 1..e]), e + 1)
  }

  /** `OptionalExpression`: `[`, a message, `]`. */
  function OptionalAt(t: JString, p: nat): (r: Step<Node>)
    requires p <= |t|
    ensures r.Matched? ==> p < r.next <= |t|
    decreases |t| - p, 0
  {
    if p == |t| || t[p] != LeftBracket then NoMatch
    else
      match MessageAt(t, p + 1)
      case Aborted => Aborted
      case NoMatch => NoMatch
      case Matched(body, q) =>
        if q == |t| || t[q] != RightBracket then NoMatch
        else Matched(Optional(body), q + 1)
  }

  /**
   * `ArrayExpression`: `(`, a message, `:`, the raw delimiter, `)`. The
   * action expands `<NAME>`s in the delimiter before the closing `)` is
   * tested; an unknown name throws there and aborts the parse.
   */
  function ArrayAt(t: JString, p: nat): (r: Step<Node>)
    requires p <= |t|
    ensures r.Matched? ==> p < r.next <= |t|
    decreases |t| - p, 0
  {
    if p == |t| || t[p] != LeftParen then NoMatch
    else
      match MessageAt(t, p + 1)
      case Aborted => Aborted
      case NoMatch => NoMatch
      case Matched(body, q) =>
        if q == |t| || t[q] != Colon then NoMatch
        else
          var e := RunEnd(t, q + 1, Only(RightParen));
          if e == q + 1 then NoMatch
          else
            match MessageCharacters.Parse(t[q + 1..e])
            case Err(_) => Aborted
            case Ok(delimiter) =>
              if e == |t| || t[e] != RightParen then NoMatch
              else Matched(Array(delimiter, body), e + 1)
  }

  /**
   * `ReflectionFieldExpression`: `{`, an optional length `N:`, a Java
   * identifier, `}`. The length action runs on the digits before the `:` is
   * tested, so a number beyond `Integer.MAX_VALUE` aborts the parse.
   */
  function FieldAt(t: JString, p: nat): (r: Step<Node>)
    requires p <= |t|
    ensures r.Matched? ==> p < r.next <= |t|
  {
    if p == |t| || t[p] != LeftBrace then NoMatch
    else
      var d := DigitsEnd(t, p + 1);
      if d > p + 1 && Decimal(t, p + 1, d) > MaxInt then Aborted
      else
        var sized := d > p + 1 && d < |t| && t[d] == Colon;
        var length := if sized then Decimal(t, p + 1, d) else -1;
        var start := if sized then d + 1 else p + 1;
        if start == |t| || !IdentifierStart(t[start]) then NoMatch
        else
          var e := IdentifierEnd(t, start + 1);
          if e == |t| || t[e] != RightBrace then NoMatch
          else Matched(Field(t[start..e], length), e + 1)
  }

  /** `MessageCharacterExpression`: `<`, the first declared name that matches, `>`. */
  function SymbolAt(t: JString, p: nat): (r: Step<Node>)
    requires p <= |t|
    ensures r.Matched? ==> p < r.next <= |t|
  {
    if p == |t| || t[p] != MessageCharacters.Lt then NoMatch
    else
      match FirstName(t, p + 1, 0)
      case None => NoMatch
      case Some(k) =>
        var e := p + 1 + |MessageCharacters.NameAt(k)|;
        if e == |t| || t[e] != MessageCharacters.Gt then NoMatch
        else Matched(Symbol(MessageCharacters.NameAt(k)), e + 1)
  }

  /** `Content`: a non-empty run of non-control characters, escapes removed. */
  function LiteralAt(t: JString, p: nat): (r: Step<Node>)
    requires p <= |t|
    ensures r.Matched? ==> p < r.next <= |t|
  {
    var e := RunEnd(t, p, Controls);
    if e == p then NoMatch else Matched(Literal(RunText(t, p, Controls)), e)
  }

  /**
   * `Parse`: a message followed by the end of input. The parts of the root
   * node, a rejected template, or the failure of a grammar action.
   */
  function Parse(t: JString): Result<seq<Node>>
  {
    match MessageAt(t, 0)
    case Aborted => Err(Runtime(ParserActionFailed))
    case NoMatch => Err(Parsing(TemplateRejected))
    case Matched(parts, q) => if q == |t| then Ok(parts) else Err(Parsing(TemplateRejected))
  }

  // ---------------------------------------------------------------------
  // Printing a parse tree back as a template, and parsing the print.

  /** Literal text as a template writes it: control characters and `\` escaped. */
  function EscapedText(s: JString): (r: JString)
    ensures |r| >= |s|
  {
    if s == [] then []
    else (if IsControl(s[0]) || s[0] == Escape then [Escape, s[0]] else [s[0]]) + EscapedText(s[1..])
  }

  /** The digit for a value below 10. */
  function DigitFor(d: nat): (c: JChar)
    requires d < 10
    ensures IsDigit(c) && DigitValue(c) == d
  {
    if d == 0 then 0x30 else if d == 1 then 0x31 else if d == 2 then 0x32
    else if d == 3 then 0x33 else if d == 4 then 0x34 else if d == 5 then 0x35
    else if d == 6 then 0x36 else if d == 7 then 0x37 else if d == 8 then 0x38 else 0x39
  }

  /** The decimal digits of `n`, without leading zeros. */
  function DecimalText(n: nat): (r: JString)
    ensures r != [] && forall k | 0 <= k < |r| :: IsDigit(r[k])
  {
    if n < 10 then [DigitFor(n)] else DecimalText(n / 10) + [DigitFor(n % 10)]
  }

  /** A template that writes the node `n`. */
  function PrintNode(n: Node): JString
  {
    match n
    case Literal(text) => EscapedText(text)
    case Symbol(name) => [MessageCharacters.Lt] + name + [MessageCharacters.Gt]
    case Field(name, length) =>
      [LeftBrace] + (if length >= 0 then DecimalText(length) + [Colon] else []) + name + [RightBrace]
    case Optional(body) => [LeftBracket] + Print(body) + [RightBracket]
    case Array(delimiter, body) => [LeftParen] + Print(body) + [Colon] + delimiter + [RightParen]
    case EccBlock(reference, body) => [Tilde] + Print(body) + [Colon] + reference + [Tilde]
    case EccCalc(reference) => [Bang] + reference + [Bang]
  }

  /** A template that writes the parts `ns` one after the other. */
  function Print(ns: seq<Node>): JString
  {
    if ns == [] then [] else PrintNode(ns[0]) + Print(ns[1..])
  }

  predicate IsName(name: JString)
  {
    exists k | 0 <= k < MessageCharacters.Count :: MessageCharacters.NameAt(k) == name
  }

  /** A Java identifier, as `FieldName` accepts it. */
  predicate IsIdentifier(name: JString)
  {
    name != [] && IdentifierStart(name[0]) && forall k | 1 <= k < |name| :: IdentifierPart(name[k])
  }

  /** Raw text a rule copies up to `stop`: non-empty, without `stop` and without `\`. */
  predicate IsRaw(s: JString, stop: JChar)
  {
    s != [] && stop !in s && Escape !in s
  }

  /**
   * The parse trees the grammar can produce, each in one way: literals are
   * non-empty, names are declared, lengths fit an int, raw texts need no
   * escape, a delimiter holds no `<`, bodies are non-empty and no two
   * literals are adjacent (the grammar reads them as one).
   */
  predicate CanonicalNode(n: Node)
  {
    match n
    case Literal(text) => text != []
    case Symbol(name) => IsName(name)
    case Field(name, length) => IsIdentifier(name) && -1 <= length <= MaxInt
    case Optional(body) => Canonical(body)
    case Array(delimiter, body) =>
      Canonical(body) && IsRaw(delimiter, RightParen) && MessageCharacters.Lt !in delimiter
    case EccBlock(reference, body) => Canonical(body) && IsRaw(reference, Tilde)
    case EccCalc(reference) => IsRaw(reference, Bang)
  }

  predicate Canonical(ns: seq<Node>)
    decreases ns, 1
  {
    ns != [] && CanonicalParts(ns)
  }

  predicate CanonicalParts(ns: seq<Node>)
    decreases ns, 0
  {
    (forall i | 0 <= i < |ns| :: CanonicalNode(ns[i])) &&
    (forall i, j | 0 <= i && j == i + 1 < |ns| :: !(ns[i].Literal? && ns[j].Literal?))
  }

  /** The template holds `x` at index `p`. */
  predicate At(t: JString, p: nat, x: JString)
  {
    p + |x| <= |t| && forall k | 0 <= k < |x| :: t[p + k] == x[k]
  }

  lemma AtSplit(t: JString, p: nat, a: JString, b: JString)
    requires At(t, p, a + b)
    ensures At(t, p, a) && At(t, p + |a|, b)
  {
    forall k | 0 <= k < |a| ensures t[p + k] == a[k] {
      assert (a + b)[k] == a[k];
    }
    forall k | 0 <= k < |b| ensures t[p + |a| + k] == b[k] {
      assert (a + b)[|a| + k] == b[k];
    }
  }

  lemma AtChar(t: JString, p: nat, c: JChar)
    requires At(t, p, [c])
    ensures p < |t| && t[p] == c
  {
    assert [c][0] == c;
  }

  /** The slice of the template at `p` is `x`. */
  lemma AtSlice(t: JString, p: nat, x: JString)
    requires At(t, p, x)
    ensures t[p..p + |x|] == x && x <= t[p..]
  {
    forall k | 0 <= k < |x| ensures t[p..p + |x|][k] == x[k] {
    }
    assert t[p..][..|x|] == t[p..p + |x|];
  }

  /** The template holds `a` and then `c` at `p`. */
  lemma AtThen(t: JString, p: nat, a: JString, c: JChar)
    requires At(t, p, a + [c])
    ensures At(t, p, a) && p + |a| < |t| && t[p + |a|] == c
  {
    AtSplit(t, p, a, [c]);
    AtChar(t, p + |a|, c);
  }

  /** The template holds `c` and then `a` at `p`. */
  lemma AtAfter(t: JString, p: nat, c: JChar, a: JString)
    requires At(t, p, [c] + a)
    ensures p < |t| && t[p] == c && At(t, p + 1, a)
  {
    AtSplit(t, p, [c], a);
    AtChar(t, p, c);
  }

  /** A message may stop at the end of input, at `]` or at `:`. */
  predicate EndsMessage(t: JString, q: nat)
  {
    q <= |t| && (q == |t| || t[q] == RightBracket || t[q] == Colon)
  }

  /** No part starts where a message may stop. */
  lemma NoPartAtEnd(t: JString, q: nat)
    requires EndsMessage(t, q)
    ensures PartAt(t, q) == NoMatch
  {
  }

  /** Raw text without `stop` and `\`, followed by `stop`, is one run. */
  lemma {:induction false} RunOverRaw(t: JString, p: nat, s: JString, stop: JChar)
    requires At(t, p, s) && stop !in s && Escape !in s && stop != Escape
    requires p + |s| < |t| && t[p + |s|] == stop
    ensures RunEnd(t, p, Only(stop)) == p + |s|
    decreases |s|
  {
    if s == [] {
      assert NonControlEnd(t, p, Only(stop)) == p;
    } else {
      assert [s[0]] + s[1..] == s;
      AtSplit(t, p, [s[0]], s[1..]);
      assert NonControlEnd(t, p, Only(stop)) == p + 1;
      RunOverRaw(t, p + 1, s[1..], stop);
    }
  }

  /** An escaped literal followed by a control character or the end is one run, read back unescaped. */
  lemma {:induction false} RunOverEscaped(t: JString, p: nat, text: JString)
    requires At(t, p, EscapedText(text))
    requires p + |EscapedText(text)| == |t| || IsControl(t[p + |EscapedText(text)|])
    ensures RunEnd(t, p, Controls) == p + |EscapedText(text)|
    ensures RunText(t, p, Controls) == text
    decreases |text|
  {
    if text == [] {
      assert NonControlEnd(t, p, Controls) == p;
    } else {
      var c, rest := text[0], text[1..];
      assert [c] + rest == text;
      if IsControl(c) || c == Escape {
        EscapedPairStep(t, p, c, rest);
        RunOverEscaped(t, p + 2, rest);
      } else {
        UnescapedStep(t, p, c, rest);
        RunOverEscaped(t, p + 1, rest);
      }
    }
  }

  /** An escaped character is one match of two characters that yields the character itself. */
  lemma EscapedPairStep(t: JString, p: nat, c: JChar, rest: JString)
    requires (IsControl(c) || c == Escape) && At(t, p, EscapedText([c] + rest))
    ensures |EscapedText([c] + rest)| == 2 + |EscapedText(rest)|
    ensures At(t, p + 2, EscapedText(rest))
    ensures NonControlEnd(t, p, Controls) == p + 2 && t[p + 1] == c
  {
    assert ([c] + rest)[1..] == rest;
    assert EscapedText([c] + rest) == [Escape, c] + EscapedText(rest);
    AtSplit(t, p, [Escape, c], EscapedText(rest));
    assert [Escape, c][0] == Escape && [Escape, c][1] == c;
  }

  /** A plain character is one match of one character. */
  lemma UnescapedStep(t: JString, p: nat, c: JChar, rest: JString)
    requires !IsControl(c) && c != Escape && At(t, p, EscapedText([c] + rest))
    ensures |EscapedText([c] + rest)| == 1 + |EscapedText(rest)|
    ensures At(t, p + 1, EscapedText(rest))
    ensures NonControlEnd(t, p, Controls) == p + 1 && t[p] == c
  {
    assert ([c] + rest)[1..] == rest;
    assert EscapedText([c] + rest) == [c] + EscapedText(rest);
    AtSplit(t, p, [c], EscapedText(rest));
    assert t[p] == c;
  }

  /** The printed digits of `n` read back as `n`. */
  lemma {:induction false} DecimalOfText(t: JString, p: nat, n: nat)
    requires At(t, p, DecimalText(n))
    ensures Decimal(t, p, p + |DecimalText(n)|) == n
  {
    if n < 10 {
      AtChar(t, p, DigitFor(n));
    } else {
      AtSplit(t, p, DecimalText(n / 10), [DigitFor(n % 10)]);
      AtChar(t, p + |DecimalText(n / 10)|, DigitFor(n % 10));
      DecimalOfText(t, p, n / 10);
    }
  }

  /** Digits followed by `:` are one run of digits. */
  lemma {:induction false} DigitsOver(t: JString, p: nat, ds: JString)
    requires At(t, p, ds) && forall k | 0 <= k < |ds| :: IsDigit(ds[k])
    requires p + |ds| < |t| && t[p + |ds|] == Colon
    ensures DigitsEnd(t, p) == p + |ds|
    decreases |ds|
  {
    if ds != [] {
      assert [ds[0]] + ds[1..] == ds;
      AtSplit(t, p, [ds[0]], ds[1..]);
      DigitsOver(t, p + 1, ds[1..]);
    }
  }

  /** Identifier parts followed by `}` are one run of identifier parts. */
  lemma {:induction false} IdentifierOver(t: JString, p: nat, s: JString)
    requires At(t, p, s) && forall k | 0 <= k < |s| :: IdentifierPart(s[k])
    requires p + |s| < |t| && t[p + |s|] == RightBrace
    ensures IdentifierEnd(t, p) == p + |s|
    decreases |s|
  {
    if s != [] {
      assert [s[0]] + s[1..] == s;
      AtSplit(t, p, [s[0]], s[1..]);
      IdentifierOver(t, p + 1, s[1..]);
    }
  }

  lemma PrefixFacts(a: JString, b: JString, s: JString)
    ensures a <= s && b <= s && |a| <= |b| ==> a <= b
    ensures a <= s && |b| < |a| ==> a[|b|] == s[|b|]
  {
  }

  /** A declared name followed by `>` is found as itself: no earlier name is a prefix of it. */
  lemma FirstNameOf(t: JString, p: nat, k: nat, name: JString)
    requires k < MessageCharacters.Count && MessageCharacters.NameAt(k) == name
    requires At(t, p, name + [MessageCharacters.Gt])
    ensures p + |name| < |t| && t[p + |name|] == MessageCharacters.Gt
    ensures FirstName(t, p, 0) == Some(k)
  {
    AtSplit(t, p, name, [MessageCharacters.Gt]);
    AtSlice(t, p, name);
    AtChar(t, p + |name|, MessageCharacters.Gt);
    MessageCharacters.NamesPrefixFree();
    MessageCharacters.NamesPlainLow();
    MessageCharacters.NamesPlainHigh();
    forall j | 0 <= j < k ensures !(MessageCharacters.NameAt(j) <= t[p..]) {
      var other := MessageCharacters.NameAt(j);
      assert !(other <= name) && MessageCharacters.Gt !in other;
      assert t[p..][|name|] == MessageCharacters.Gt;
      PrefixFacts(other, name, t[p..]);
    }
  }

  // Which alternative of `Part` decides, by the character at `p`.

  lemma PartAtTilde(t: JString, p: nat)
    requires p < |t| && t[p] == Tilde
    ensures PartAt(t, p) == EccBlockAt(t, p)
  {
  }

  lemma PartAtBang(t: JString, p: nat)
    requires p < |t| && t[p] == Bang
    ensures PartAt(t, p) == EccCalcAt(t, p)
  {
  }

  lemma PartAtBracket(t: JString, p: nat)
    requires p < |t| && t[p] == LeftBracket
    ensures PartAt(t, p) == OptionalAt(t, p)
  {
  }

  lemma PartAtParen(t: JString, p: nat)
    requires p < |t| && t[p] == LeftParen
    ensures PartAt(t, p) == ArrayAt(t, p)
  {
  }

  lemma PartAtBrace(t: JString, p: nat)
    requires p < |t| && t[p] == LeftBrace
    ensures PartAt(t, p) == FieldAt(t, p)
  {
  }

  lemma PartAtLt(t: JString, p: nat)
    requires p < |t| && t[p] == MessageCharacters.Lt
    ensures PartAt(t, p) == SymbolAt(t, p)
  {
  }

  lemma PartAtText(t: JString, p: nat)
    requires p < |t| && (t[p] == Escape || !IsControl(t[p]))
    ensures PartAt(t, p) == LiteralAt(t, p)
  {
  }

  /** A printed node other than a literal opens with a control character. */
  lemma PrintOpensWithControl(n: Node)
    requires !n.Literal?
    ensures |PrintNode(n)| > 0 && IsControl(PrintNode(n)[0])
  {
  }

  /** The template `p` continues with after a printed node: a literal needs a control character or the end. */
  predicate Follows(t: JString, q: nat, n: Node)
  {
    q <= |t| && (n.Literal? ==> q == |t| || IsControl(t[q]))
  }

  // When each rule matches, stated on the facts it tests.

  lemma PartsFromStep(t: JString, p: nat, done: seq<Node>, n: Node, q: nat)
    requires p <= |t| && PartAt(t, p) == Matched(n, q)
    ensures PartsFrom(t, p, done) == PartsFrom(t, q, done + [n])
  {
  }

  lemma PartsFromStop(t: JString, p: nat, done: seq<Node>)
    requires done != [] && EndsMessage(t, p)
    ensures PartsFrom(t, p, done) == Matched(done, p)
  {
    NoPartAtEnd(t, p);
  }

  lemma SymbolAtWhen(t: JString, p: nat, k: nat, name: JString)
    requires p < |t| && t[p] == MessageCharacters.Lt
    requires k < MessageCharacters.Count && MessageCharacters.NameAt(k) == name
    requires At(t, p + 1, name + [MessageCharacters.Gt])
    ensures SymbolAt(t, p) == Matched(Symbol(name), p + 2 + |name|)
  {
    FirstNameOf(t, p + 1, k, name);
  }

  lemma FieldAtSized(t: JString, p: nat, d: nat, name: JString, length: nat)
    requires p < |t| && t[p] == LeftBrace && p + 1 < d < |t| && DigitsEnd(t, p + 1) == d
    requires Decimal(t, p + 1, d) == length <= MaxInt && t[d] == Colon
    requires d + 1 + |name| < |t| && t[d + 1..d + 1 + |name|] == name && name != []
    requires IdentifierStart(t[d + 1]) && IdentifierEnd(t, d + 2) == d + 1 + |name|
    requires t[d + 1 + |name|] == RightBrace
    ensures FieldAt(t, p) == Matched(Field(name, length), d + 2 + |name|)
  {
  }

  lemma FieldAtUnsized(t: JString, p: nat, e: nat)
    requires p < |t| && t[p] == LeftBrace && p + 1 < e < |t| && DigitsEnd(t, p + 1) == p + 1
    requires IdentifierStart(t[p + 1]) && IdentifierEnd(t, p + 2) == e && t[e] == RightBrace
    ensures FieldAt(t, p) == Matched(Field(t[p + 1..e], -1), e + 1)
  {
  }

  lemma OptionalAtWhen(t: JString, p: nat, body: seq<Node>, q: nat)
    requires p < |t| && t[p] == LeftBracket && MessageAt(t, p + 1) == Matched(body, q)
    requires q < |t| && t[q] == RightBracket
    ensures OptionalAt(t, p) == Matched(Optional(body), q + 1)
  {
  }

  lemma ArrayAtWhen(t: JString, p: nat, body: seq<Node>, q: nat, e: nat, delimiter: JString)
    requires p < |t| && t[p] == LeftParen && MessageAt(t, p + 1) == Matched(body, q)
    requires q < |t| && t[q] == Colon && q + 1 < e < |t| && RunEnd(t, q + 1, Only(RightParen)) == e
    requires t[q + 1..e] == delimiter && MessageCharacters.Lt !in delimiter && t[e] == RightParen
    ensures ArrayAt(t, p) == Matched(Array(delimiter, body), e + 1)
  {
    MessageCharacters.ParseWithoutLt(delimiter);
  }

  /**
   * Whatever its raw text, an array's delimiter is that text with each
   * `<NAME>` expanded, and a name that is not declared aborts the parse.
   */
  lemma ArrayAtParsed(t: JString, p: nat, body: seq<Node>, q: nat, e: nat, delimiter: JString)
    requires p < |t| && t[p] == LeftParen && MessageAt(t, p + 1) == Matched(body, q)
    requires q < |t| && t[q] == Colon && q + 1 < e < |t| && RunEnd(t, q + 1, Only(RightParen)) == e
    requires MessageCharacters.Parse(t[q + 1..e]) == Ok(delimiter) && t[e] == RightParen
    ensures ArrayAt(t, p) == Matched(Array(delimiter, body), e + 1)
  {
  }

  lemma ArrayAtAborts(t: JString, p: nat, body: seq<Node>, q: nat, e: nat)
    requires p < |t| && t[p] == LeftParen && MessageAt(t, p + 1) == Matched(body, q)
    requires q < |t| && t[q] == Colon && q + 1 < e <= |t| && RunEnd(t, q + 1, Only(RightParen)) == e
    requires MessageCharacters.Parse(t[q + 1..e]).Err?
    ensures ArrayAt(t, p) == Aborted
  {
  }

  /** An array delimited by `<CR><LF>` is delimited by carriage return and line feed. */
  lemma ArrayAtCrLf(t: JString, p: nat, body: seq<Node>, q: nat)
    requires p < |t| && t[p] == LeftParen && MessageAt(t, p + 1) == Matched(body, q)
    requires q < |t| && t[q] == Colon
    requires At(t, q + 1, [MessageCharacters.Lt, 0x43, 0x52, MessageCharacters.Gt, MessageCharacters.Lt, 0x4C, 0x46, MessageCharacters.Gt, RightParen])
    ensures ArrayAt(t, p) == Matched(Array([0x0D, 0x0A], body), q + 10)
  {
    var raw: JString := [MessageCharacters.Lt, 0x43, 0x52, MessageCharacters.Gt, MessageCharacters.Lt, 0x4C, 0x46, MessageCharacters.Gt];
    assert raw + [RightParen] == [MessageCharacters.Lt, 0x43, 0x52, MessageCharacters.Gt, MessageCharacters.Lt, 0x4C, 0x46, MessageCharacters.Gt, RightParen];
    AtThen(t, q + 1, raw, RightParen);
    AtSlice(t, q + 1, raw);
    RunOverRaw(t, q + 1, raw, RightParen);
    MessageCharacters.ParseCrLf();
    ArrayAtParsed(t, p, body, q, q + 9, [0x0D, 0x0A]);
  }

  lemma EccBlockAtWhen(t: JString, p: nat, body: seq<Node>, q: nat, e: nat)
    requires p < |t| && t[p] == Tilde && MessageAt(t, p + 1) == Matched(body, q)
    requires q < |t| && t[q] == Colon && q + 1 < e < |t| && RunEnd(t, q + 1, Only(Tilde)) == e
    requires t[e] == Tilde
    ensures EccBlockAt(t, p) == Matched(EccBlock(t[q + 1..e], body), e + 1)
  {
  }

  lemma EccCalcAtWhen(t: JString, p: nat, e: nat)
    requires p < |t| && t[p] == Bang && p + 1 < e < |t| && RunEnd(t, p + 1, Only(Bang)) == e
    requires t[e] == Bang
    ensures EccCalcAt(t, p) == Matched(EccCalc(t[p + 1..e]), e + 1)
  {
  }

  // Printed pieces read back.

  /** Raw text followed by its stop character is read as one run. */
  lemma RawOfPrint(t: JString, p: nat, s: JString, stop: JChar)
    requires IsRaw(s, stop) && stop != Escape && At(t, p, s + [stop])
    ensures p + |s| < |t| && t[p + |s|] == stop && t[p..p + |s|] == s
    ensures RunEnd(t, p, Only(stop)) == p + |s|
  {
    AtThen(t, p, s, stop);
    RunOverRaw(t, p, s, stop);
  }

  /** A Java identifier followed by `}` is read as the field name. */
  lemma NameOfPrint(t: JString, p: nat, name: JString)
    requires IsIdentifier(name) && At(t, p, name + [RightBrace])
    ensures p + |name| < |t| && t[p + |name|] == RightBrace && t[p..p + |name|] == name
    ensures IdentifierStart(t[p]) && !IsDigit(t[p])
    ensures IdentifierEnd(t, p + 1) == p + |name|
  {
    AtThen(t, p, name, RightBrace);
    assert [name[0]] + name[1..] == name;
    AtSplit(t, p, [name[0]], name[1..]);
    AtChar(t, p, name[0]);
    IdentifierOver(t, p + 1, name[1..]);
  }

  /** A printed message followed by `c`, where a message may stop, is read back up to `c`. */
  lemma BodyOfPrint(t: JString, p: nat, body: seq<Node>, c: JChar)
    requires Canonical(body) && (c == RightBracket || c == Colon) && At(t, p, Print(body) + [c])
    ensures p + |Print(body)| < |t| && t[p + |Print(body)|] == c
    ensures MessageAt(t, p) == Matched(body, p + |Print(body)|)
    decreases body, 3
  {
    AtThen(t, p, Print(body), c);
    PartsOfPrint(t, p, body, []);
    assert [] + body == body;
  }

  /** The parts after a literal open with a control character. */
  lemma RestOpensWithControl(t: JString, q: nat, rest: seq<Node>)
    requires rest != [] && !rest[0].Literal? && At(t, q, Print(rest))
    ensures q < |t| && IsControl(t[q])
  {
    PrintOpensWithControl(rest[0]);
    var head := PrintNode(rest[0]);
    assert Print(rest) == [head[0]] + (head[1..] + Print(rest[1..]));
    AtAfter(t, q, head[0], head[1..] + Print(rest[1..]));
  }

  /** The first part of canonical parts is canonical, and so are the others. */
  lemma CanonicalTail(ns: seq<Node>)
    requires ns != [] && CanonicalParts(ns)
    ensures CanonicalNode(ns[0]) && CanonicalParts(ns[1..])
    ensures |ns| > 1 && ns[0].Literal? ==> !ns[1].Literal?
  {
    var rest := ns[1..];
    forall i | 0 <= i < |rest| ensures CanonicalNode(rest[i]) {
      assert rest[i] == ns[i + 1];
    }
    forall i, j | 0 <= i && j == i + 1 < |rest| ensures !(rest[i].Literal? && rest[j].Literal?) {
      assert rest[i] == ns[i + 1] && rest[j] == ns[j + 1];
    }
  }

  /** Where the first of printed parts ends, and what follows it. */
  lemma PartsLayout(t: JString, p: nat, ns: seq<Node>)
    requires ns != [] && (|ns| > 1 && ns[0].Literal? ==> !ns[1].Literal?)
    requires At(t, p, Print(ns)) && EndsMessage(t, p + |Print(ns)|)
    ensures At(t, p, PrintNode(ns[0])) && At(t, p + |PrintNode(ns[0])|, Print(ns[1..]))
    ensures p + |PrintNode(ns[0])| + |Print(ns[1..])| == p + |Print(ns)|
    ensures Follows(t, p + |PrintNode(ns[0])|, ns[0])
  {
    PrintSplit(t, p, ns);
    FirstFollowed(t, p + |PrintNode(ns[0])|, ns);
  }

  /** Printed parts are the first part's text followed by the others'. */
  lemma PrintSplit(t: JString, p: nat, ns: seq<Node>)
    requires ns != [] && At(t, p, Print(ns))
    ensures At(t, p, PrintNode(ns[0])) && At(t, p + |PrintNode(ns[0])|, Print(ns[1..]))
    ensures p + |PrintNode(ns[0])| + |Print(ns[1..])| == p + |Print(ns)|
  {
    assert Print(ns) == PrintNode(ns[0]) + Print(ns[1..]);
    AtSplit(t, p, PrintNode(ns[0]), Print(ns[1..]));
  }

  /** What follows the first printed part lets a literal stop there. */
  lemma FirstFollowed(t: JString, q: nat, ns: seq<Node>)
    requires ns != [] && (|ns| > 1 && ns[0].Literal? ==> !ns[1].Literal?)
    requires At(t, q, Print(ns[1..])) && EndsMessage(t, q + |Print(ns[1..])|)
    ensures Follows(t, q, ns[0])
  {
    if ns[0].Literal? {
      if ns[1..] == [] {
        EndIsControl(t, q);
      } else {
        RestOpensWithControl(t, q, ns[1..]);
      }
    }
  }

  /** Where a message may stop, a literal may stop too. */
  lemma EndIsControl(t: JString, q: nat)
    requires EndsMessage(t, q)
    ensures q == |t| || IsControl(t[q])
  {
  }

  /** Parsing the printed parts of a message from `p` gives back the parts. */
  lemma {:induction false} PartsOfPrint(t: JString, p: nat, ns: seq<Node>, done: seq<Node>)
    requires CanonicalParts(ns) && done + ns != []
    requires At(t, p, Print(ns)) && EndsMessage(t, p + |Print(ns)|)
    ensures PartsFrom(t, p, done) == Matched(done + ns, p + |Print(ns)|)
    decreases ns, 2
  {
    if ns == [] {
      assert done + ns == done;
      PartsFromStop(t, p, done);
    } else {
      var n, rest := ns[0], ns[1..];
      CanonicalTail(ns);
      PartsLayout(t, p, ns);
      var q := p + |PrintNode(n)|;
      assert done + [n] + rest == done + ns;
      PartsOfPrint(t, q, rest, done + [n]);
      FirstPartOfPrint(t, p, done, n);
    }
  }

  /** Reading the first printed part moves the message on past it. */
  lemma FirstPartOfPrint(t: JString, p: nat, done: seq<Node>, n: Node)
    requires CanonicalNode(n) && At(t, p, PrintNode(n)) && Follows(t, p + |PrintNode(n)|, n)
    ensures PartsFrom(t, p, done) == PartsFrom(t, p + |PrintNode(n)|, done + [n])
    decreases n, 2
  {
    PartOfPrint(t, p, n);
    PartsFromStep(t, p, done, n, p + |PrintNode(n)|);
  }

  /** Parsing a printed node from `p` gives back the node. */
  lemma PartOfPrint(t: JString, p: nat, n: Node)
    requires CanonicalNode(n) && At(t, p, PrintNode(n)) && Follows(t, p + |PrintNode(n)|, n)
    ensures PartAt(t, p) == Matched(n, p + |PrintNode(n)|)
    decreases n, 1
  {
    match n
    case Literal(text) =>
      LiteralOfPrint(t, p, text);
      PartAtText(t, p);
    case Symbol(name) =>
      SymbolOfPrint(t, p, name);
      PartAtLt(t, p);
    case Field(name, length) =>
      FieldOfPrint(t, p, name, length);
      PartAtBrace(t, p);
    case Optional(body) =>
      OptionalOfPrint(t, p, n);
      PartAtBracket(t, p);
    case Array(delimiter, body) =>
      ArrayOfPrint(t, p, n);
      PartAtParen(t, p);
    case EccBlock(reference, body) =>
      EccBlockOfPrint(t, p, n);
      PartAtTilde(t, p);
    case EccCalc(reference) =>
      EccCalcOfPrint(t, p, reference);
      PartAtBang(t, p);
  }

  lemma LiteralOfPrint(t: JString, p: nat, text: JString)
    requires text != [] && At(t, p, EscapedText(text)) && Follows(t, p + |EscapedText(text)|, Literal(text))
    ensures p < |t| && (t[p] == Escape || !IsControl(t[p]))
    ensures LiteralAt(t, p) == Matched(Literal(text), p + |EscapedText(text)|)
  {
    RunOverEscaped(t, p, text);
    var c := text[0];
    assert EscapedText(text)[0] == (if IsControl(c) || c == Escape then Escape else c);
    assert t[p] == EscapedText(text)[0];
  }

  lemma SymbolOfPrint(t: JString, p: nat, name: JString)
    requires IsName(name) && At(t, p, PrintNode(Symbol(name)))
    ensures p < |t| && t[p] == MessageCharacters.Lt
    ensures SymbolAt(t, p) == Matched(Symbol(name), p + |PrintNode(Symbol(name))|)
  {
    var k :| 0 <= k < MessageCharacters.Count && MessageCharacters.NameAt(k) == name;
    assert PrintNode(Symbol(name)) == [MessageCharacters.Lt] + (name + [MessageCharacters.Gt]);
    AtAfter(t, p, MessageCharacters.Lt, name + [MessageCharacters.Gt]);
    SymbolAtWhen(t, p, k, name);
  }

  lemma FieldOfPrint(t: JString, p: nat, name: JString, length: int)
    requires IsIdentifier(name) && -1 <= length <= MaxInt
    requires At(t, p, PrintNode(Field(name, length)))
    ensures p < |t| && t[p] == LeftBrace
    ensures FieldAt(t, p) == Matched(Field(name, length), p + |PrintNode(Field(name, length))|)
  {
    if length >= 0 {
      SizedFieldOfPrint(t, p, name, length);
    } else {
      assert PrintNode(Field(name, length)) == [LeftBrace] + (name + [RightBrace]);
      AtAfter(t, p, LeftBrace, name + [RightBrace]);
      NameOfPrint(t, p + 1, name);
      FieldAtUnsized(t, p, p + 1 + |name|);
    }
  }

  lemma SizedFieldOfPrint(t: JString, p: nat, name: JString, length: nat)
    requires IsIdentifier(name) && length <= MaxInt
    requires At(t, p, PrintNode(Field(name, length)))
    ensures p < |t| && t[p] == LeftBrace
    ensures FieldAt(t, p) == Matched(Field(name, length), p + |PrintNode(Field(name, length))|)
  {
    SizedFieldShape(name, length);
    var d := p + 1 + |DecimalText(length)|;
    SizedFieldLayout(t, p, name, length, d);
    FieldAtSized(t, p, d, name, length);
  }

  lemma SizedFieldShape(name: JString, length: nat)
    ensures PrintNode(Field(name, length)) == [LeftBrace] + (DecimalText(length) + ([Colon] + (name + [RightBrace])))
    ensures |PrintNode(Field(name, length))| == |DecimalText(length)| + |name| + 3
  {
  }

  /** Where the pieces of a printed field with a length are: the length ends at `d`. */
  lemma SizedFieldLayout(t: JString, p: nat, name: JString, length: nat, d: nat)
    requires IsIdentifier(name) && At(t, p, [LeftBrace] + (DecimalText(length) + ([Colon] + (name + [RightBrace]))))
    requires d == p + 1 + |DecimalText(length)|
    ensures p < |t| && t[p] == LeftBrace && p + 1 < d < |t| && DigitsEnd(t, p + 1) == d
    ensures Decimal(t, p + 1, d) == length && t[d] == Colon
    ensures d + 1 + |name| < |t| && t[d + 1..d + 1 + |name|] == name && name != []
    ensures IdentifierStart(t[d + 1]) && IdentifierEnd(t, d + 2) == d + 1 + |name|
    ensures t[d + 1 + |name|] == RightBrace
  {
    LengthLayout(t, p, length, name + [RightBrace]);
    NameOfPrint(t, d + 1, name);
  }

  /** Where the length of a printed field ends, and what it reads as. */
  lemma LengthLayout(t: JString, p: nat, length: nat, rest: JString)
    requires At(t, p, [LeftBrace] + (DecimalText(length) + ([Colon] + rest)))
    ensures var d := p + 1 + |DecimalText(length)|;
      p < |t| && t[p] == LeftBrace && d < |t| && t[d] == Colon && At(t, d + 1, rest) &&
      DigitsEnd(t, p + 1) == d && Decimal(t, p + 1, d) == length
  {
    var ds := DecimalText(length);
    AtAfter(t, p, LeftBrace, ds + ([Colon] + rest));
    AtSplit(t, p + 1, ds, [Colon] + rest);
    AtAfter(t, p + 1 + |ds|, Colon, rest);
    DigitsOver(t, p + 1, ds);
    DecimalOfText(t, p + 1, length);
  }

  lemma OptionalOfPrint(t: JString, p: nat, n: Node)
    requires n.Optional? && Canonical(n.body) && At(t, p, PrintNode(n))
    ensures p < |t| && t[p] == LeftBracket
    ensures OptionalAt(t, p) == Matched(n, p + |PrintNode(n)|)
    decreases n, 0
  {
    var b := Print(n.body);
    assert PrintNode(n) == [LeftBracket] + (b + [RightBracket]);
    AtAfter(t, p, LeftBracket, b + [RightBracket]);
    BodyOfPrint(t, p + 1, n.body, RightBracket);
    OptionalAtWhen(t, p, n.body, p + 1 + |b|);
  }

  lemma ArrayOfPrint(t: JString, p: nat, n: Node)
    requires n.Array? && CanonicalNode(n) && At(t, p, PrintNode(n))
    ensures p < |t| && t[p] == LeftParen
    ensures ArrayAt(t, p) == Matched(n, p + |PrintNode(n)|)
    decreases n, 0
  {
    assert PrintNode(n) == [LeftParen] + ((Print(n.body) + [Colon]) + (n.delimiter + [RightParen]));
    EnclosedLayout(t, p, LeftParen, n.body, n.delimiter, RightParen);
    ArrayAtWhen(t, p, n.body, p + 1 + |Print(n.body)|, p + 2 + |Print(n.body)| + |n.delimiter|, n.delimiter);
  }

  lemma EccBlockOfPrint(t: JString, p: nat, n: Node)
    requires n.EccBlock? && CanonicalNode(n) && At(t, p, PrintNode(n))
    ensures p < |t| && t[p] == Tilde
    ensures EccBlockAt(t, p) == Matched(n, p + |PrintNode(n)|)
    decreases n, 0
  {
    assert PrintNode(n) == [Tilde] + ((Print(n.body) + [Colon]) + (n.reference + [Tilde]));
    EnclosedLayout(t, p, Tilde, n.body, n.reference, Tilde);
    EccBlockAtWhen(t, p, n.body, p + 1 + |Print(n.body)|, p + 2 + |Print(n.body)| + |n.reference|);
  }

  /** Where the pieces of a printed `open body : raw close` are, as the array and block rules test them. */
  lemma EnclosedLayout(t: JString, p: nat, open: JChar, body: seq<Node>, raw: JString, close: JChar)
    requires Canonical(body) && IsRaw(raw, close) && close != Escape
    requires At(t, p, [open] + ((Print(body) + [Colon]) + (raw + [close])))
    ensures p < |t| && t[p] == open
    ensures MessageAt(t, p + 1) == Matched(body, p + 1 + |Print(body)|)
    ensures p + 1 + |Print(body)| < |t| && t[p + 1 + |Print(body)|] == Colon
    ensures p + 2 + |Print(body)| < p + 2 + |Print(body)| + |raw| < |t|
    ensures RunEnd(t, p + 2 + |Print(body)|, Only(close)) == p + 2 + |Print(body)| + |raw|
    ensures t[p + 2 + |Print(body)|..p + 2 + |Print(body)| + |raw|] == raw
    ensures t[p + 2 + |Print(body)| + |raw|] == close
    decreases body, 4
  {
    var b := Print(body);
    AtAfter(t, p, open, (b + [Colon]) + (raw + [close]));
    AtSplit(t, p + 1, b + [Colon], raw + [close]);
    BodyOfPrint(t, p + 1, body, Colon);
    RawOfPrint(t, p + 2 + |b|, raw, close);
  }

  lemma EccCalcOfPrint(t: JString, p: nat, reference: JString)
    requires IsRaw(reference, Bang) && At(t, p, PrintNode(EccCalc(reference)))
    ensures p < |t| && t[p] == Bang
    ensures EccCalcAt(t, p) == Matched(EccCalc(reference), p + |PrintNode(EccCalc(reference))|)
  {
    assert PrintNode(EccCalc(reference)) == [Bang] + (reference + [Bang]);
    AtAfter(t, p, Bang, reference + [Bang]);
    RawOfPrint(t, p + 1, reference, Bang);
    EccCalcAtWhen(t, p, p + 1 + |reference|);
  }

  /** Printing a canonical parse tree gives a template that parses back to it. */
  lemma ParsePrint(ns: seq<Node>)
    requires Canonical(ns)
    ensures Parse(Print(ns)) == Ok(ns)
  {
    var t := Print(ns);
    assert At(t, 0, t);
    PartsOfPrint(t, 0, ns, []);
    assert [] + ns == ns;
  }
}
