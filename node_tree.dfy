/**
 * The node tree a template compiles to, and what a node can ask about it.
 *
 * The tree is the root's parts as the grammar returns them. A node is
 * addressed by its path: the child indices from the root, so `[]` is the root,
 * `p + [k]` the k-th child of `p`, and the parent of `p` is `p` without its
 * last index. What a Java node keeps in its own fields, and changes during a
 * walk, lives in a slot per path:
 *  - `text`: the field's, array's or checksum nodes' `content`/`eccBlock`/`ecc`;
 *  - `length`: a field's `length`;
 *  - `failed`: an optional's `optionalFailure`;
 *  - `index`: an array's `arrayPosition`.
 */
module NodeTree {
  import opened JavaText
  import opened Failures
  import MessageCharacters
  import MP = MessageParser

  type Path = seq<nat>

  datatype Slot = Slot(text: Option<JString>, length: int, failed: bool, index: int)

  /** The state of a node whose fields were never assigned: Java's default values. */
  const Blank := Slot(None, 0, false, 0)

  type Slots = map<Path, Slot>

  function Get(s: Slots, p: Path): Slot
  {
    if p in s then s[p] else Blank
  }

  /** The children of a composite node; leaves have none. */
  function Children(n: MP.Node): seq<MP.Node>
  {
    match n
    case Optional(body) => body
    case Array(_, body) => body
    case EccBlock(_, body) => body
    case _ => []
  }

  function Parent(p: Path): Path
    requires p != []
  {
    p[..|p| - 1]
  }

  function Last(p: Path): nat
    requires p != []
  {
    p[|p| - 1]
  }

  /** The node at a non-empty path, if there is one. */
  function NodeAt(parts: seq<MP.Node>, p: Path): Option<MP.Node>
    decreases |p|
  {
    if p == [] || p[0] >= |parts| then None
    else if |p| == 1 then Some(parts[p[0]])
    else NodeAt(Children(parts[p[0]]), p[1..])
  }

  /** The children of the node at `p`: the parts for the root. */
  function ChildrenAt(parts: seq<MP.Node>, p: Path): seq<MP.Node>
  {
    if p == [] then parts
    else match NodeAt(parts, p)
      case Some(n) => Children(n)
      case None => []
  }

  /** The k-th child of the node at `p` is at `p + [k]`. */
  lemma {:induction false} ChildAt(parts: seq<MP.Node>, p: Path, k: nat)
    requires k < |ChildrenAt(parts, p)|
    ensures NodeAt(parts, p + [k]) == Some(ChildrenAt(parts, p)[k])
    decreases |p|
  {
    if p == [] {
      assert p + [k] == [k];
    } else {
      assert (p + [k])[0] == p[0] && (p + [k])[1..] == p[1..] + [k];
      if |p| > 1 {
        ChildAt(Children(parts[p[0]]), p[1..], k);
      }
    }
  }

  /** The Java classes a node is looked up by. */
  datatype NodeClass = OptionalClass | ArrayClass | EccBlockClass | FieldClass

  predicate IsA(n: MP.Node, c: NodeClass)
  {
    match c
    case OptionalClass => n.Optional?
    case ArrayClass => n.Array?
    case EccBlockClass => n.EccBlock?
    case FieldClass => n.Field?
  }

  /** The node at `p` exists and belongs to class `c`. */
  predicate Matches(parts: seq<MP.Node>, p: Path, c: NodeClass)
  {
    NodeAt(parts, p).Some? && IsA(NodeAt(parts, p).value, c)
  }

  /**
   * `findParent`: the node itself if it is of class `c`, else the nearest
   * ancestor that is; the root, a plain node, never is.
   */
  function FindParent(parts: seq<MP.Node>, p: Path, c: NodeClass): (r: Option<Path>)
    ensures r.Some? ==> r.value <= p && Matches(parts, r.value, c)
    ensures r.Some? ==> forall k | |r.value| < k <= |p| :: !Matches(parts, p[..k], c)
    ensures r.None? ==> forall k | 0 < k <= |p| :: !Matches(parts, p[..k], c)
    decreases |p|
  {
    if p == [] then None
    else if Matches(parts, p, c) then Some(p)
    else
      var up := FindParent(parts, Parent(p), c);
      assert forall k | 0 <= k <= |p| - 1 :: Parent(p)[..k] == p[..k];
      assert p[..|p|] == p;
      up
  }

  // ---------------------------------------------------------------------
  // Content and length

  /** The character a symbol node stands for; the grammar only builds declared names. */
  function SymbolText(name: JString): JString
  {
    match MessageCharacters.NameToCharacter(name)
    case Some(c) => [c]
    case None => []
  }

  /** `isDefined`: fields and arrays once they hold content, optionals until they fail, all others always. */
  predicate Defined(s: Slots, n: MP.Node, p: Path)
  {
    match n
    case Field(_, _) => Get(s, p).text.Some?
    case Array(_, _) => Get(s, p).text.Some?
    case Optional(_) => !Get(s, p).failed
    case _ => true
  }

  /** `getContent`: what a node currently reads as; `None` is Java's null. */
  function Content(s: Slots, n: MP.Node, p: Path): Option<JString>
    decreases n, 1
  {
    match n
    case Literal(text) => Some(text)
    case Symbol(name) => Some(SymbolText(name))
    case Field(_, _) => Get(s, p).text
    case Optional(body) => if Get(s, p).failed then Some([]) else Some(ChildrenContent(s, body, p, 0))
    case Array(_, _) => Get(s, p).text
    case EccBlock(_, _) => Get(s, p).text
    case EccCalc(_) => Get(s, p).text
  }

  function OrEmpty(o: Option<JString>): JString
  {
    if o.Some? then o.value else []
  }

  /**
   * `ParserNode.getContent` from the k-th child on: the children's contents
   * concatenated, null read as "", up to the first child that is not defined.
   */
  function ChildrenContent(s: Slots, kids: seq<MP.Node>, p: Path, k: nat): JString
    requires k <= |kids|
    decreases kids, 0, |kids| - k
  {
    if k == |kids| || !Defined(s, kids[k], p + [k]) then []
    else OrEmpty(Content(s, kids[k], p + [k])) + ChildrenContent(s, kids, p, k + 1)
  }

  /** The children's contents from `k` to `j`, all of them. */
  function ContentsBetween(s: Slots, kids: seq<MP.Node>, p: Path, k: nat, j: nat): JString
    requires k <= j <= |kids|
    decreases j - k
  {
    if k == j then [] else OrEmpty(Content(s, kids[k], p + [k])) + ContentsBetween(s, kids, p, k + 1, j)
  }

  /** A composite's content is the concatenation up to, and excluding, its first undefined child. */
  lemma {:induction false} ContentStopsAtUndefined(s: Slots, kids: seq<MP.Node>, p: Path, k: nat, j: nat)
    requires k <= j <= |kids|
    requires forall i | k <= i < j :: Defined(s, kids[i], p + [i])
    requires j == |kids| || !Defined(s, kids[j], p + [j])
    ensures ChildrenContent(s, kids, p, k) == ContentsBetween(s, kids, p, k, j)
    decreases j - k
  {
    if k < j {
      ContentStopsAtUndefined(s, kids, p, k + 1, j);
    }
  }

  /** `getLength`: what a node currently spans; a null content is dereferenced. */
  function Length(s: Slots, n: MP.Node, p: Path): (r: Result<int>)
    ensures r.Err? ==> r.failure == NullReference
    decreases n, 1
  {
    match n
    case Literal(text) => Ok(|text|)
    case Symbol(_) => Ok(1)
    case Field(_, _) => Ok(Get(s, p).length)
    case Optional(body) => if Get(s, p).failed then Ok(0) else LengthsBetween(s, body, p, 0, |body|)
    case Array(_, _) => TextLength(Get(s, p).text)
    case EccBlock(_, _) => TextLength(Get(s, p).text)
    case EccCalc(_) => TextLength(Get(s, p).text)
  }

  function TextLength(text: Option<JString>): Result<int>
  {
    if text.Some? then Ok(|text.value|) else Err(NullReference)
  }

  /** The sum of the lengths of the children `k` to `i`, left to right. */
  function LengthsBetween(s: Slots, kids: seq<MP.Node>, p: Path, k: nat, i: nat): (r: Result<int>)
    requires k <= i <= |kids|
    ensures r.Err? ==> r.failure == NullReference
    decreases kids, 0, i - k
  {
    if k == i then Ok(0)
    else
      match Length(s, kids[k], p + [k])
      case Err(f) => Err(f)
      case Ok(l) =>
        match LengthsBetween(s, kids, p, k + 1, i)
        case Err(f) => Err(f)
        case Ok(rest) => Ok(l + rest)
  }

  /** Adding one more child to the sum adds its length. */
  lemma {:induction false} LengthsSnoc(s: Slots, kids: seq<MP.Node>, p: Path, k: nat, i: nat)
    requires k <= i < |kids|
    ensures LengthsBetween(s, kids, p, k, i + 1).Ok? <==>
      LengthsBetween(s, kids, p, k, i).Ok? && Length(s, kids[i], p + [i]).Ok?
    ensures LengthsBetween(s, kids, p, k, i + 1).Ok? ==>
      LengthsBetween(s, kids, p, k, i + 1).value ==
      LengthsBetween(s, kids, p, k, i).value + Length(s, kids[i], p + [i]).value
    decreases i - k
  {
    if k < i {
      LengthsSnoc(s, kids, p, k + 1, i);
    }
  }

  /** Once a prefix of the sum fails, every longer one fails too. */
  lemma {:induction false} LengthsFailFrom(s: Slots, kids: seq<MP.Node>, p: Path, j: nat, i: nat)
    requires j <= i <= |kids| && LengthsBetween(s, kids, p, 0, j).Err?
    ensures LengthsBetween(s, kids, p, 0, i).Err?
    decreases i - j
  {
    if j < i {
      LengthsFailFrom(s, kids, p, j, i - 1);
      LengthsSnoc(s, kids, p, 0, i - 1);
    }
  }

  /**
   * `getPosition`: the sum of the left siblings' lengths, that is, where the
   * node starts in the window its parent passed down. The root starts at 0.
   */
  function Position(parts: seq<MP.Node>, s: Slots, p: Path): Result<int>
  {
    if p == [] then Ok(0)
    else
      var siblings := ChildrenAt(parts, Parent(p));
      LengthsBetween(s, siblings, Parent(p), 0, if Last(p) <= |siblings| then Last(p) else |siblings|)
  }

  /** Each node starts where its left sibling ends. */
  lemma PositionStep(parts: seq<MP.Node>, s: Slots, p: Path, k: nat)
    requires k + 1 < |ChildrenAt(parts, p)|
    ensures Position(parts, s, p + [k + 1]).Ok? <==>
      Position(parts, s, p + [k]).Ok? && Length(s, ChildrenAt(parts, p)[k], p + [k]).Ok?
    ensures Position(parts, s, p + [k + 1]).Ok? ==>
      Position(parts, s, p + [k + 1]).value ==
      Position(parts, s, p + [k]).value + Length(s, ChildrenAt(parts, p)[k], p + [k]).value
  {
    assert Parent(p + [k + 1]) == p && Last(p + [k + 1]) == k + 1;
    assert Parent(p + [k]) == p && Last(p + [k]) == k;
    LengthsSnoc(s, ChildrenAt(parts, p), p, 0, k);
  }

  /** The first child starts at 0. */
  lemma PositionFirst(parts: seq<MP.Node>, s: Slots, p: Path)
    requires 0 < |ChildrenAt(parts, p)|
    ensures Position(parts, s, p + [0]) == Ok(0)
  {
    assert Parent(p + [0]) == p && Last(p + [0]) == 0;
  }

  // ---------------------------------------------------------------------
  // Siblings and the end of a node's window

  /** The first sibling from index `k` on that is not skipped. */
  function FirstFrom(siblings: seq<MP.Node>, k: nat, skipOptional: bool): (r: Option<nat>)
    ensures r.Some? ==> k <= r.value < |siblings| && !(skipOptional && siblings[r.value].Optional?)
    ensures r.Some? ==> forall j | k <= j < r.value :: skipOptional && siblings[j].Optional?
    ensures r.None? ==> forall j | k <= j < |siblings| :: skipOptional && siblings[j].Optional?
    decreases |siblings| - k
  {
    if k >= |siblings| then None
    else if skipOptional && siblings[k].Optional? then FirstFrom(siblings, k + 1, skipOptional)
    else Some(k)
  }

  /** `getFollowingNode`: the index of the first right sibling, skipping optionals if asked. */
  function FollowingNode(parts: seq<MP.Node>, p: Path, skipOptional: bool): Option<nat>
    requires p != []
  {
    FirstFrom(ChildrenAt(parts, Parent(p)), Last(p) + 1, skipOptional)
  }

  /** `getFollowingContent`: that sibling's content, or null when there is none. */
  function FollowingContent(parts: seq<MP.Node>, s: Slots, p: Path, skipOptional: bool): Option<JString>
    requires p != []
  {
    match FollowingNode(parts, p, skipOptional)
    case None => None
    case Some(k) => Content(s, ChildrenAt(parts, Parent(p))[k], Parent(p) + [k])
  }

  /** `getLastPreviousContent`: the content of the node's last child. */
  function LastChildContent(s: Slots, n: MP.Node, p: Path): Option<JString>
    requires Children(n) != []
  {
    var kids := Children(n);
    Content(s, kids[|kids| - 1], p + [|kids| - 1])
  }

  /** Where a non-null anchor ends a window opened at `pos`: its next occurrence, or `pos` itself. */
  function AnchorEnd(message: JString, pos: int, anchor: JString): int
  {
    if |anchor| > 0 then
      var e := IndexOf(message, anchor, pos);
      if e >= 0 then e else pos
    else pos
  }

  /**
   * The four-argument `getEnd`: an anchor decides by itself; without one, a
   * node with children (when reverse search is on) ends just after the next
   * occurrence of its last child's content, which must not be null; otherwise
   * the window runs to the end of the message.
   */
  function GetEnd4(s: Slots, n: MP.Node, p: Path, message: JString, pos: int, searchFor: Option<JString>, reverse: bool): Result<int>
  {
    if searchFor.Some? then Ok(AnchorEnd(message, pos, searchFor.value))
    else if reverse && Children(n) != [] then
      match LastChildContent(s, n, p)
      case None => Err(NullReference)
      case Some(last) => Ok(AnchorEnd(message, pos, last) + |last|)
    else Ok(|message|)
  }

  /**
   * `getEnd(message, position)`: the anchor is the next sibling's content. An
   * optional retries with the first following non-optional when its anchor is
   * missing, and never searches its own children.
   */
  function GetEnd(parts: seq<MP.Node>, s: Slots, n: MP.Node, p: Path, message: JString, pos: int): Result<int>
    requires p != []
  {
    var following := FollowingContent(parts, s, p, false);
    if n.Optional? then
      var anchor :=
        if following.Some? && |following.value| > 0 && IndexOf(message, following.value, pos) == -1
        then FollowingContent(parts, s, p, true) else following;
      GetEnd4(s, n, p, message, pos, anchor, false)
    else GetEnd4(s, n, p, message, pos, following, true)
  }

  /** A found anchor ends the window at its first occurrence from `pos`; a missing one leaves it empty. */
  lemma AnchorEndSpec(message: JString, pos: nat, anchor: JString)
    requires pos <= |message|
    ensures pos <= AnchorEnd(message, pos, anchor) <= |message|
    ensures |anchor| > 0 && AnchorEnd(message, pos, anchor) > pos ==>
      OccursAt(message, anchor, AnchorEnd(message, pos, anchor))
    ensures |anchor| > 0 ==> forall k | pos <= k < AnchorEnd(message, pos, anchor) :: !OccursAt(message, anchor, k)
    ensures |anchor| > 0 && (exists k | pos <= k :: OccursAt(message, anchor, k)) ==>
      OccursAt(message, anchor, AnchorEnd(message, pos, anchor))
    ensures |anchor| == 0 ==> AnchorEnd(message, pos, anchor) == pos
  {
    if |anchor| > 0 && IndexOf(message, anchor, pos) == -1 {
      assert forall k :: pos <= k ==> !OccursAt(message, anchor, k);
    }
  }

  /**
   * A node other than an optional with no right sibling: a leaf's window runs
   * to the end of the message; a composite's ends just after the first
   * occurrence of its last child's content, and a null content fails.
   */
  lemma UnanchoredEnd(parts: seq<MP.Node>, s: Slots, n: MP.Node, p: Path, message: JString, pos: nat, last: JString)
    requires p != [] && pos <= |message| && !n.Optional?
    requires FollowingContent(parts, s, p, false).None?
    ensures Children(n) == [] ==> GetEnd(parts, s, n, p, message, pos) == Ok(|message|)
    ensures Children(n) != [] && LastChildContent(s, n, p).None? ==> GetEnd(parts, s, n, p, message, pos) == Err(NullReference)
    ensures (Children(n) != [] && LastChildContent(s, n, p) == Some(last) && |last| > 0 &&
      exists k | pos <= k :: OccursAt(message, last, k)) ==>
      GetEnd(parts, s, n, p, message, pos).Ok? &&
      OccursAt(message, last, GetEnd(parts, s, n, p, message, pos).value - |last|) &&
      forall k | pos <= k < GetEnd(parts, s, n, p, message, pos).value - |last| :: !OccursAt(message, last, k)
  {
    assert GetEnd(parts, s, n, p, message, pos) == GetEnd4(s, n, p, message, pos, None, true);
    if Children(n) != [] && LastChildContent(s, n, p) == Some(last) {
      assert GetEnd(parts, s, n, p, message, pos) == Ok(AnchorEnd(message, pos, last) + |last|);
      AnchorEndSpec(message, pos, last);
    }
  }

  /**
   * An optional's window: up to its right sibling's content; when that
   * content is missing from `pos` on, up to the first following sibling that
   * is not an optional; and to the end of the message without an anchor. It
   * never searches its own children.
   */
  lemma OptionalEnd(parts: seq<MP.Node>, s: Slots, body: seq<MP.Node>, p: Path, message: JString, pos: nat, anchor: JString)
    requires p != [] && pos <= |message|
    ensures FollowingContent(parts, s, p, false).None? ==> GetEnd(parts, s, MP.Optional(body), p, message, pos) == Ok(|message|)
    ensures (FollowingContent(parts, s, p, false) == Some(anchor) && |anchor| > 0 &&
      exists k | pos <= k :: OccursAt(message, anchor, k)) ==>
      GetEnd(parts, s, MP.Optional(body), p, message, pos).Ok? &&
      OccursAt(message, anchor, GetEnd(parts, s, MP.Optional(body), p, message, pos).value)
    ensures (FollowingContent(parts, s, p, false).Some? && |FollowingContent(parts, s, p, false).value| > 0 &&
      (forall k | pos <= k :: !OccursAt(message, FollowingContent(parts, s, p, false).value, k)) &&
      FollowingContent(parts, s, p, true) == Some(anchor)) ==>
      GetEnd(parts, s, MP.Optional(body), p, message, pos) == Ok(AnchorEnd(message, pos, anchor))
  {
    var following := FollowingContent(parts, s, p, false);
    if following.Some? && |following.value| > 0 {
      AnchorEndSpec(message, pos, following.value);
      if forall k | pos <= k :: !OccursAt(message, following.value, k) {
        assert IndexOf(message, following.value, pos) == -1;
      } else {
        assert IndexOf(message, following.value, pos) != -1;
      }
    }
  }

  /**
   * `extractDelimiteredMessage`: the window from the node's position to its
   * end; bounds Java's `substring` rejects raise IndexOutOfBounds.
   */
  function Extract(parts: seq<MP.Node>, s: Slots, n: MP.Node, p: Path, message: JString): (r: Result<JString>)
    requires p != []
    ensures r.Err? ==> r.failure == NullReference || r.failure == IndexOutOfBounds
    ensures r.Ok? ==> Position(parts, s, p).Ok? && 0 <= Position(parts, s, p).value <= |message| - |r.value|
    ensures r.Ok? ==> r.value == message[Position(parts, s, p).value..Position(parts, s, p).value + |r.value|]
  {
    match Position(parts, s, p)
    case Err(f) => Err(f)
    case Ok(pos) =>
      match GetEnd(parts, s, n, p, message, pos)
      case Err(f) => Err(f)
      case Ok(end) => if SubstringBounds(message, pos, end) then Ok(message[pos..end]) else Err(IndexOutOfBounds)
  }

  // ---------------------------------------------------------------------
  // Searching the tree

  /** A node of the template together with where it sits. */
  datatype Located = Located(path: Path, node: MP.Node)

  /**
   * `getFilteredChildren`: the descendants of class `c` below the children
   * `kids[k..]` of `p`, in pre-order.
   */
  function Filtered(kids: seq<MP.Node>, p: Path, c: NodeClass, k: nat): seq<Located>
    requires k <= |kids|
    decreases kids, |kids| - k
  {
    if k == |kids| then []
    else
      var below := match kids[k]
        case Optional(body) => Filtered(body, p + [k], c, 0)
        case Array(_, body) => Filtered(body, p + [k], c, 0)
        case EccBlock(_, body) => Filtered(body, p + [k], c, 0)
        case _ => [];
      (if IsA(kids[k], c) then [Located(p + [k], kids[k])] else []) + below + Filtered(kids, p, c, k + 1)
  }

  /** `getFilteredNodes`: every node of class `c` in the tree, in pre-order from the root. */
  function FilteredNodes(parts: seq<MP.Node>, c: NodeClass): seq<Located>
  {
    Filtered(parts, [], c, 0)
  }

  /** `q` lies strictly below `p`. */
  predicate Below(p: Path, q: Path)
  {
    |p| < |q| && q[..|p|] == p
  }

  /** Each of `qs` lies below `p`, is the node at its path, and belongs to the class `c`. */
  predicate LocatedBelow(parts: seq<MP.Node>, p: Path, c: NodeClass, qs: seq<Located>)
  {
    forall q | q in qs :: Below(p, q.path) && NodeAt(parts, q.path) == Some(q.node) && IsA(q.node, c)
  }

  /** Every node the search returns lies below the start and belongs to the class. */
  lemma {:induction false} FilteredSound(parts: seq<MP.Node>, p: Path, kids: seq<MP.Node>, c: NodeClass, k: nat)
    requires kids == ChildrenAt(parts, p) && k <= |kids|
    ensures LocatedBelow(parts, p, c, Filtered(kids, p, c, k))
    decreases kids, |kids| - k
  {
    if k < |kids| {
      FilteredSound(parts, p, kids, c, k + 1);
      ChildFilteredSound(parts, p, kids, c, k);
      OwnLocatedBelow(parts, p, kids, c, k);
      FilteredUnfold(kids, p, c, k);
      var own := if IsA(kids[k], c) then [Located(p + [k], kids[k])] else [];
      var below := Filtered(Children(kids[k]), p + [k], c, 0);
      LocatedBelowAppend(parts, p, c, own, below);
      LocatedBelowAppend(parts, p, c, own + below, Filtered(kids, p, c, k + 1));
    }
  }

  /** What the search finds below the k-th child lies below `p` and belongs to the class. */
  lemma {:induction false} ChildFilteredSound(parts: seq<MP.Node>, p: Path, kids: seq<MP.Node>, c: NodeClass, k: nat)
    requires kids == ChildrenAt(parts, p) && k < |kids|
    ensures LocatedBelow(parts, p, c, Filtered(Children(kids[k]), p + [k], c, 0))
    decreases kids, 0
  {
    ChildAt(parts, p, k);
    match kids[k] {
      case Optional(b) => FilteredSound(parts, p + [k], b, c, 0);
      case Array(_, b) => FilteredSound(parts, p + [k], b, c, 0);
      case EccBlock(_, b) => FilteredSound(parts, p + [k], b, c, 0);
      case _ =>
    }
    LocatedBelowLift(parts, p, k, c, Filtered(Children(kids[k]), p + [k], c, 0));
  }

  /** One step of the search: the k-th child, what lies below it, then the later children. */
  lemma FilteredUnfold(kids: seq<MP.Node>, p: Path, c: NodeClass, k: nat)
    requires k < |kids|
    ensures Filtered(kids, p, c, k) ==
      (if IsA(kids[k], c) then [Located(p + [k], kids[k])] else []) +
      Filtered(Children(kids[k]), p + [k], c, 0) + Filtered(kids, p, c, k + 1)
  {
  }

  /** The child itself, when it belongs to the class. */
  lemma OwnLocatedBelow(parts: seq<MP.Node>, p: Path, kids: seq<MP.Node>, c: NodeClass, k: nat)
    requires kids == ChildrenAt(parts, p) && k < |kids|
    ensures LocatedBelow(parts, p, c, if IsA(kids[k], c) then [Located(p + [k], kids[k])] else [])
  {
    ChildAt(parts, p, k);
    assert (p + [k])[..|p|] == p;
  }

  /** What lies below a child of `p` lies below `p`. */
  lemma LocatedBelowLift(parts: seq<MP.Node>, p: Path, k: nat, c: NodeClass, qs: seq<Located>)
    requires LocatedBelow(parts, p + [k], c, qs)
    ensures LocatedBelow(parts, p, c, qs)
  {
    forall q | q in qs ensures Below(p, q.path) {
      assert q.path[..|p|] == q.path[..|p + [k]|][..|p|];
    }
  }

  lemma LocatedBelowAppend(parts: seq<MP.Node>, p: Path, c: NodeClass, a: seq<Located>, b: seq<Located>)
    requires LocatedBelow(parts, p, c, a) && LocatedBelow(parts, p, c, b)
    ensures LocatedBelow(parts, p, c, a + b)
  {
  }

  /** A node of class `c` that is a child of `p` is found. */
  lemma FilteredFindsChild(kids: seq<MP.Node>, p: Path, c: NodeClass, k: nat, j: nat)
    requires k <= j < |kids| && IsA(kids[j], c)
    ensures Located(p + [j], kids[j]) in Filtered(kids, p, c, k)
    decreases j - k
  {
    if k < j {
      FilteredFindsChild(kids, p, c, k + 1, j);
    }
  }

  // ---------------------------------------------------------------------
  // Reset

  /** What a node's own `reset` clears. */
  function ResetSlot(n: MP.Node, old_: Slot): (r: Slot)
  {
    match n
    case Field(_, fieldLength) => old_.(text := None, length := fieldLength)
    case Optional(_) => old_.(failed := false)
    case Array(_, _) => old_.(text := None, index := 0)
    case EccBlock(_, _) => old_.(text := None)
    case EccCalc(_) => old_.(text := None)
    case _ => old_
  }

  /** `reset`: the node's children first, then its own fields. */
  function Reset(s: Slots, n: MP.Node, p: Path): Slots
    decreases n, 1
  {
    match n
    case Literal(_) => s
    case Symbol(_) => s
    case Field(_, _) => s[p := ResetSlot(n, Get(s, p))]
    case EccCalc(_) => s[p := ResetSlot(n, Get(s, p))]
    case Optional(body) => var t := ResetChildren(s, body, p, 0); t[p := ResetSlot(n, Get(t, p))]
    case Array(_, body) => var t := ResetChildren(s, body, p, 0); t[p := ResetSlot(n, Get(t, p))]
    case EccBlock(_, body) => var t := ResetChildren(s, body, p, 0); t[p := ResetSlot(n, Get(t, p))]
  }

  /** `resetChildren`: reset each child from the k-th on, in order. */
  function ResetChildren(s: Slots, kids: seq<MP.Node>, p: Path, k: nat): Slots
    requires k <= |kids|
    decreases kids, 0, |kids| - k
  {
    if k == |kids| then s else ResetChildren(Reset(s, kids[k], p + [k]), kids, p, k + 1)
  }

  /** Resetting a node touches no slot outside its subtree, and clears its own. */
  lemma {:induction false} ResetFrame(s: Slots, n: MP.Node, p: Path)
    ensures forall q | !Below(p, q) && q != p :: Get(Reset(s, n, p), q) == Get(s, q)
    ensures Get(Reset(s, n, p), p) == ResetSlot(n, Get(s, p))
    decreases n, 1
  {
    match n
    case Literal(_) =>
    case Symbol(_) =>
    case Field(_, _) =>
    case EccCalc(_) =>
    case Optional(body) => ResetChildrenFrame(s, body, p, 0);
    case Array(_, body) => ResetChildrenFrame(s, body, p, 0);
    case EccBlock(_, body) => ResetChildrenFrame(s, body, p, 0);
  }

  /**
   * Resetting the children from the k-th on touches only slots strictly
   * below the parent, and there only those of the k-th child and later ones.
   */
  lemma {:induction false} ResetChildrenFrame(s: Slots, kids: seq<MP.Node>, p: Path, k: nat)
    requires k <= |kids|
    ensures forall q | !Below(p, q) :: Get(ResetChildren(s, kids, p, k), q) == Get(s, q)
    ensures forall q | Below(p, q) && q[|p|] < k :: Get(ResetChildren(s, kids, p, k), q) == Get(s, q)
    decreases kids, 0, |kids| - k
  {
    if k < |kids| {
      var t := Reset(s, kids[k], p + [k]);
      ResetFrame(s, kids[k], p + [k]);
      ResetChildrenFrame(t, kids, p, k + 1);
      BelowChild(p, k);
    }
  }

  /** A child lies below its parent, and so does everything below the child, under the child's index. */
  lemma BelowChild(p: Path, k: nat)
    ensures Below(p, p + [k]) && (p + [k])[|p|] == k
    ensures forall q | Below(p + [k], q) :: Below(p, q) && q[|p|] == k
  {
    assert (p + [k])[..|p|] == p;
    forall q | Below(p + [k], q)
      ensures Below(p, q) && q[|p|] == k
    {
      assert q[..|p|] == q[..|p + [k]|][..|p|];
      assert q[|p|] == q[..|p + [k]|][|p|];
    }
  }

  /**
   * `reset` recurses into every node below: after resetting the node at `p`,
   * each node in its subtree holds its own reset of what it held before.
   */
  lemma ResetDescendants(parts: seq<MP.Node>, s: Slots, n: MP.Node, p: Path)
    requires NodeAt(parts, p) == Some(n)
    ensures forall q | Below(p, q) && NodeAt(parts, q).Some? ::
      Get(Reset(s, n, p), q) == ResetSlot(NodeAt(parts, q).value, Get(s, q))
  {
    ResetBelow(s, n, p);
    forall q | Below(p, q) && NodeAt(parts, q).Some?
      ensures Get(Reset(s, n, p), q) == ResetSlot(NodeAt(parts, q).value, Get(s, q))
    {
      var r := q[|p|..];
      assert q == p + r;
      NodeAtBelow(parts, p, n, r);
    }
  }

  /** The node at `p + r` is the node at `r` inside the node at `p`. */
  lemma {:induction false} NodeAtBelow(parts: seq<MP.Node>, p: Path, n: MP.Node, r: Path)
    requires NodeAt(parts, p) == Some(n) && r != []
    ensures NodeAt(parts, p + r) == NodeAt(Children(n), r)
    decreases |p|
  {
    assert (p + r)[0] == p[0] && (p + r)[1..] == p[1..] + r;
    if |p| > 1 {
      NodeAtBelow(Children(parts[p[0]]), p[1..], n, r);
    } else {
      assert p[1..] + r == r;
    }
  }

  /** `Reset` in terms of paths inside the node: each node at `r` below `n` is reset at `p + r`. */
  lemma {:induction false} ResetBelow(s: Slots, n: MP.Node, p: Path)
    ensures forall r | NodeAt(Children(n), r).Some? ::
      Get(Reset(s, n, p), p + r) == ResetSlot(NodeAt(Children(n), r).value, Get(s, p + r))
    decreases n, 1
  {
    match n
    case Literal(_) =>
    case Symbol(_) =>
    case Field(_, _) =>
    case EccCalc(_) =>
    case Optional(body) => ResetChildrenBelow(s, body, p, 0); LongerPaths(p);
    case Array(_, body) => ResetChildrenBelow(s, body, p, 0); LongerPaths(p);
    case EccBlock(_, body) => ResetChildrenBelow(s, body, p, 0); LongerPaths(p);
  }

  lemma LongerPaths(p: Path)
    ensures forall r: Path | r != [] :: p + r != p
  {
    forall r: Path | r != []
      ensures p + r != p
    {
      assert |p + r| > |p|;
    }
  }

  /** `ResetChildren` from the k-th child on resets every node below those children. */
  lemma {:induction false} ResetChildrenBelow(s: Slots, kids: seq<MP.Node>, p: Path, k: nat)
    requires k <= |kids|
    ensures forall r | NodeAt(kids, r).Some? && r[0] >= k ::
      Get(ResetChildren(s, kids, p, k), p + r) == ResetSlot(NodeAt(kids, r).value, Get(s, p + r))
    decreases kids, 0, |kids| - k
  {
    if k < |kids| {
      var t := Reset(s, kids[k], p + [k]);
      ResetChildrenBelow(t, kids, p, k + 1);
      ResetChildrenFrame(t, kids, p, k + 1);
      ResetFrame(s, kids[k], p + [k]);
      ResetBelow(s, kids[k], p + [k]);
      BelowChild(p, k);
      forall r | NodeAt(kids, r).Some? && r[0] >= k
        ensures Get(ResetChildren(s, kids, p, k), p + r) == ResetSlot(NodeAt(kids, r).value, Get(s, p + r))
      {
        assert (p + r)[..|p|] == p && (p + r)[|p|] == r[0];
        if r[0] == k {
          if |r| == 1 {
            assert p + r == p + [k];
          } else {
            assert p + r == (p + [k]) + r[1..];
          }
        } else {
          assert p + r != p + [k];
          assert !Below(p + [k], p + r);
        }
      }
    }
  }

  /** A failed optional reads as empty, spans nothing and stops its parent's content. */
  lemma FailedOptional(s: Slots, body: seq<MP.Node>, p: Path)
    requires Get(s, p).failed
    ensures Content(s, MP.Optional(body), p) == Some([])
    ensures Length(s, MP.Optional(body), p) == Ok(0)
    ensures !Defined(s, MP.Optional(body), p)
  {
  }

  /**
   * The state of a freshly built tree. A composite node's constructor resets
   * it, and with it its whole subtree; the root and the leaves directly under
   * it are never reset, so a field there starts with length 0, not -1.
   */
  function Initial(parts: seq<MP.Node>): Slots
  {
    InitialFrom(parts, 0, map[])
  }

  function InitialFrom(parts: seq<MP.Node>, k: nat, s: Slots): Slots
    requires k <= |parts|
    decreases |parts| - k
  {
    if k == |parts| then s
    else
      var n := parts[k];
      InitialFrom(parts, k + 1, if n.Optional? || n.Array? || n.EccBlock? then Reset(s, n, [k]) else s)
  }
}
