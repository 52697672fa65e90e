/**
 * Java strings as the codec sees them: sequences of 16-bit UTF-16 code units,
 * with the `String` search operations the node tree relies on.
 */
module JavaText {

  /** A Java `char`: one UTF-16 code unit. */
  type JChar = bv16

  /** A Java `String`: its code units in order. */
  type JString = seq<JChar>

  /** Dafny text whose every character is a single UTF-16 code unit. */
  predicate IsBmp(s: string)
  {
    forall i | 0 <= i < |s| :: s[i] as int < 0x10000
  }

  /**
   * The code unit of a character of the Basic Multilingual Plane. Printable
   * ASCII is listed case by case, so that the verifier reads the code units of
   * text literals off the table instead of converting integers to bit-vectors.
   */
  function Unit(c: char): JChar
    requires c as int < 0x10000
  {
    match c
    case ' ' => 0x20
    case '!' => 0x21
    case '"' => 0x22
    case '#' => 0x23
    case '$' => 0x24
    case '%' => 0x25
    case '&' => 0x26
    case '(' => 0x28
    case ')' => 0x29
    case '*' => 0x2A
    case '+' => 0x2B
    case ',' => 0x2C
    case '-' => 0x2D
    case '.' => 0x2E
    case '/' => 0x2F
    case '0' => 0x30
    case '1' => 0x31
    case '2' => 0x32
    case '3' => 0x33
    case '4' => 0x34
    case '5' => 0x35
    case '6' => 0x36
    case '7' => 0x37
    case '8' => 0x38
    case '9' => 0x39
    case ':' => 0x3A
    case ';' => 0x3B
    case '<' => 0x3C
    case '=' => 0x3D
    case '>' => 0x3E
    case '?' => 0x3F
    case '@' => 0x40
    case 'A' => 0x41
    case 'B' => 0x42
    case 'C' => 0x43
    case 'D' => 0x44
    case 'E' => 0x45
    case 'F' => 0x46
    case 'G' => 0x47
    case 'H' => 0x48
    case 'I' => 0x49
    case 'J' => 0x4A
    case 'K' => 0x4B
    case 'L' => 0x4C
    case 'M' => 0x4D
    case 'N' => 0x4E
    case 'O' => 0x4F
    case 'P' => 0x50
    case 'Q' => 0x51
    case 'R' => 0x52
    case 'S' => 0x53
    case 'T' => 0x54
    case 'U' => 0x55
    case 'V' => 0x56
    case 'W' => 0x57
    case 'X' => 0x58
    case 'Y' => 0x59
    case 'Z' => 0x5A
    case '[' => 0x5B
    case ']' => 0x5D
    case '^' => 0x5E
    case '_' => 0x5F
    case '`' => 0x60
    case 'a' => 0x61
    case 'b' => 0x62
    case 'c' => 0x63
    case 'd' => 0x64
    case 'e' => 0x65
    case 'f' => 0x66
    case 'g' => 0x67
    case 'h' => 0x68
    case 'i' => 0x69
    case 'j' => 0x6A
    case 'k' => 0x6B
    case 'l' => 0x6C
    case 'm' => 0x6D
    case 'n' => 0x6E
    case 'o' => 0x6F
    case 'p' => 0x70
    case 'q' => 0x71
    case 'r' => 0x72
    case 's' => 0x73
    case 't' => 0x74
    case 'u' => 0x75
    case 'v' => 0x76
    case 'w' => 0x77
    case 'x' => 0x78
    case 'y' => 0x79
    case 'z' => 0x7A
    case '{' => 0x7B
    case '|' => 0x7C
    case '}' => 0x7D
    case '~' => 0x7E
    case '\'' => 0x27
    case '\\' => 0x5C
    case _ => c as int as bv16
  }

  /** The Java string with the same characters as a Dafny text literal. */
  function J(s: string): (r: JString)
    requires IsBmp(s)
    ensures |r| == |s|
  {
    seq(|s|, i requires 0 <= i < |s| => Unit(s[i]))
  }

  /** Converting text literals commutes with concatenation. */
  lemma JAppend(a: string, b: string)
    requires IsBmp(a) && IsBmp(b)
    ensures IsBmp(a + b) && J(a + b) == J(a) + J(b)
  {
    assert IsBmp(a + b) by {
      forall i | 0 <= i < |a + b| ensures (a + b)[i] as int < 0x10000 {
        if i >= |a| { assert (a + b)[i] == b[i - |a|]; }
      }
    }
    forall i | 0 <= i < |a + b| ensures J(a + b)[i] == (J(a) + J(b))[i] {
      if i < |a| {
        assert (a + b)[i] == a[i];
      } else {
        assert (a + b)[i] == b[i - |a|];
      }
    }
  }

  /** Distinct code units have distinct numeric values. */
  lemma CodeInjective(a: JChar, b: JChar)
    ensures a as int == b as int ==> a == b
  {
    assert (a as int) as bv16 == a && (b as int) as bv16 == b;
  }

  const Space: JChar := 0x20

  /** `w` occurs in `s` starting at index `k`. */
  predicate OccursAt(s: JString, w: JString, k: int)
  {
    0 <= k && k + |w| <= |s| && s[k..k + |w|] == w
  }

  /** `String.indexOf(w, from)`: a negative start counts as 0. */
  function IndexOf(s: JString, w: JString, from: int): (r: int)
    ensures -1 <= r <= |s|
    ensures |w| > 0 ==> (r == -1 || (from <= r && OccursAt(s, w, r)))
    ensures |w| > 0 && r >= 0 ==> forall k :: from <= k < r ==> !OccursAt(s, w, k)
    ensures |w| > 0 && r == -1 ==> forall k :: from <= k ==> !OccursAt(s, w, k)
    decreases |s| - from
  {
    var f := if from < 0 then 0 else from;
    if |w| == 0 then
      (if f <= |s| then f else |s|)
    else if f + |w| > |s| then
      -1
    else if s[f..f + |w|] == w then
      f
    else
      IndexOf(s, w, f + 1)
  }

  /** Searching a suffix finds the occurrences of the whole string, shifted. */
  lemma IndexOfSuffix(s: JString, w: JString, i: nat, k: nat)
    requires i <= |s| && |w| > 0
    ensures IndexOf(s[i..], w, k) == -1 <==> IndexOf(s, w, i + k) == -1
    ensures IndexOf(s[i..], w, k) != -1 ==> IndexOf(s, w, i + k) == i + IndexOf(s[i..], w, k)
  {
    forall p | 0 <= p ensures OccursAt(s[i..], w, p) <==> OccursAt(s, w, i + p) {
      if p + |w| <= |s| - i {
        assert s[i..][p..p + |w|] == s[i + p..i + p + |w|];
      }
    }
    var r1, r2 := IndexOf(s[i..], w, k), IndexOf(s, w, i + k);
    if r2 != -1 {
      assert OccursAt(s[i..], w, r2 - i);
    }
  }

  /** `String.lastIndexOf(w)`: the last occurrence, or -1. */
  function LastIndexOf(s: JString, w: JString): (r: int)
    ensures r == -1 || (0 <= r <= |s| - |w| && OccursAt(s, w, r))
    ensures forall k :: r < k <= |s| - |w| ==> !OccursAt(s, w, k)
  {
    LastIndexFrom(s, w, |s| - |w|)
  }

  /** The last occurrence of `w` in `s` starting at or before `k`, or -1. */
  function LastIndexFrom(s: JString, w: JString, k: int): (r: int)
    ensures r == -1 || (0 <= r <= k && OccursAt(s, w, r))
    ensures forall j :: r < j <= k ==> !OccursAt(s, w, j)
    decreases k + 1
  {
    if k < 0 then -1
    else if OccursAt(s, w, k) then k
    else LastIndexFrom(s, w, k - 1)
  }

  /** `n` spaces. */
  function Spaces(n: nat): (r: JString)
    ensures |r| == n && forall i | 0 <= i < n :: r[i] == Space
  {
    seq(n, _ => Space)
  }

  /** Java's `substring(begin, end)` succeeds exactly for these bounds. */
  predicate SubstringBounds(s: JString, begin: int, end: int)
  {
    0 <= begin <= end <= |s|
  }

  /** `String.join(sep, parts)`. */
  function Join(parts: seq<JString>, sep: JString): JString
  {
    if |parts| == 0 then []
    else if |parts| == 1 then parts[0]
    else parts[0] + sep + Join(parts[1..], sep)
  }
}
