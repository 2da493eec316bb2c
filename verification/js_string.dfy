/**
 * The few ECMAScript string operations the modelled code relies on:
 * `split` and `join` on a one-character separator, `indexOf`, and `trim`.
 */
module JsString {
  /** `Array.prototype.join`: the parts with the separator between neighbours. */
  function Join(parts: seq<string>, sep: char): string
  {
    if |parts| == 0 then "" else if |parts| == 1 then parts[0] else parts[0] + [sep] + Join(parts[1..], sep)
  }

  /** A join starts with the first part, followed by the separator when more parts follow; no parts join to "". */
  lemma JoinHead(parts: seq<string>, sep: char)
    ensures |parts| == 0 ==> Join(parts, sep) == ""
    ensures |parts| >= 1 ==> |parts[0]| <= |Join(parts, sep)| && Join(parts, sep)[..|parts[0]|] == parts[0]
    ensures |parts| >= 2 ==> |parts[0]| < |Join(parts, sep)| && Join(parts, sep)[|parts[0]|] == sep
  {
  }

  /** Index of the first occurrence of `sep` in `s`. */
  function IndexOf(s: string, sep: char): (k: nat)
    requires sep in s
    ensures k < |s| && s[k] == sep
    ensures forall m | 0 <= m < k :: s[m] != sep
  {
    if s[0] == sep then 0 else 1 + IndexOf(s[1..], sep)
  }

  /** `String.prototype.lastIndexOf` for one character: the last position of `c` in `s`, or -1. */
  function LastIndexOf(s: string, c: char): (k: int)
    ensures -1 <= k < |s|
    ensures k >= 0 ==> s[k] == c
    ensures forall m | k < m < |s| :: s[m] != c
  {
    if |s| == 0 then -1
    else if s[|s| - 1] == c then |s| - 1
    else LastIndexOf(s[..|s| - 1], c)
  }

  /** Joining a concatenation of two non-empty lists puts one separator between the two joins. */
  lemma {:induction false} JoinConcat(a: seq<string>, b: seq<string>, sep: char)
    requires |a| >= 1 && |b| >= 1
    ensures Join(a + b, sep) == Join(a, sep) + [sep] + Join(b, sep)
    decreases |a|
  {
    if |a| == 1 {
      assert (a + b)[1..] == b;
    } else {
      assert (a + b)[1..] == a[1..] + b;
      JoinConcat(a[1..], b, sep);
    }
  }

  /**
   * `String.prototype.split` with a one-character separator: the pieces
   * between separators, including empty ones, so a string with n separators
   * yields n + 1 pieces.  Joining them again gives back the string.
   */
  function Split(s: string, sep: char): (parts: seq<string>)
    ensures 1 <= |parts| <= |s| + 1
    ensures forall p | p in parts :: sep !in p
    ensures Join(parts, sep) == s
    decreases |s|
  {
    if sep !in s then [s]
    else
      var k := IndexOf(s, sep);
      var rest := Split(s[k + 1..], sep);
      assert s == s[..k] + [sep] + s[k + 1..];
      [s[..k]] + rest
  }

  /** In a separator-free prefix followed by the separator, the first separator is the one after the prefix. */
  lemma IndexOfAfter(a: string, rest: string, sep: char)
    requires sep !in a
    ensures sep in a + [sep] + rest
    ensures IndexOf(a + [sep] + rest, sep) == |a|
  {
    var s := a + [sep] + rest;
    assert s[|a|] == sep;
    assert forall m | 0 <= m < |a| :: s[m] == a[m] && s[m] != sep;
  }

  /** Splitting a separator-free piece, the separator and a rest gives the piece, then the pieces of the rest. */
  lemma SplitCons(a: string, rest: string, sep: char)
    requires sep !in a
    ensures Split(a + [sep] + rest, sep) == [a] + Split(rest, sep)
  {
    var s := a + [sep] + rest;
    IndexOfAfter(a, rest, sep);
    assert s[..|a|] == a;
    assert s[|a| + 1..] == rest;
  }

  /** Splitting a join of separator-free parts gives back the parts. */
  lemma {:induction false} SplitJoin(parts: seq<string>, sep: char)
    requires |parts| >= 1
    requires forall p | p in parts :: sep !in p
    ensures Split(Join(parts, sep), sep) == parts
    decreases |parts|
  {
    if |parts| > 1 {
      var t := parts[1..];
      var j := Join(t, sep);
      assert Join(parts, sep) == parts[0] + [sep] + j;
      assert sep !in parts[0] by {
        assert parts[0] in parts;
      }
      assert forall p | p in t :: sep !in p by {
        assert forall p | p in t :: p in parts;
      }
      SplitJoin(t, sep);
      SplitCons(parts[0], j, sep);
      assert [parts[0]] + t == parts;
    }
  }

  /** ECMAScript white space and line terminators, the characters `String.prototype.trim` removes. */
  predicate IsWhite(c: char)
  {
    var u := c as int;
    (9 <= u <= 13) || u == 32 || u == 0xA0 || u == 0x1680 || (0x2000 <= u <= 0x200A)
    || u == 0x2028 || u == 0x2029 || u == 0x202F || u == 0x205F || u == 0x3000 || u == 0xFEFF
  }

  /** Number of leading white-space characters. */
  function LeadingWhite(s: string): (n: nat)
    ensures n <= |s|
    ensures forall k | 0 <= k < n :: IsWhite(s[k])
    ensures n == |s| || !IsWhite(s[n])
  {
    if |s| == 0 || !IsWhite(s[0]) then 0 else 1 + LeadingWhite(s[1..])
  }

  /** Number of trailing white-space characters. */
  function TrailingWhite(s: string): (n: nat)
    ensures n <= |s|
    ensures forall k | |s| - n <= k < |s| :: IsWhite(s[k])
    ensures n == |s| || !IsWhite(s[|s| - n - 1])
  {
    if |s| == 0 || !IsWhite(s[|s| - 1]) then 0 else 1 + TrailingWhite(s[..|s| - 1])
  }

  /** Only white space lies outside s[a..b]. */
  predicate WhiteOutside(s: string, a: nat, b: nat)
    requires a <= b <= |s|
  {
    (forall k | 0 <= k < a :: IsWhite(s[k])) && (forall k | b <= k < |s| :: IsWhite(s[k]))
  }

  /**
   * `String.prototype.trim`: the longest infix that neither starts nor ends
   * with white space, obtained by removing only white space at both ends.
   */
  function Trim(s: string): (t: string)
    ensures |t| == 0 || (!IsWhite(t[0]) && !IsWhite(t[|t| - 1]))
    ensures exists a: nat, b: nat :: a <= b <= |s| && t == s[a..b] && WhiteOutside(s, a, b)
  {
    var a := LeadingWhite(s);
    var b := if |s| - TrailingWhite(s) < a then a else |s| - TrailingWhite(s);
    assert WhiteOutside(s, a, b);
    s[a..b]
  }

  /** Trimming is idempotent. */
  lemma TrimIdempotent(s: string)
    ensures Trim(Trim(s)) == Trim(s)
  {
    var t := Trim(s);
    if |t| > 0 {
      assert LeadingWhite(t) == 0;
      assert TrailingWhite(t) == 0;
      assert t[0..] == t;
    }
  }

  /** A string of white space only trims to the empty string. */
  lemma TrimAllWhite(s: string)
    requires forall k | 0 <= k < |s| :: IsWhite(s[k])
    ensures Trim(s) == ""
  {
    assert LeadingWhite(s) == |s|;
  }

  /** A string that neither starts nor ends with white space is its own trim. */
  lemma TrimUnpadded(s: string)
    requires |s| > 0 && !IsWhite(s[0]) && !IsWhite(s[|s| - 1])
    ensures Trim(s) == s
  {
    assert LeadingWhite(s) == 0;
    assert TrailingWhite(s) == 0;
    assert s[0..|s|] == s;
  }
}
