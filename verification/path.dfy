/**
 * The path helpers of the bundled Emscripten runtime (`PATH`): the
 * normalisation of a list of path segments, `normalize`, `basename` and
 * `dirname`.  Paths are strings with '/' as the only separator.
 */
module Path {
  import opened JsString

  /** A segment other than "." and "..". */
  predicate Plain(p: string)
  {
    p != "." && p != ".."
  }

  /** The result of `normalizeArray`'s right-to-left pass: the kept segments and the ".." not yet cancelled. */
  datatype Scan = Scan(kept: seq<string>, up: nat)

  /**
   * The loop of `normalizeArray`, which walks the segments from the last to
   * the first: "." is removed, ".." is removed and counted, and a plain
   * segment is removed while a counted ".." remains to cancel it.
   */
  function ScanBack(parts: seq<string>): (r: Scan)
    ensures forall p | p in r.kept :: Plain(p) && p in parts
  {
    if |parts| == 0 then Scan([], 0)
    else Push(parts[0], ScanBack(parts[1..]))
  }

  /** One turn of the loop: segment p, seen after (to the left of) the segments already scanned into r. */
  function Push(p: string, r: Scan): (r': Scan)
    ensures forall q | q in r'.kept :: q in r.kept || (q == p && Plain(p))
  {
    if p == "." then r
    else if p == ".." then Scan(r.kept, r.up + 1)
    else if r.up > 0 then Scan(r.kept, r.up - 1)
    else Scan([p] + r.kept, 0)
  }

  /** n copies of "..". */
  function Dots(n: nat): (d: seq<string>)
    ensures |d| == n && forall i | 0 <= i < n :: d[i] == ".."
  {
    if n == 0 then [] else [".."] + Dots(n - 1)
  }

  /**
   * `normalizeArray`: the segments with "." dropped and each ".." cancelling
   * the nearest plain segment before it; uncancelled ".." are kept in front
   * only when the path may climb above its root.
   */
  function NormalizeArray(parts: seq<string>, allowAboveRoot: bool): (r: seq<string>)
    ensures "." !in r
    ensures forall i, j | 0 <= i < j < |r| :: r[i] != ".." ==> r[j] != ".."
    ensures !allowAboveRoot ==> ".." !in r
    ensures forall p | p in r :: p == ".." || p in parts
  {
    Stack(ScanBack(parts), allowAboveRoot)
  }

  /** The segment list a pass leaves: the uncancelled ".." (if allowed) before the kept segments. */
  function Stack(s: Scan, allowAboveRoot: bool): (r: seq<string>)
    requires forall p | p in s.kept :: Plain(p)
    ensures "." !in r
    ensures forall i, j | 0 <= i < j < |r| :: r[i] != ".." ==> r[j] != ".."
    ensures !allowAboveRoot ==> ".." !in r
    ensures forall p | p in r :: p == ".." || p in s.kept
  {
    var front := if allowAboveRoot then Dots(s.up) else [];
    var r := front + s.kept;
    forall i | 0 <= i < |r|
      ensures if i < |front| then r[i] == ".." else r[i] in s.kept && Plain(r[i])
    {
      if i >= |front| {
        assert r[i] == s.kept[i - |front|];
      }
    }
    r
  }

  /** A list already in normal form: leading ".." then plain segments. */
  predicate Normal(parts: seq<string>)
  {
    "." !in parts && forall i, j | 0 <= i < j < |parts| :: parts[i] != ".." ==> parts[j] != ".."
  }

  /** The pass over plain segments keeps them all. */
  lemma {:induction false} ScanBackPlain(parts: seq<string>)
    requires forall p | p in parts :: Plain(p)
    ensures ScanBack(parts) == Scan(parts, 0)
  {
    if |parts| > 0 {
      assert parts[0] in parts;
      assert forall p | p in parts[1..] :: p in parts;
      ScanBackPlain(parts[1..]);
      assert [parts[0]] + parts[1..] == parts;
    }
  }

  /** Leading ".." in front of plain segments are all counted and none cancels anything. */
  lemma {:induction false} ScanBackNormal(n: nat, parts: seq<string>)
    requires forall p | p in parts :: Plain(p)
    ensures ScanBack(Dots(n) + parts) == Scan(parts, n)
  {
    if n == 0 {
      assert Dots(0) + parts == parts;
      ScanBackPlain(parts);
    } else {
      ScanBackNormal(n - 1, parts);
      assert (Dots(n) + parts)[1..] == Dots(n - 1) + parts;
      assert (Dots(n) + parts)[0] == "..";
    }
  }

  /** A normal list splits into its leading ".." and its plain rest. */
  lemma NormalShape(parts: seq<string>) returns (n: nat)
    requires Normal(parts)
    ensures n <= |parts| && parts == Dots(n) + parts[n..]
    ensures forall p | p in parts[n..] :: Plain(p)
  {
    n := 0;
    while n < |parts| && parts[n] == ".."
      invariant n <= |parts|
      invariant parts[..n] == Dots(n)
    {
      assert parts[..n + 1] == parts[..n] + [".."];
      assert Dots(n + 1) == Dots(n) + [".."] by {
        DotsSnoc(n);
      }
      n := n + 1;
    }
    assert parts == parts[..n] + parts[n..];
    forall p | p in parts[n..]
      ensures Plain(p)
    {
      var k :| n <= k < |parts| && parts[k] == p;
      assert parts[k] != ".." by {
        if n < |parts| {
          assert parts[n] != "..";
        }
      }
    }
  }

  /** One more ".." at the end. */
  lemma {:induction false} DotsSnoc(n: nat)
    ensures Dots(n + 1) == Dots(n) + [".."]
  {
    if n > 0 {
      DotsSnoc(n - 1);
    }
  }

  /** `normalizeArray` is idempotent. */
  lemma NormalizeArrayIdempotent(parts: seq<string>, allowAboveRoot: bool)
    ensures NormalizeArray(NormalizeArray(parts, allowAboveRoot), allowAboveRoot) == NormalizeArray(parts, allowAboveRoot)
  {
    var r := NormalizeArray(parts, allowAboveRoot);
    NormalizeArrayFixes(r, allowAboveRoot);
  }

  /** A normal list is left as it is (without "..", when climbing above the root is not allowed). */
  lemma NormalizeArrayFixes(parts: seq<string>, allowAboveRoot: bool)
    requires Normal(parts)
    requires !allowAboveRoot ==> ".." !in parts
    ensures NormalizeArray(parts, allowAboveRoot) == parts
  {
    var n := NormalShape(parts);
    ScanBackNormal(n, parts[n..]);
    assert n > 0 ==> parts[0] == "..";
  }

  /** Composing the right-to-left pass over two lists: the ".." left over from the right cancel the end of the left. */
  function Combine(a: Scan, b: Scan): Scan
  {
    if b.up <= |a.kept| then Scan(a.kept[..|a.kept| - b.up] + b.kept, a.up)
    else Scan(b.kept, a.up + b.up - |a.kept|)
  }

  /** The pass over a concatenation combines the passes over the pieces. */
  lemma {:induction false} ScanBackConcat(a: seq<string>, b: seq<string>)
    ensures ScanBack(a + b) == Combine(ScanBack(a), ScanBack(b))
    decreases |a|
  {
    if |a| == 0 {
      assert a + b == b;
    } else {
      assert (a + b)[1..] == a[1..] + b;
      assert (a + b)[0] == a[0];
      ScanBackConcat(a[1..], b);
      PushCombine(a[0], ScanBack(a[1..]), ScanBack(b));
    }
  }

  /** A segment in front of the left piece is handled the same before or after combining with the right piece. */
  lemma PushCombine(x: string, ra: Scan, rb: Scan)
    ensures Push(x, Combine(ra, rb)) == Combine(Push(x, ra), rb)
  {
    if x != "." && x != ".." && ra.up == 0 && rb.up <= |ra.kept| {
      assert ([x] + ra.kept)[..|ra.kept| + 1 - rb.up] == [x] + ra.kept[..|ra.kept| - rb.up];
    }
  }

  /**
   * Reference normalisation, left to right with a stack: "." is skipped,
   * ".." pops a plain segment or, with nothing to pop, is pushed (only when
   * climbing above the root is allowed), and a plain segment is pushed.
   */
  function Resolve(stack: seq<string>, p: string, allowAboveRoot: bool): seq<string>
  {
    if p == "." then stack
    else if p == ".." then
      if |stack| > 0 && stack[|stack| - 1] != ".." then stack[..|stack| - 1]
      else if allowAboveRoot then stack + [".."]
      else stack
    else stack + [p]
  }

  function ResolveAll(parts: seq<string>, allowAboveRoot: bool): seq<string>
  {
    if |parts| == 0 then []
    else Resolve(ResolveAll(parts[..|parts| - 1], allowAboveRoot), parts[|parts| - 1], allowAboveRoot)
  }

  /** The pass over a single segment. */
  lemma ScanBackSingle(p: string)
    ensures ScanBack([p]) == if p == "." then Scan([], 0) else if p == ".." then Scan([], 1) else Scan([p], 0)
  {
    assert [p][1..] == [];
    assert [p][0] == p;
  }

  /** One stack step agrees with combining the pass with the pass over that segment. */
  lemma ResolveStep(s: Scan, p: string, allowAboveRoot: bool)
    requires forall q | q in s.kept :: Plain(q)
    ensures forall q | q in Combine(s, ScanBack([p])).kept :: Plain(q)
    ensures Resolve(Stack(s, allowAboveRoot), p, allowAboveRoot) == Stack(Combine(s, ScanBack([p])), allowAboveRoot)
  {
    ScanBackSingle(p);
    if p == ".." {
      if |s.kept| > 0 {
        ResolvePop(s, allowAboveRoot);
      } else {
        ResolveClimb(s, allowAboveRoot);
      }
    } else if p != "." {
      ResolvePush(s, p, allowAboveRoot);
    }
  }

  /** ".." on a stack ending in a plain segment pops it, as the pass cancels the last kept segment. */
  lemma ResolvePop(s: Scan, allowAboveRoot: bool)
    requires forall q | q in s.kept :: Plain(q)
    requires |s.kept| > 0
    ensures forall q | q in s.kept[..|s.kept| - 1] :: Plain(q)
    ensures Resolve(Stack(s, allowAboveRoot), "..", allowAboveRoot) == Stack(Scan(s.kept[..|s.kept| - 1], s.up), allowAboveRoot)
  {
    var front := if allowAboveRoot then Dots(s.up) else [];
    var stack := front + s.kept;
    assert stack == Stack(s, allowAboveRoot);
    assert s.kept[|s.kept| - 1] in s.kept;
    assert stack[|stack| - 1] == s.kept[|s.kept| - 1];
    assert stack[..|stack| - 1] == front + s.kept[..|s.kept| - 1];
    assert forall q | q in s.kept[..|s.kept| - 1] :: q in s.kept;
  }

  /** ".." on a stack of ".." only is pushed when climbing is allowed and dropped otherwise, as the pass counts it. */
  lemma ResolveClimb(s: Scan, allowAboveRoot: bool)
    requires |s.kept| == 0
    ensures Resolve(Stack(s, allowAboveRoot), "..", allowAboveRoot) == Stack(Scan([], s.up + 1), allowAboveRoot)
  {
    var front := if allowAboveRoot then Dots(s.up) else [];
    assert Stack(s, allowAboveRoot) == front;
    assert Stack(Scan([], s.up + 1), allowAboveRoot) == if allowAboveRoot then Dots(s.up + 1) else [];
    if allowAboveRoot {
      DotsSnoc(s.up);
      assert s.up > 0 ==> front[|front| - 1] == "..";
    }
  }

  /** A plain segment is pushed, as the pass keeps it after the kept segments. */
  lemma ResolvePush(s: Scan, p: string, allowAboveRoot: bool)
    requires forall q | q in s.kept :: Plain(q)
    requires Plain(p)
    ensures Resolve(Stack(s, allowAboveRoot), p, allowAboveRoot) == Stack(Scan(s.kept + [p], s.up), allowAboveRoot)
  {
    var front := if allowAboveRoot then Dots(s.up) else [];
    assert Stack(s, allowAboveRoot) + [p] == front + (s.kept + [p]);
  }

  /** The right-to-left loop of `normalizeArray` agrees with the left-to-right stack reading. */
  lemma {:induction false} NormalizeArrayIsResolve(parts: seq<string>, allowAboveRoot: bool)
    ensures NormalizeArray(parts, allowAboveRoot) == ResolveAll(parts, allowAboveRoot)
  {
    if |parts| > 0 {
      var pre := parts[..|parts| - 1];
      var p := parts[|parts| - 1];
      NormalizeArrayIsResolve(pre, allowAboveRoot);
      assert parts == pre + [p];
      ScanBackConcat(pre, [p]);
      ResolveStep(ScanBack(pre), p, allowAboveRoot);
    }
  }

  /** The non-empty segments, in order (`filter(p => !!p)`). */
  function NonEmpty(parts: seq<string>): (r: seq<string>)
    ensures forall p | p in r :: p != "" && p in parts
  {
    if |parts| == 0 then []
    else (if parts[0] == "" then [] else [parts[0]]) + NonEmpty(parts[1..])
  }

  lemma {:induction false} NonEmptyConcat(a: seq<string>, b: seq<string>)
    ensures NonEmpty(a + b) == NonEmpty(a) + NonEmpty(b)
    decreases |a|
  {
    if |a| == 0 {
      assert a + b == b;
    } else {
      assert (a + b)[1..] == a[1..] + b;
      NonEmptyConcat(a[1..], b);
    }
  }

  lemma {:induction false} NonEmptyKeeps(parts: seq<string>)
    requires forall p | p in parts :: p != ""
    ensures NonEmpty(parts) == parts
  {
    if |parts| > 0 {
      assert parts[0] in parts;
      assert forall p | p in parts[1..] :: p in parts;
      NonEmptyKeeps(parts[1..]);
      assert [parts[0]] + parts[1..] == parts;
    }
  }

  function StartsWithSlash(s: string): bool
  {
    |s| > 0 && s[0] == '/'
  }

  function EndsWithSlash(s: string): bool
  {
    |s| > 0 && s[|s| - 1] == '/'
  }

  /** The normalised segments of a path, as `normalize` computes them. */
  function Segments(path: string): seq<string>
  {
    NormalizeArray(NonEmpty(Split(path, '/')), !StartsWithSlash(path))
  }

  /** The normalised segments are non-empty and hold no separator. */
  lemma SegmentsClean(path: string)
    ensures forall p | p in Segments(path) :: p != "" && '/' !in p
  {
  }

  /**
   * `normalize`: the segments normalised and joined; an empty relative
   * result becomes "."; a trailing slash and a leading slash are kept.
   */
  function Normalize(path: string): (r: string)
    ensures |r| > 0
    ensures StartsWithSlash(r) == StartsWithSlash(path)
  {
    BodyIsCore(path);
    Assemble(StartsWithSlash(path), Body(path), EndsWithSlash(path))
  }

  /** The leading slash (if any), the body, and a trailing slash when there is a body and one is wanted. */
  function Assemble(lead: bool, body: string, trail: bool): (r: string)
    ensures StartsWithSlash(r) == (lead || (|body| > 0 && body[0] == '/'))
  {
    (if lead then "/" else "") + (if body != "" && trail then body + "/" else body)
  }

  /** A body that does not end in a slash itself ends the assembled path in one exactly when a trailing slash was wanted. */
  lemma AssembleEnds(lead: bool, body: string, trail: bool)
    requires body != "" && !EndsWithSlash(body)
    ensures EndsWithSlash(Assemble(lead, body, trail)) == trail
  {
  }

  /** The joined segments of `normalize`, with "." for an empty relative path. */
  function Body(path: string): string
  {
    var body := Join(Segments(path), '/');
    if body == "" && !StartsWithSlash(path) then "." else body
  }

  /** The segments `Body` joins: "." stands in for an empty relative path. */
  function Core(path: string): seq<string>
  {
    if Segments(path) == [] && !StartsWithSlash(path) then ["."] else Segments(path)
  }

  lemma BodyIsCore(path: string)
    ensures forall p | p in Core(path) :: p != "" && '/' !in p
    ensures Body(path) == Join(Core(path), '/')
    ensures Body(path) == "" <==> Core(path) == []
    ensures Body(path) == "" ==> StartsWithSlash(path)
    ensures Body(path) != "" ==> Body(path)[0] != '/' && !EndsWithSlash(Body(path))
  {
    SegmentsClean(path);
    FirstCharOfClean(Segments(path));
    FirstCharOfClean(Core(path));
  }

  /** A join of non-empty, separator-free parts neither starts nor ends with the separator. */
  lemma {:induction false} FirstCharOfClean(parts: seq<string>)
    requires forall p | p in parts :: p != "" && '/' !in p
    ensures Join(parts, '/') == "" <==> |parts| == 0
    ensures Join(parts, '/') != "" ==> Join(parts, '/')[0] != '/' && !EndsWithSlash(Join(parts, '/'))
  {
    if |parts| > 1 {
      assert forall p | p in parts[1..] :: p in parts;
      FirstCharOfClean(parts[1..]);
      assert parts[0] in parts;
      var s := Join(parts, '/');
      assert s == parts[0] + ['/'] + Join(parts[1..], '/');
      assert s[0] == parts[0][0];
      assert s[|s| - 1] == Join(parts[1..], '/')[|Join(parts[1..], '/')| - 1];
    } else if |parts| == 1 {
      assert parts[0] in parts;
      assert parts[0][|parts[0]| - 1] in parts[0];
    }
  }

  lemma SplitSlashPrefix(s: string)
    ensures Split("/" + s, '/') == [""] + Split(s, '/')
  {
    var t := "/" + s;
    assert t[0] == '/';
    assert t[..0] == "" && t[1..] == s;
  }

  lemma SplitSlashSuffix(s: string)
    ensures Split(s + "/", '/') == Split(s, '/') + [""]
  {
    var parts := Split(s, '/');
    var a := parts + [""];
    JoinConcat(parts, [""], '/');
    assert Join([""], '/') == "";
    assert Join(a, '/') == s + "/";
    assert forall p | p in a :: '/' !in p;
    SplitJoin(a, '/');
  }

  /** Splitting a join of non-empty, separator-free parts and dropping empty pieces gives back the parts. */
  lemma SplitOfClean(parts: seq<string>)
    requires forall p | p in parts :: p != "" && '/' !in p
    ensures NonEmpty(Split(Join(parts, '/'), '/')) == parts
  {
    if |parts| == 0 {
      assert Split("", '/') == [""];
    } else {
      SplitJoin(parts, '/');
      NonEmptyKeeps(parts);
    }
  }

  /** The segments `normalize` sees in its own output. */
  lemma NormalizePieces(path: string)
    ensures NonEmpty(Split(Normalize(path), '/')) == Core(path)
  {
    var body := Body(path);
    BodyIsCore(path);
    SplitOfClean(Core(path));
    var body2 := if body != "" && EndsWithSlash(path) then body + "/" else body;
    if body2 != body {
      SplitSlashSuffix(body);
      NonEmptyConcat(Split(body, '/'), [""]);
      assert NonEmpty([""]) == [];
    }
    assert NonEmpty(Split(body2, '/')) == Core(path);
    if StartsWithSlash(path) {
      assert Normalize(path) == "/" + body2;
      SplitSlashPrefix(body2);
      NonEmptyConcat([""], Split(body2, '/'));
      assert NonEmpty([""]) == [];
    } else {
      assert Normalize(path) == body2;
    }
  }

  /** `normalize` computes the same segments from its own output. */
  lemma NormalizeSegmentsStable(path: string)
    ensures Segments(Normalize(path)) == Segments(path)
  {
    var segs := Segments(path);
    NormalizePieces(path);
    if segs == [] && !StartsWithSlash(path) {
      assert ScanBack(["."]) == Scan([], 0) by {
        assert ["."][1..] == [];
      }
    } else {
      NormalizeArrayFixes(segs, !StartsWithSlash(path));
    }
  }

  /** `normalize` is idempotent. */
  lemma NormalizeIdempotent(path: string)
    ensures Normalize(Normalize(path)) == Normalize(path)
  {
    var r := Normalize(path);
    NormalizeSegmentsStable(path);
    BodyIsCore(path);
    assert Body(r) == Body(path);
    if Body(path) != "" {
      AssembleEnds(StartsWithSlash(path), Body(path), EndsWithSlash(path));
    }
  }

  /**
   * `basename`: "/" for the root, otherwise everything after the last
   * slash — the longest suffix without a slash, empty when the path ends in one.
   */
  function Basename(path: string): (r: string)
    ensures path != "/" ==> '/' !in r && |r| <= |path| && r == path[|path| - |r|..]
    ensures path != "/" && |r| < |path| ==> path[|path| - |r| - 1] == '/'
  {
    if path == "/" then "/"
    else
      var k := LastIndexOf(path, '/');
      if k == -1 then path else path[k + 1..]
  }

  /** The number of trailing slashes. */
  function TrailingSlashes(s: string): (n: nat)
    ensures n <= |s|
    ensures forall k | |s| - n <= k < |s| :: s[k] == '/'
    ensures n < |s| ==> s[|s| - n - 1] != '/'
  {
    if |s| == 0 || s[|s| - 1] != '/' then 0 else 1 + TrailingSlashes(s[..|s| - 1])
  }

  /** A remainder `splitPath`'s name group and trailing-slash group can match: a slash-free name, then only slashes. */
  ghost predicate NameThenSlashes(rest: string)
  {
    exists n :: 0 <= n <= |rest| && SlashFreeBelow(rest, n) && SlashesFrom(rest, n)
  }

  predicate SlashFreeBelow(s: string, n: nat)
    requires n <= |s|
  {
    forall k | 0 <= k < n :: s[k] != '/'
  }

  predicate SlashesFrom(s: string, n: nat)
    requires n <= |s|
  {
    forall k | n <= k < |s| :: s[k] == '/'
  }

  /**
   * The length of the lazy directory group of `splitPath`'s pattern in the
   * text after the root: the shortest prefix after which only a name and
   * trailing slashes remain, i.e. everything up to the last slash that is
   * followed by a name.
   */
  function DirLength(q: string): (d: nat)
    ensures d <= |q|
  {
    LastIndexOf(q[..|q| - TrailingSlashes(q)], '/') + 1
  }

  /** `DirLength` is what the lazy group matches: the least length leaving a matchable remainder. */
  lemma DirLengthIsShortest(q: string)
    ensures NameThenSlashes(q[DirLength(q)..])
    ensures forall e | 0 <= e < DirLength(q) :: !NameThenSlashes(q[e..])
  {
    var t := |q| - TrailingSlashes(q);
    var d := DirLength(q);
    DirBounds(q, t, d);
    DirLengthMatches(q, t, d);
    forall e | 0 <= e < d
      ensures !NameThenSlashes(q[e..])
    {
      DirLengthLeast(q, t, d, e);
    }
  }

  /** Where the last name of q starts (d) and where its trailing slashes start (t). */
  lemma DirBounds(q: string, t: nat, d: nat)
    requires t == |q| - TrailingSlashes(q) && d == LastIndexOf(q[..t], '/') + 1
    ensures d <= t <= |q|
    ensures forall m | d <= m < t :: q[m] != '/'
    ensures forall m | t <= m < |q| :: q[m] == '/'
    ensures d > 0 ==> q[d - 1] == '/' && d < t && q[t - 1] != '/'
  {
    assert forall m | d <= m < t :: q[m] == q[..t][m];
  }

  /** After the first d characters only a name and trailing slashes remain. */
  lemma DirLengthMatches(q: string, t: nat, d: nat)
    requires d <= t <= |q|
    requires forall m | d <= m < t :: q[m] != '/'
    requires forall m | t <= m < |q| :: q[m] == '/'
    ensures NameThenSlashes(q[d..])
  {
    var rest := q[d..];
    assert forall k | 0 <= k < |rest| :: rest[k] == q[d + k];
    assert SlashFreeBelow(rest, t - d) && SlashesFrom(rest, t - d);
  }

  /** No shorter prefix leaves a matchable remainder: a slash before the last name is still in it. */
  lemma DirLengthLeast(q: string, t: nat, d: nat, e: nat)
    requires d <= t <= |q|
    requires d > 0 ==> q[d - 1] == '/' && d < t && q[t - 1] != '/'
    requires e < d
    ensures !NameThenSlashes(q[e..])
  {
    var rest := q[e..];
    assert rest[d - 1 - e] == '/';
    assert rest[t - 1 - e] != '/';
    forall n | 0 <= n <= |rest| && SlashFreeBelow(rest, n)
      ensures !SlashesFrom(rest, n)
    {
      assert n <= t - 1 - e;
    }
  }

  /**
   * `dirname`: the root "/" (when the path starts with one) followed by the
   * directory group of `splitPath` without its final slash; "." when both are empty.
   */
  function Dirname(path: string): (r: string)
    ensures |r| > 0
    ensures r == "." || (|r| <= |path| && r == path[..|r|])
    ensures StartsWithSlash(path) ==> StartsWithSlash(r)
  {
    var root := if StartsWithSlash(path) then "/" else "";
    var q := path[|root|..];
    var dir := q[..DirLength(q)];
    if root == "" && dir == "" then "."
    else
      var r := root + (if dir == "" then "" else dir[..|dir| - 1]);
      assert r == path[..|r|];
      r
  }

  /** The last occurrence is the one with no occurrence after it. */
  lemma LastIndexOfUnique(s: string, c: char, k: int)
    requires -1 <= k < |s| && (k >= 0 ==> s[k] == c)
    requires forall m | k < m < |s| :: s[m] != c
    ensures LastIndexOf(s, c) == k
  {
    var k' := LastIndexOf(s, c);
    assert k' >= 0 ==> k' <= k;
    assert k >= 0 ==> k <= k';
  }

  /** A path with no slash is its own basename and has "." as its dirname. */
  lemma DirnameOfName(path: string)
    requires '/' !in path
    ensures Dirname(path) == "." && Basename(path) == path
  {
    assert path != "/" by {
      assert '/' in "/";
    }
    LastIndexOfUnique(path, '/', -1);
    assert path[0..] == path;
    LastIndexOfUnique(path[..|path| - TrailingSlashes(path)], '/', -1);
  }

  /** The dirname of an absolute path is absolute. */
  lemma DirnameKeepsRoot(path: string)
    requires StartsWithSlash(path)
    ensures StartsWithSlash(Dirname(path))
  {
  }

  /**
   * Splitting at the last slash: when that slash is neither the first
   * character nor the last, dirname, a slash and basename give back the path.
   */
  lemma DirnameBasename(path: string)
    requires !EndsWithSlash(path)
    requires LastIndexOf(path, '/') > 0
    ensures Dirname(path) + "/" + Basename(path) == path
  {
    var k := LastIndexOf(path, '/');
    assert path != "/" by {
      assert |path| > 1;
    }
    BasenameAfterSlash(path, k);
    DirnameAtLastSlash(path, k);
    SplitAtSlash(path, k);
  }

  /** Apart from the root itself, the basename is what follows the last slash. */
  lemma BasenameAfterSlash(path: string, k: int)
    requires path != "/"
    requires k == LastIndexOf(path, '/') && k >= 0
    ensures Basename(path) == path[k + 1..]
  {
  }

  /** A string is the text before a slash, the slash, and the text after it. */
  lemma SplitAtSlash(path: string, k: nat)
    requires k < |path| && path[k] == '/'
    ensures path[..k] + "/" + path[k + 1..] == path
  {
    assert path[k..] == "/" + path[k + 1..];
    assert path == path[..k] + path[k..];
  }

  /** The dirname of a path without trailing slashes is the text before its last slash (when that is not the first character). */
  lemma DirnameAtLastSlash(path: string, k: nat)
    requires !EndsWithSlash(path)
    requires 0 < k < |path| && path[k] == '/' && forall m | k < m < |path| :: path[m] != '/'
    ensures Dirname(path) == path[..k]
  {
    var n := if StartsWithSlash(path) then 1 else 0;
    var q := path[n..];
    assert DirLength(q) == k - n + 1 by {
      assert q[|q| - 1] == path[|path| - 1];
      DirLengthNoTrailing(q);
      assert q[k - n] == '/';
      assert forall m | k - n < m < |q| :: q[m] == path[m + n];
      LastIndexOfUnique(q, '/', k - n);
    }
    var root := if n == 1 then "/" else "";
    var dir := q[..k - n + 1];
    assert dir != "" && dir[..|dir| - 1] == path[n..k];
    assert path[..k] == root + path[n..k];
  }

  /** Without trailing slashes the directory group ends just after the last slash. */
  lemma DirLengthNoTrailing(q: string)
    requires !EndsWithSlash(q)
    ensures DirLength(q) == LastIndexOf(q, '/') + 1
  {
    assert TrailingSlashes(q) == 0;
    assert q[..|q|] == q;
  }
}
