/**
 * `parseMultiFile`: the multimarker configuration is read as text, split
 * into lines, each line trimmed, blank and '#' comment lines dropped.  The
 * first remaining line is the marker count; the rest come in blocks of five
 * (a pattern line and four transform lines), and the first line of each
 * block is a pattern file name unless it consists of digits only (a barcode
 * id).  The count is parsed but never limits the output.
 */
module MultiConfig {
  import opened Base
  import opened JsString

  /** `bytesToString`: each byte becomes the character with the same code. */
  function BytesToString(bytes: seq<byte>): (s: string)
    ensures |s| == |bytes|
    ensures forall k | 0 <= k < |s| :: s[k] as int == bytes[k]
  {
    if |bytes| == 0 then "" else BytesToString(bytes[..|bytes| - 1]) + [bytes[|bytes| - 1] as char]
  }


  /** A line made of decimal digits only (`/^\d+$/`). */
  predicate AllDigits(t: string)
  {
    |t| > 0 && forall k | 0 <= k < |t| :: '0' <= t[k] <= '9'
  }

  /** A trimmed line the parser ignores: empty, or a '#' comment. */
  predicate Ignored(t: string)
  {
    |t| == 0 || t[0] == '#'
  }

  /** What a pattern file name can be: a trimmed line that counts and is not a number. */
  predicate FileName(t: string)
  {
    && !Ignored(t)
    && !AllDigits(t)
    && !IsWhite(t[0])
    && !IsWhite(t[|t| - 1])
  }

  /** The parser's position: 0 before the count line, 1 to 5 within a five-line block. */
  type ParseStep = n: nat | n <= 5

  datatype Parser = Parser(state: ParseStep, files: seq<string>)

  /** One `forEach` turn of the parser. */
  function Feed(p: Parser, line: string): (r: Parser)
    ensures Ignored(Trim(line)) ==> r == p
    ensures !Ignored(Trim(line)) ==> r.state == p.state % 5 + 1
    ensures r.files == p.files ||
      (p.state == 1 && !Ignored(Trim(line)) && !AllDigits(Trim(line)) && r.files == p.files + [Trim(line)])
  {
    var t := Trim(line);
    if Ignored(t) then p
    else match p.state
      case 0 => Parser(1, p.files)
      case 1 => Parser(2, if AllDigits(t) then p.files else p.files + [t])
      case 5 => Parser(1, p.files)
      case _ => Parser(p.state + 1, p.files)
  }

  /** The parser after every line of `lines`, in order. */
  function FeedAll(lines: seq<string>): (r: Parser)
    ensures |r.files| <= |lines|
    ensures forall t | t in r.files :: FileName(t)
  {
    if |lines| == 0 then Parser(0, [])
    else Feed(FeedAll(lines[..|lines| - 1]), lines[|lines| - 1])
  }

  /** `parseMultiFile`: the pattern file names of a multimarker configuration. */
  function ParseMultiFile(bytes: seq<byte>): (files: seq<string>)
    ensures |files| <= |bytes| + 1
    ensures forall t | t in files :: FileName(t)
  {
    FeedAll(Split(BytesToString(bytes), '\n')).files
  }

  /** The trimmed lines that count: neither blank nor comments, in order. */
  function Meaningful(lines: seq<string>): (m: seq<string>)
    ensures forall t | t in m :: !Ignored(t)
    ensures |m| <= |lines|
  {
    if |lines| == 0 then []
    else
      var t := Trim(lines[|lines| - 1]);
      Meaningful(lines[..|lines| - 1]) + (if Ignored(t) then [] else [t])
  }

  /**
   * The first line of every five-line block, i.e. the lines at positions
   * 0, 5, 10, ... of `b`, that are not numbers.
   */
  function BlockHeads(b: seq<string>): seq<string>
  {
    if |b| == 0 then []
    else
      var n := |b| - 1;
      BlockHeads(b[..n]) + (if n % 5 == 0 && !AllDigits(b[n]) then [b[n]] else [])
  }

  /** Reference reading of a configuration: skip the count line, then take the block heads. */
  function PatternFiles(m: seq<string>): seq<string>
  {
    if |m| == 0 then [] else BlockHeads(m[1..])
  }

  /** Appending one line to the blocks adds it to the heads exactly when it starts a new block. */
  lemma BlockHeadsSnoc(b: seq<string>, t: string)
    ensures BlockHeads(b + [t]) == BlockHeads(b) + (if |b| % 5 == 0 && !AllDigits(t) then [t] else [])
  {
    assert (b + [t])[..|b|] == b;
  }

  /** The reference reading after one more meaningful line. */
  lemma PatternFilesSnoc(m: seq<string>, t: string)
    ensures PatternFiles(m + [t]) ==
      PatternFiles(m) + (if |m| >= 1 && (|m| - 1) % 5 == 0 && !AllDigits(t) then [t] else [])
  {
    if |m| > 0 {
      assert (m + [t])[1..] == m[1..] + [t];
      BlockHeadsSnoc(m[1..], t);
    } else {
      assert (m + [t])[1..] == [];
    }
  }

  /** The parser state after n meaningful lines: 0 before the count line, then 1 to 5 cyclically. */
  function Position(n: nat): (st: ParseStep)
    ensures n == 0 <==> st == 0
  {
    if n == 0 then 0 else (n - 1) % 5 + 1
  }

  /** One line moves the parser from the reading of m to the reading of m plus that line, if it counts. */
  lemma FeedAdvances(m: seq<string>, line: string)
    ensures Feed(Parser(Position(|m|), PatternFiles(m)), line) ==
      var t := Trim(line);
      if Ignored(t) then Parser(Position(|m|), PatternFiles(m))
      else Parser(Position(|m| + 1), PatternFiles(m + [t]))
  {
    var t := Trim(line);
    if !Ignored(t) {
      PatternFilesSnoc(m, t);
    }
  }

  /**
   * The parser's state machine computes the reference reading: after any
   * prefix of lines its state is the position within the current block of
   * the meaningful lines seen, and its output is the pattern files of them.
   */
  lemma {:induction false} FeedAllIsPatternFiles(lines: seq<string>)
    ensures FeedAll(lines) == Parser(Position(|Meaningful(lines)|), PatternFiles(Meaningful(lines)))
  {
    if |lines| > 0 {
      var pre := lines[..|lines| - 1];
      var line := lines[|lines| - 1];
      var m := Meaningful(pre);
      var t := Trim(line);
      FeedAllIsPatternFiles(pre);
      FeedAdvances(m, line);
      assert FeedAll(lines) == Feed(FeedAll(pre), line);
      assert Meaningful(lines) == m + (if Ignored(t) then [] else [t]);
      if Ignored(t) {
        assert m + [] == m;
      }
    }
  }

  /** `parseMultiFile` returns the reference reading of the configuration's meaningful lines. */
  lemma ParseMultiFileIsPatternFiles(bytes: seq<byte>)
    ensures ParseMultiFile(bytes) == PatternFiles(Meaningful(Split(BytesToString(bytes), '\n')))
  {
    FeedAllIsPatternFiles(Split(BytesToString(bytes), '\n'));
  }

  /** The marker count on the first meaningful line never limits the file names returned. */
  lemma CountIgnored(m1: seq<string>, m2: seq<string>)
    requires |m1| >= 1 && |m2| >= 1 && m1[1..] == m2[1..]
    ensures PatternFiles(m1) == PatternFiles(m2)
  {
  }

  /**
   * Every file name returned is a meaningful, non-numeric line, and there is
   * one per started five-line block whose head is not a number.
   */
  lemma {:induction false} BlockHeadsAreLines(b: seq<string>)
    ensures forall t | t in BlockHeads(b) :: t in b && !AllDigits(t)
    ensures |BlockHeads(b)| <= (|b| + 4) / 5
  {
    if |b| > 0 {
      var n := |b| - 1;
      var pre := b[..n];
      var x := if n % 5 == 0 && !AllDigits(b[n]) then [b[n]] else [];
      assert BlockHeads(b) == BlockHeads(pre) + x;
      BlockHeadsAreLines(pre);
      forall t | t in BlockHeads(b)
        ensures t in b && !AllDigits(t)
      {
        if t in BlockHeads(pre) {
          assert t in pre;
        } else {
          assert t in x;
        }
      }
      BlocksStarted(n);
    }
  }

  /** Line n starts a new block exactly when the number of started blocks grows with it. */
  lemma BlocksStarted(n: nat)
    ensures (n + 5) / 5 == (n + 4) / 5 + (if n % 5 == 0 then 1 else 0)
  {
    var q := n / 5;
    var r := n % 5;
    assert n == 5 * q + r && 0 <= r < 5;
    assert n + 5 == 5 * (q + 1) + r;
    assert (n + 4) / 5 == if r == 0 then q else q + 1;
  }

  /** A line of white space only is skipped like an empty one. */
  lemma WhiteLineIgnored(line: string)
    requires forall k | 0 <= k < |line| :: IsWhite(line[k])
    ensures Ignored(Trim(line))
  {
    TrimAllWhite(line);
  }

  /** A barcode id line is never skipped and is unchanged by trimming, so it takes its block's first slot. */
  lemma DigitLineCounts(t: string)
    requires AllDigits(t)
    ensures !Ignored(t) && Trim(t) == t
  {
    TrimUnpadded(t);
  }
}
