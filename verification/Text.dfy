/**
 * String and line helpers shared by the path matcher, the mailbox framer and
 * the popstate merge.  The program is Python 2, so a `str` is a byte string:
 * a character here stands for one byte, `lower()` folds ASCII letters only and
 * `rstrip()` removes the six ASCII whitespace bytes.
 */
module Text {

  datatype Option<T> = None | Some(value: T)

  /** The two Python exceptions the core can raise. */
  datatype Failure = ValueError | IndexError

  datatype Result<T> = Ok(value: T) | Err(error: Failure)

  /** Python 2 `str.lower()` on one byte: ASCII letters only. */
  function Lower(c: char): char {
    if 'A' <= c <= 'Z' then (c as int + 32) as char else c
  }

  function LowerStr(s: string): (r: string)
    ensures |r| == |s| && forall i :: 0 <= i < |s| ==> r[i] == Lower(s[i])
  {
    if s == [] then [] else [Lower(s[0])] + LowerStr(s[1..])
  }

  /** `s[:|p|].lower() == p`, byte by byte: false whenever `s` is shorter than `p`. */
  predicate PrefixIs(s: string, p: string) {
    if p == [] then true else |s| > 0 && Lower(s[0]) == p[0] && PrefixIs(s[1..], p[1..])
  }

  /** The byte-by-byte test is the slice-lower-compare of the source. */
  lemma {:induction false} PrefixIsLower(s: string, p: string)
    ensures PrefixIs(s, p) <==> |s| >= |p| && LowerStr(s[..|p|]) == p
  {
    if p != [] && |s| > 0 {
      PrefixIsLower(s[1..], p[1..]);
      if |s| >= |p| {
        var l := LowerStr(s[..|p|]);
        assert s[1..][..|p| - 1] == s[..|p|][1..];
        assert l == [l[0]] + l[1..];
        assert p == [p[0]] + p[1..];
      }
    }
  }

  /** The mbox separator test `line[:7].lower() == 'from - '`. */
  predicate IsBoundary(s: string) {
    PrefixIs(s, "from - ")
  }

  /** The header fields kept for fingerprinting: Subject, From, To, Cc. */
  predicate IsWhitelisted(s: string) {
    PrefixIs(s, "subject:") || PrefixIs(s, "from:") || PrefixIs(s, "to:") || PrefixIs(s, "cc:")
  }

  /** The bytes Python 2 `str.rstrip()` removes. */
  predicate IsSpace(c: char) {
    c == ' ' || c == '\t' || c == '\n' || c == '\r' || c == 11 as char || c == 12 as char
  }

  /** `s.rstrip()`: the longest prefix of `s` not ending in whitespace. */
  function RStrip(s: string): (r: string)
    ensures r <= s
    ensures r == [] || !IsSpace(r[|r| - 1])
    ensures forall i :: |r| <= i < |s| ==> IsSpace(s[i])
  {
    if |s| > 0 && IsSpace(s[|s| - 1]) then RStrip(s[..|s| - 1]) else s
  }

  /** `''.join(xs)`. */
  function Concat(xs: seq<string>): string {
    if xs == [] then [] else xs[0] + Concat(xs[1..])
  }

  /** `'\n'.join(xs)`. */
  function JoinLines(xs: seq<string>): string {
    if xs == [] then []
    else if |xs| == 1 then xs[0]
    else xs[0] + "\n" + JoinLines(xs[1..])
  }

  /** Sum of the lengths of `xs`, the byte count of `''.join(xs)`. */
  function SumLen(xs: seq<string>): nat {
    if xs == [] then 0 else SumLen(xs[..|xs| - 1]) + |xs[|xs| - 1]|
  }

  /** A non-empty sequence is its front followed by its last element. */
  lemma {:induction false} SplitLast<T>(s: seq<T>)
    requires s != []
    ensures s == s[..|s| - 1] + [s[|s| - 1]]
    ensures multiset(s) == multiset(s[..|s| - 1]) + multiset{s[|s| - 1]}
  {
  }

  lemma {:induction false} AppendAssoc<T>(a: seq<T>, b: seq<T>, c: seq<T>)
    ensures (a + b) + c == a + (b + c)
  {
  }

  lemma {:induction false} ConcatAppend(xs: seq<string>, ys: seq<string>)
    ensures Concat(xs + ys) == Concat(xs) + Concat(ys)
  {
    if xs == [] {
      assert xs + ys == ys;
    } else {
      assert (xs + ys)[1..] == xs[1..] + ys;
      ConcatAppend(xs[1..], ys);
    }
  }

  lemma {:induction false} ConcatSnoc(xs: seq<string>, x: string)
    ensures Concat(xs + [x]) == Concat(xs) + x
  {
    ConcatAppend(xs, [x]);
    assert Concat([x]) == x + Concat([x][1..]);
  }

  lemma {:induction false} SumLenIsLength(xs: seq<string>)
    ensures SumLen(xs) == |Concat(xs)|
  {
    if xs != [] {
      var init := xs[..|xs| - 1];
      SumLenIsLength(init);
      assert xs == init + [xs[|xs| - 1]];
      ConcatAppend(init, [xs[|xs| - 1]]);
    }
  }

  /** Position of the first `c` in `s`, or `|s|` when there is none. */
  function IndexOf(s: string, c: char): (k: nat)
    ensures k <= |s|
    ensures k < |s| ==> s[k] == c
    ensures forall i :: 0 <= i < k ==> s[i] != c
  {
    if s == [] then 0 else if s[0] == c then 0 else 1 + IndexOf(s[1..], c)
  }

  /** Position of the last `c` in `s`, or -1 when there is none. */
  function LastIndexOf(s: string, c: char): (k: int)
    ensures -1 <= k < |s|
    ensures k >= 0 ==> s[k] == c
    ensures forall i :: k < i < |s| ==> s[i] != c
  {
    if s == [] then -1
    else if s[|s| - 1] == c then |s| - 1
    else LastIndexOf(s[..|s| - 1], c)
  }

  /** `line.split(' ')[1]`, or None where Python raises IndexError. */
  function SecondField(line: string): Option<string> {
    var i := IndexOf(line, ' ');
    if i == |line| then None else Some(line[i + 1..][..IndexOf(line[i + 1..], ' ')])
  }

  /**
   * There is a second field exactly when the line has a space; it is what
   * follows the first space, up to the next space or the end of the line.
   */
  lemma {:induction false} SecondFieldSpec(line: string)
    ensures SecondField(line).None? <==> ' ' !in line
    ensures SecondField(line).Some? ==>
      var r := SecondField(line).value; var i := IndexOf(line, ' ');
      && ' ' !in r && r <= line[i + 1..]
      && (i + 1 + |r| == |line| || line[i + 1 + |r|] == ' ')
  {
    var i := IndexOf(line, ' ');
    if i < |line| {
      var rest := line[i + 1..];
      var j := IndexOf(rest, ' ');
      assert rest == rest[..j] + rest[j..];
    }
  }

  /** `os.path.join(dir, name)` on POSIX. */
  function PathJoin(dir: string, name: string): string {
    if |name| > 0 && name[0] == '/' then name
    else if dir == [] || dir[|dir| - 1] == '/' then dir + name
    else dir + "/" + name
  }

  /** A joined path ends with the name, after a `/` unless it is the name alone. */
  lemma {:induction false} PathJoinEnds(dir: string, name: string)
    requires name != [] && '/' !in name
    ensures var p := PathJoin(dir, name);
      && |p| >= |name| && p[|p| - |name|..] == name
      && (p == name || (|p| > |name| && p[|p| - |name| - 1] == '/'))
  {
    assert name[0] != '/';
  }

  /** `os.path.basename(p)`: what follows the last `/`. */
  function Basename(p: string): (r: string)
    ensures |r| <= |p| && r == p[|p| - |r|..] && '/' !in r
    ensures |r| == |p| || p[|p| - |r| - 1] == '/'
  {
    p[LastIndexOf(p, '/') + 1..]
  }

  /**
   * `s.replace(pat, '')`: every non-overlapping occurrence of `pat`, scanning
   * left to right, is removed; an empty pattern leaves `s` as it is.
   */
  function RemoveAll(s: string, pat: string): (r: string)
    ensures |r| <= |s|
    ensures |r| == |s| ==> r == s
    decreases |s|
  {
    if pat == [] || |s| < |pat| then s
    else if s[..|pat|] == pat then RemoveAll(s[|pat|..], pat)
    else [s[0]] + RemoveAll(s[1..], pat)
  }

  /** `pat` occurs in `s` starting at position `i`. */
  predicate OccursAt(s: string, pat: string, i: int) {
    0 <= i <= |s| - |pat| && s[i..i + |pat|] == pat
  }

  /** `pat` occurs somewhere in `s`. */
  ghost predicate Occurs(s: string, pat: string) {
    exists i :: OccursAt(s, pat, i)
  }

  lemma {:induction false} RemoveAllAbsent(s: string, pat: string)
    requires pat != [] && !Occurs(s, pat)
    ensures RemoveAll(s, pat) == s
    decreases |s|
  {
    if |s| >= |pat| {
      assert !OccursAt(s, pat, 0);
      assert s[0..|pat|] == s[..|pat|];
      forall i | OccursAt(s[1..], pat, i) ensures OccursAt(s, pat, i + 1) {
        assert s[1..][i..i + |pat|] == s[i + 1..i + 1 + |pat|];
      }
      RemoveAllAbsent(s[1..], pat);
    }
  }

  /**
   * What `replace(root, '')` does to a path built under `root`: when `root`
   * does not occur again in the rest of the path, it is plain prefix removal.
   */
  lemma {:induction false} RemoveAllOfPrefix(root: string, rest: string)
    requires root != [] && !Occurs(rest, root)
    ensures RemoveAll(root + rest, root) == rest
  {
    assert (root + rest)[..|root|] == root;
    assert (root + rest)[|root|..] == rest;
    RemoveAllAbsent(rest, root);
  }

  // ---------------------------------------------------------------------------
  // Reading a file line by line, as `readline` and `fileinput` do.

  /** End (exclusive) of the line that starts at `pos`: just past the next `\n`, or EOF. */
  function LineEnd(c: string, pos: nat): (e: nat)
    requires pos <= |c|
    ensures pos <= e <= |c|
    ensures pos < |c| ==> pos < e
    decreases |c| - pos
  {
    if pos == |c| then pos
    else if c[pos] == '\n' then pos + 1
    else LineEnd(c, pos + 1)
  }

  /** A line holds no newline except as its last byte, and only the last line may lack one. */
  lemma {:induction false} LineEndAtNewline(c: string, pos: nat)
    requires pos <= |c|
    ensures forall i :: pos <= i < LineEnd(c, pos) - 1 ==> c[i] != '\n'
    ensures LineEnd(c, pos) < |c| ==> c[LineEnd(c, pos) - 1] == '\n'
    decreases |c| - pos
  {
    if pos < |c| && c[pos] != '\n' {
      LineEndAtNewline(c, pos + 1);
    }
  }

  /** `f.seek(pos); f.readline()`: empty exactly at or past EOF. */
  function ReadLine(c: string, pos: nat): (l: string)
    ensures (l == []) <==> pos >= |c|
  {
    if pos >= |c| then [] else c[pos..LineEnd(c, pos)]
  }

  function LinesFrom(c: string, pos: nat): seq<string>
    requires pos <= |c|
    decreases |c| - pos
  {
    if pos == |c| then [] else [ReadLine(c, pos)] + LinesFrom(c, LineEnd(c, pos))
  }

  /** The lines `fileinput` yields for a file with content `c`. */
  function Lines(c: string): seq<string> {
    LinesFrom(c, 0)
  }

  lemma {:induction false} LinesFromConcat(c: string, pos: nat)
    requires pos <= |c|
    ensures Concat(LinesFrom(c, pos)) == c[pos..]
    ensures forall l :: l in LinesFrom(c, pos) ==> l != []
    decreases |c| - pos
  {
    if pos < |c| {
      var e := LineEnd(c, pos);
      LinesFromConcat(c, e);
      assert c[pos..] == c[pos..e] + c[e..];
    }
  }

  /** Joining the lines gives the file back, and no line is empty. */
  lemma {:induction false} LinesConcat(c: string)
    ensures Concat(Lines(c)) == c
    ensures forall l :: l in Lines(c) ==> l != []
  {
    LinesFromConcat(c, 0);
  }

  /** Seeking to the offset of line `j` and reading on yields lines `j..`. */
  lemma {:induction false} LinesFromAt(c: string, pos: nat, j: nat)
    requires pos <= |c| && j <= |LinesFrom(c, pos)|
    ensures pos + |Concat(LinesFrom(c, pos)[..j])| <= |c|
    ensures LinesFrom(c, pos + |Concat(LinesFrom(c, pos)[..j])|) == LinesFrom(c, pos)[j..]
    decreases j
  {
    var ls := LinesFrom(c, pos);
    if j == 0 {
      assert ls[..0] == [];
    } else {
      LinesFromUnfold(c, pos);
      var e := LineEnd(c, pos);
      var rest := LinesFrom(c, e);
      LinesFromAt(c, e, j - 1);
      assert ls[..j][1..] == rest[..j - 1];
      assert ls[j..] == rest[j - 1..];
    }
  }

  lemma {:induction false} LinesFromUnfold(c: string, p: nat)
    requires p <= |c| && LinesFrom(c, p) != []
    ensures p < |c| && LineEnd(c, p) == p + |LinesFrom(c, p)[0]|
    ensures LinesFrom(c, p)[1..] == LinesFrom(c, LineEnd(c, p))
  {
  }

  lemma {:induction false} LinesAt(c: string, j: nat)
    requires j <= |Lines(c)|
    ensures SumLen(Lines(c)[..j]) <= |c|
    ensures LinesFrom(c, SumLen(Lines(c)[..j])) == Lines(c)[j..]
  {
    LinesFromAt(c, 0, j);
    SumLenIsLength(Lines(c)[..j]);
  }
}
