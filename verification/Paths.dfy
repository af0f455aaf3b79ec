/**
 * The path matcher: `sieve`, `match_filename` and `compare_paths`.  The
 * directory walk is given as the sequence of (directory, file name) entries
 * `os.walk` would report, in its order.
 */
module Paths {
  import opened Text

  /** One file reported by the walk: the directory it is in and its name. */
  datatype Entry = Entry(dir: string, name: string)

  /** A mailbox (no `.` in the name) or a `popstate.dat` file. */
  predicate Eligible(name: string) {
    name == "popstate.dat" || '.' !in name
  }

  function FullPath(e: Entry): string {
    PathJoin(e.dir, e.name)
  }

  /** The full paths of the eligible entries, in walk order. */
  function Sieved(walk: seq<Entry>): seq<string> {
    if walk == [] then []
    else
      var last := walk[|walk| - 1];
      Sieved(walk[..|walk| - 1]) + (if Eligible(last.name) then [FullPath(last)] else [])
  }

  /** `sieve` keeps exactly the paths of eligible entries. */
  lemma {:induction false} SievedMembers(walk: seq<Entry>, p: string)
    ensures p in Sieved(walk) <==> exists e :: e in walk && Eligible(e.name) && FullPath(e) == p
  {
    if walk != [] {
      var init := walk[..|walk| - 1];
      var last := walk[|walk| - 1];
      SievedMembers(init, p);
      assert walk == init + [last];
      if p in Sieved(walk) && p !in Sieved(init) {
        assert Eligible(last.name) && FullPath(last) == p;
      }
      if e :| e in walk && Eligible(e.name) && FullPath(e) == p {
        if e != last {
          assert e in init;
        }
      }
    }
  }

  /** A file whose name carries an extension, such as `x.msf`, is never kept. */
  lemma {:induction false} SievedExcludesDotted(walk: seq<Entry>, e: Entry)
    requires e in walk && '.' in e.name && e.name != "popstate.dat"
    requires forall e' :: e' in walk && FullPath(e') == FullPath(e) ==> e' == e
    ensures FullPath(e) !in Sieved(walk)
  {
    SievedMembers(walk, FullPath(e));
  }

  /** `sieve(path)`: the eligible files under `path`, in walk order. */
  method Sieve(walk: seq<Entry>) returns (files: seq<string>)
    ensures files == Sieved(walk)
  {
    files := [];
    var i := 0;
    while i < |walk|
      invariant 0 <= i <= |walk|
      invariant files == Sieved(walk[..i])
    {
      var e := walk[i];
      assert walk[..i + 1][..i] == walk[..i];
      if e.name == "popstate.dat" || IndexOf(e.name, '.') == |e.name| {
        files := files + [PathJoin(e.dir, e.name)];
      }
      i := i + 1;
    }
    assert walk[..|walk|] == walk;
  }

  /** `list.remove(x)` applied to `s`: drops the first occurrence of `x`. */
  function RemoveFirst(s: seq<string>, x: string): (r: seq<string>)
    ensures x in s ==> multiset(r) == multiset(s) - multiset{x}
    ensures x !in s ==> r == s
  {
    if s == [] then []
    else
      assert s == [s[0]] + s[1..];
      if s[0] == x then s[1..]
      else [s[0]] + RemoveFirst(s[1..], x)
  }

  lemma {:induction false} RemoveFirstAt(s: seq<string>, x: string, j: nat)
    requires j < |s| && s[j] == x && x !in s[..j]
    ensures RemoveFirst(s, x) == s[..j] + s[j + 1..]
  {
    if j > 0 {
      assert s[..j] == [s[0]] + s[1..j];
      assert s[0] != x && x !in s[1..j];
      assert s[1..][..j - 1] == s[1..j] && s[1..][j..] == s[j + 1..];
      RemoveFirstAt(s[1..], x, j - 1);
      AppendAssoc([s[0]], s[1..j], s[j + 1..]);
    }
  }

  /** A Python list of paths that the matcher updates in place. */
  class PathList {
    var items: seq<string>

    constructor (xs: seq<string>)
      ensures items == xs
    {
      items := xs;
    }

    /** `items.remove(x)`; `found` is false where Python raises ValueError. */
    method Remove(x: string) returns (found: bool)
      modifies this
      ensures found == (x in old(items))
      ensures items == if found then RemoveFirst(old(items), x) else old(items)
    {
      var j := 0;
      while j < |items| && items[j] != x
        invariant 0 <= j <= |items|
        invariant x !in items[..j]
      {
        assert items[..j + 1] == items[..j] + [items[j]];
        j := j + 1;
      }
      found := j < |items|;
      if found {
        RemoveFirstAt(items, x, j);
        items := items[..j] + items[j + 1..];
      } else {
        assert items[..j] == items;
      }
    }
  }

  /** The matching key of a path: `path.replace(root, '')`. */
  function Key(path: string, root: string): string {
    RemoveAll(path, root)
  }

  /** The first file of `files` whose key under `root` is `basename`. */
  function FirstMatch(basename: string, files: seq<string>, root: string): (r: Option<string>)
    ensures r.None? <==> forall f :: f in files ==> Key(f, root) != basename
    ensures r.Some? ==> r.value in files && Key(r.value, root) == basename
  {
    if files == [] then None
    else if Key(files[0], root) == basename then Some(files[0])
    else FirstMatch(basename, files[1..], root)
  }

  lemma {:induction false} FirstMatchAt(basename: string, files: seq<string>, root: string, i: nat)
    requires i < |files| && Key(files[i], root) == basename
    requires forall k :: 0 <= k < i ==> Key(files[k], root) != basename
    ensures FirstMatch(basename, files, root) == Some(files[i])
  {
    if i > 0 {
      FirstMatchAt(basename, files[1..], root, i - 1);
    }
  }

  /**
   * What `match_filename` returns and what `uniques` becomes: the first
   * matching file is removed from `uniques`, or ValueError when it is no
   * longer there.
   */
  function MatchStep(basename: string, files: seq<string>, root: string, uniques: seq<string>)
    : Result<(Option<string>, seq<string>)>
  {
    match FirstMatch(basename, files, root)
    case None => Ok((None, uniques))
    case Some(f) => if f in uniques then Ok((Some(f), RemoveFirst(uniques, f))) else Err(ValueError)
  }

  /** `match_filename(basename, files, path, uniques)`. */
  method MatchFilename(basename: string, files: seq<string>, path: string, uniques: PathList)
    returns (r: Result<Option<string>>)
    modifies uniques
    ensures var m := MatchStep(basename, files, path, old(uniques.items));
      && (m.Err? ==> r == Err(m.error) && uniques.items == old(uniques.items))
      && (m.Ok? ==> r == Ok(m.value.0) && uniques.items == m.value.1)
  {
    var i := 0;
    while i < |files|
      invariant 0 <= i <= |files|
      invariant forall k :: 0 <= k < i ==> Key(files[k], path) != basename
      invariant uniques.items == old(uniques.items)
    {
      if RemoveAll(files[i], path) == basename {
        FirstMatchAt(basename, files, path, i);
        var found := uniques.Remove(files[i]);
        if !found {
          return Err(ValueError);
        }
        return Ok(Some(files[i]));
      }
      i := i + 1;
    }
    return Ok(None);
  }

  /** The result of matching two trees. */
  datatype Correspondence = Correspondence(matched: seq<(string, string)>, unique1: seq<string>, unique2: seq<string>)

  /** One iteration of the loop of `compare_paths`, for the file `f1` of tree 1. */
  function MatchOne(c: Correspondence, f1: string, files2: seq<string>, path1: string, path2: string)
    : Result<Correspondence>
  {
    match MatchStep(Key(f1, path1), files2, path2, c.unique2)
    case Err(e) => Err(e)
    case Ok(v) =>
      // `if filename2:` -- an empty string is falsy, like None
      if v.0.Some? && v.0.value != [] then Ok(Correspondence(c.matched + [(f1, v.0.value)], c.unique1, v.1))
      else Ok(Correspondence(c.matched, c.unique1 + [f1], v.1))
  }

  /** `compare_paths` over the sieved file lists `s1` and `files2`. */
  function Match(s1: seq<string>, files2: seq<string>, path1: string, path2: string): Result<Correspondence>
  {
    if s1 == [] then Ok(Correspondence([], [], files2))
    else
      match Match(s1[..|s1| - 1], files2, path1, path2)
      case Err(e) => Err(e)
      case Ok(c) => MatchOne(c, s1[|s1| - 1], files2, path1, path2)
  }

  /** Matching one more file of tree 1 is one more `MatchOne`. */
  lemma {:induction false} MatchExtend(s1: seq<string>, i: nat, files2: seq<string>, path1: string, path2: string)
    requires i < |s1| && Match(s1[..i], files2, path1, path2).Ok?
    ensures Match(s1[..i + 1], files2, path1, path2)
         == MatchOne(Match(s1[..i], files2, path1, path2).value, s1[i], files2, path1, path2)
  {
    assert s1[..i + 1][..i] == s1[..i];
  }

  /** A raised ValueError ends `compare_paths`: the error of a prefix is the error of the whole. */
  lemma {:induction false} MatchErrSticky(s1: seq<string>, i: nat, files2: seq<string>, path1: string, path2: string)
    requires i <= |s1| && Match(s1[..i], files2, path1, path2).Err?
    ensures Match(s1, files2, path1, path2) == Match(s1[..i], files2, path1, path2)
    decreases |s1| - i
  {
    if i < |s1| {
      assert s1[..i + 1][..i] == s1[..i];
      MatchErrSticky(s1, i + 1, files2, path1, path2);
    } else {
      assert s1[..i] == s1;
    }
  }

  /** `compare_paths(path1, path2)`, where ValueError escapes from `uniques.remove`. */
  method ComparePaths(path1: string, path2: string, walk1: seq<Entry>, walk2: seq<Entry>)
    returns (r: Result<Correspondence>)
    ensures r == Match(Sieved(walk1), Sieved(walk2), path1, path2)
  {
    var uniquefiles1: seq<string> := [];
    var u2 := Sieve(walk2);
    var uniquefiles2 := new PathList(u2);
    var matchedfiles: seq<(string, string)> := [];
    var p2files := Sieve(walk2);
    var s1 := Sieve(walk1);
    var i := 0;
    while i < |s1|
      invariant 0 <= i <= |s1|
      invariant Match(s1[..i], p2files, path1, path2)
             == Ok(Correspondence(matchedfiles, uniquefiles1, uniquefiles2.items))
      modifies uniquefiles2
    {
      var filename1 := s1[i];
      ghost var c := Correspondence(matchedfiles, uniquefiles1, uniquefiles2.items);
      MatchExtend(s1, i, p2files, path1, path2);
      var filename2 := MatchFilename(RemoveAll(filename1, path1), p2files, path2, uniquefiles2);
      if filename2.Err? {
        assert MatchOne(c, filename1, p2files, path1, path2) == Err(filename2.error);
        MatchErrSticky(s1, i + 1, p2files, path1, path2);
        return Err(filename2.error);
      }
      if filename2.value.Some? && filename2.value.value != [] {
        matchedfiles := matchedfiles + [(filename1, filename2.value.value)];
      } else {
        uniquefiles1 := uniquefiles1 + [filename1];
      }
      i := i + 1;
    }
    assert s1[..|s1|] == s1;
    return Ok(Correspondence(matchedfiles, uniquefiles1, uniquefiles2.items));
  }

  /** The tree-1 side of each matched pair. */
  function Firsts(ps: seq<(string, string)>): seq<string> {
    if ps == [] then [] else Firsts(ps[..|ps| - 1]) + [ps[|ps| - 1].0]
  }

  /** The tree-2 side of each matched pair. */
  function Seconds(ps: seq<(string, string)>): seq<string> {
    if ps == [] then [] else Seconds(ps[..|ps| - 1]) + [ps[|ps| - 1].1]
  }

  /** One iteration files `f1` either as a new matched pair or as unique to tree 1. */
  predicate Files(c: Correspondence, c': Correspondence, f1: string) {
    || (c'.matched == c.matched && c'.unique1 == c.unique1 + [f1])
    || (|c'.matched| == |c.matched| + 1 && c'.matched[..|c.matched|] == c.matched
        && c'.matched[|c.matched|].0 == f1 && c'.unique1 == c.unique1)
  }

  lemma {:induction false} MatchOneFiles(c: Correspondence, f1: string, files2: seq<string>, path1: string, path2: string)
    requires MatchOne(c, f1, files2, path1, path2).Ok?
    ensures Files(c, MatchOne(c, f1, files2, path1, path2).value, f1)
  {
    var v := MatchStep(Key(f1, path1), files2, path2, c.unique2).value;
    if v.0.Some? && v.0.value != [] {
      assert (c.matched + [(f1, v.0.value)])[..|c.matched|] == c.matched;
    }
  }

  lemma {:induction false} PartitionStep(c: Correspondence, c': Correspondence, f1: string, s: seq<string>)
    requires Files(c, c', f1)
    requires multiset(Firsts(c.matched)) + multiset(c.unique1) == multiset(s)
    ensures multiset(Firsts(c'.matched)) + multiset(c'.unique1) == multiset(s + [f1])
  {
    assert multiset(s + [f1]) == multiset(s) + multiset{f1};
    if c'.matched != c.matched {
      assert |c'.matched| == |c.matched| + 1;
      assert multiset(Firsts(c'.matched)) == multiset(Firsts(c.matched)) + multiset{f1};
    } else {
      assert multiset(c'.unique1) == multiset(c.unique1) + multiset{f1};
    }
  }

  /** Every sieved file of tree 1 lands in exactly one of the matched pairs or the unique-to-1 list. */
  lemma {:induction false} MatchPartition(s1: seq<string>, files2: seq<string>, path1: string, path2: string)
    requires Match(s1, files2, path1, path2).Ok?
    ensures var c := Match(s1, files2, path1, path2).value;
      multiset(Firsts(c.matched)) + multiset(c.unique1) == multiset(s1)
  {
    if s1 != [] {
      var init := s1[..|s1| - 1];
      MatchPartition(init, files2, path1, path2);
      SplitLast(s1);
      var c := Match(init, files2, path1, path2).value;
      MatchOneFiles(c, s1[|s1| - 1], files2, path1, path2);
      PartitionStep(c, MatchOne(c, s1[|s1| - 1], files2, path1, path2).value, s1[|s1| - 1], init);
    }
  }

  /**
   * Each matched pair shares its key, and its second file is the first file
   * of tree 2 with that key.
   */
  lemma {:induction false} MatchPairs(s1: seq<string>, files2: seq<string>, path1: string, path2: string)
    requires Match(s1, files2, path1, path2).Ok?
    ensures forall p :: p in Match(s1, files2, path1, path2).value.matched ==>
      && p.0 in s1 && p.1 in files2 && Key(p.0, path1) == Key(p.1, path2)
      && FirstMatch(Key(p.0, path1), files2, path2) == Some(p.1)
  {
    if s1 != [] {
      var init := s1[..|s1| - 1];
      MatchPairs(init, files2, path1, path2);
      SplitLast(s1);
    }
  }

  /** A file is unique to tree 1 only when tree 2 has no (non-empty) file with its key. */
  lemma {:induction false} MatchUnique1(s1: seq<string>, files2: seq<string>, path1: string, path2: string)
    requires Match(s1, files2, path1, path2).Ok?
    ensures forall f :: f in Match(s1, files2, path1, path2).value.unique1 ==>
      f in s1 && FirstMatch(Key(f, path1), files2, path2) in {None, Some([])}
  {
    if s1 != [] {
      var init := s1[..|s1| - 1];
      var f1 := s1[|s1| - 1];
      MatchUnique1(init, files2, path1, path2);
      var c := Match(init, files2, path1, path2).value;
      var c' := MatchOne(c, f1, files2, path1, path2).value;
      assert c' == Match(s1, files2, path1, path2).value;
      SplitLast(s1);
      var m := FirstMatch(Key(f1, path1), files2, path2);
      if m.Some? && m.value != [] {
        assert c'.unique1 == c.unique1;
      } else {
        assert c'.unique1 == c.unique1 + [f1];
      }
    }
  }

  /** The files of tree 2 claimed so far, one per file of `s1` with a match. */
  function Claimed(s1: seq<string>, files2: seq<string>, path1: string, path2: string): seq<string> {
    if s1 == [] then []
    else
      var rest := Claimed(s1[..|s1| - 1], files2, path1, path2);
      match FirstMatch(Key(s1[|s1| - 1], path1), files2, path2)
      case None => rest
      case Some(f) => rest + [f]
  }

  /** A claimed file has the key of some file of `s1`. */
  lemma {:induction false} ClaimedAvoids(s1: seq<string>, files2: seq<string>, path1: string, path2: string, k: string)
    requires forall i :: 0 <= i < |s1| ==> Key(s1[i], path1) != k
    ensures forall f :: f in Claimed(s1, files2, path1, path2) ==> Key(f, path2) != k
  {
    if s1 != [] {
      var init := s1[..|s1| - 1];
      forall i | 0 <= i < |init| ensures Key(init[i], path1) != k {
        assert init[i] == s1[i];
      }
      ClaimedAvoids(init, files2, path1, path2, k);
    }
  }

  predicate DistinctKeys(s1: seq<string>, path1: string) {
    forall i, j :: 0 <= i < j < |s1| ==> Key(s1[i], path1) != Key(s1[j], path1)
  }

  lemma {:induction false} DistinctStep(c: Correspondence, f1: string, files2: seq<string>, path1: string, path2: string, cl: seq<string>)
    requires multiset(c.unique2) + multiset(cl) == multiset(files2)
    requires var m := FirstMatch(Key(f1, path1), files2, path2); m.Some? ==> m.value !in cl
    ensures MatchOne(c, f1, files2, path1, path2).Ok?
    ensures var m := FirstMatch(Key(f1, path1), files2, path2);
      multiset(MatchOne(c, f1, files2, path1, path2).value.unique2)
        + multiset(if m.Some? then cl + [m.value] else cl) == multiset(files2)
  {
    var m := FirstMatch(Key(f1, path1), files2, path2);
    if m.Some? {
      var f := m.value;
      assert multiset(cl)[f] == 0;
      assert multiset(files2)[f] >= 1;
      assert f in c.unique2;
    }
  }

  /**
   * When no two files of tree 1 share a key, matching never raises, and the
   * unique-to-2 list is tree 2's list minus exactly the claimed files.
   */
  lemma {:induction false} MatchDistinctKeys(s1: seq<string>, files2: seq<string>, path1: string, path2: string)
    requires DistinctKeys(s1, path1)
    ensures Match(s1, files2, path1, path2).Ok?
    ensures multiset(Match(s1, files2, path1, path2).value.unique2) + multiset(Claimed(s1, files2, path1, path2))
         == multiset(files2)
  {
    if s1 != [] {
      var init := s1[..|s1| - 1];
      var f1 := s1[|s1| - 1];
      assert DistinctKeys(init, path1);
      MatchDistinctKeys(init, files2, path1, path2);
      var cl := Claimed(init, files2, path1, path2);
      forall i | 0 <= i < |init| ensures Key(init[i], path1) != Key(f1, path1) {
        assert init[i] == s1[i];
      }
      ClaimedAvoids(init, files2, path1, path2, Key(f1, path1));
      DistinctStep(Match(init, files2, path1, path2).value, f1, files2, path1, path2, cl);
    }
  }

  lemma {:induction false} Unique2Step(c: Correspondence, f1: string, files2: seq<string>, path1: string, path2: string)
    requires [] !in files2
    requires MatchOne(c, f1, files2, path1, path2).Ok?
    requires multiset(c.unique2) + multiset(Seconds(c.matched)) == multiset(files2)
    ensures var c' := MatchOne(c, f1, files2, path1, path2).value;
      multiset(c'.unique2) + multiset(Seconds(c'.matched)) == multiset(files2)
  {
    var c' := MatchOne(c, f1, files2, path1, path2).value;
    var m := FirstMatch(Key(f1, path1), files2, path2);
    if m.Some? {
      var f := m.value;
      assert f != [] && f in c.unique2;
      assert c'.matched == c.matched + [(f1, f)] && c'.unique2 == RemoveFirst(c.unique2, f);
      assert c'.matched[..|c'.matched| - 1] == c.matched;
      assert Seconds(c'.matched) == Seconds(c.matched) + [f];
      assert multiset(Seconds(c'.matched)) == multiset(Seconds(c.matched)) + multiset{f};
      assert multiset(c'.unique2) == multiset(c.unique2) - multiset{f};
    } else {
      assert c'.matched == c.matched && c'.unique2 == c.unique2;
    }
  }

  /** With no empty path in tree 2, the unique-to-2 list is tree 2's list minus the matched second files. */
  lemma {:induction false} MatchUnique2(s1: seq<string>, files2: seq<string>, path1: string, path2: string)
    requires [] !in files2
    requires Match(s1, files2, path1, path2).Ok?
    ensures var c := Match(s1, files2, path1, path2).value;
      multiset(c.unique2) + multiset(Seconds(c.matched)) == multiset(files2)
  {
    if s1 != [] {
      var init := s1[..|s1| - 1];
      MatchUnique2(init, files2, path1, path2);
      Unique2Step(Match(init, files2, path1, path2).value, s1[|s1| - 1], files2, path1, path2);
    }
  }

  /**
   * For a root `/r...` and a plain file name directly under it, the key is
   * `/name` -- unless the name itself starts with the root's tail, where
   * `replace` would strip a second occurrence.
   */
  lemma {:induction false} KeyUnderRoot(root: string, name: string)
    requires |root| >= 2 && root[0] == '/' && root[|root| - 1] != '/' && '/' !in name
    requires |name| + 1 < |root| || ("/" + name)[..|root|] != root
    ensures Key(PathJoin(root, name), root) == "/" + name
  {
    var p := PathJoin(root, name);
    var q := "/" + name;
    assert p == root + q;
    assert p[..|root|] == root && p[|root|..] == q;
    assert RemoveAll(p, root) == RemoveAll(q, root);
    if |q| >= |root| {
      assert q[..|root|] != root;
      assert q[1..] == name && q == [q[0]] + q[1..];
      RemoveAllNoStart(name, root);
    }
  }

  lemma {:induction false} RemoveAllNoStart(s: string, pat: string)
    requires pat != [] && pat[0] !in s
    ensures RemoveAll(s, pat) == s
  {
    if |s| >= |pat| {
      assert s[..|pat|][0] != pat[0];
      RemoveAllNoStart(s[1..], pat);
    }
  }

  /** The sieve of {x, y, y.msf}: the `.msf` file is dropped. */
  lemma {:induction false} ExampleSieve()
    ensures Sieved([Entry("/a", "x"), Entry("/a", "y"), Entry("/a", "y.msf")]) == ["/a/x", "/a/y"]
    ensures Sieved([Entry("/b", "x"), Entry("/b", "z")]) == ["/b/x", "/b/z"]
  {
    var w1 := [Entry("/a", "x"), Entry("/a", "y"), Entry("/a", "y.msf")];
    var w2 := [Entry("/b", "x"), Entry("/b", "z")];
    assert w1[..1][..0] == [] && w1[..2][..1] == w1[..1] && w1[..3][..2] == w1[..2] && w1[..3] == w1;
    assert w2[..1][..0] == [] && w2[..2][..1] == w2[..1] && w2[..2] == w2;
    assert '.' in "y.msf" by { assert "y.msf"[1] == '.'; }
    assert Eligible("x") && Eligible("y") && Eligible("z") && !Eligible("y.msf");
    assert FullPath(w1[0]) == "/a/x" && FullPath(w1[1]) == "/a/y";
    assert FullPath(w2[0]) == "/b/x" && FullPath(w2[1]) == "/b/z";
    assert Sieved(w1[..1]) == ["/a/x"];
    assert Sieved(w1[..2]) == ["/a/x", "/a/y"];
    assert Sieved(w2[..1]) == ["/b/x"];
  }

  /** The keys of the example files: each root is stripped once. */
  lemma {:induction false} ExampleKeys()
    ensures Key("/a/x", "/a") == "/x" && Key("/a/y", "/a") == "/y"
    ensures Key("/b/x", "/b") == "/x" && Key("/b/z", "/b") == "/z"
  {
    assert "/a/x"[..2] == "/a" && "/a/x"[2..] == "/x";
    assert "/a/y"[..2] == "/a" && "/a/y"[2..] == "/y";
    assert "/b/x"[..2] == "/b" && "/b/x"[2..] == "/x";
    assert "/b/z"[..2] == "/b" && "/b/z"[2..] == "/z";
    assert RemoveAll("/x", "/a") == "/x" by { assert "/x"[1] != "/a"[1]; }
    assert RemoveAll("/y", "/a") == "/y" by { assert "/y"[1] != "/a"[1]; }
    assert RemoveAll("/x", "/b") == "/x" by { assert "/x"[1] != "/b"[1]; }
    assert RemoveAll("/z", "/b") == "/z" by { assert "/z"[1] != "/b"[1]; }
  }

  /** Two files on each side, where only the first ones share a key. */
  lemma {:induction false} TwoByTwo(a: string, b: string, x: string, y: string, r1: string, r2: string)
    requires Key(a, r1) == Key(x, r2) && x != []
    requires Key(a, r1) != Key(y, r2) && Key(b, r1) != Key(x, r2) && Key(b, r1) != Key(y, r2)
    ensures Match([a, b], [x, y], r1, r2) == Ok(Correspondence([(a, x)], [b], [y]))
  {
    var files2 := [x, y];
    assert files2[1..] == [y] && files2[1..][1..] == [];
    assert x != y;
    assert FirstMatch(Key(a, r1), files2, r2) == Some(x);
    assert RemoveFirst(files2, x) == [y];
    assert FirstMatch(Key(b, r1), files2[1..], r2) == None;
    assert FirstMatch(Key(b, r1), files2, r2) == None;
    assert MatchStep(Key(a, r1), files2, r2, files2) == Ok((Some(x), [y]));
    assert MatchStep(Key(b, r1), files2, r2, [y]) == Ok((None, [y]));
    var c0 := Correspondence([], [], files2);
    var c1 := Correspondence([(a, x)], [], [y]);
    assert c0.matched + [(a, x)] == [(a, x)];
    assert c1.unique1 + [b] == [b];
    assert MatchOne(c0, a, files2, r1, r2) == Ok(c1);
    assert MatchOne(c1, b, files2, r1, r2) == Ok(Correspondence([(a, x)], [b], [y]));
    var s1 := [a, b];
    assert s1[..1] == [a] && s1[..1][..0] == [];
    assert Match(s1[..1], files2, r1, r2) == Ok(c1);
  }

  /** Two profiles {x, y, y.msf} and {x, z}: x is matched, y and z are unique to their sides. */
  lemma {:induction false} ExampleProfiles()
    ensures Match(Sieved([Entry("/a", "x"), Entry("/a", "y"), Entry("/a", "y.msf")]),
                  Sieved([Entry("/b", "x"), Entry("/b", "z")]), "/a", "/b")
         == Ok(Correspondence([("/a/x", "/b/x")], ["/a/y"], ["/b/z"]))
  {
    ExampleSieve();
    ExampleKeys();
    assert "/y"[1] != "/x"[1] && "/y"[1] != "/z"[1] && "/x"[1] != "/z"[1];
    TwoByTwo("/a/x", "/a/y", "/b/x", "/b/z", "/a", "/b");
  }

  lemma {:induction false} SharedKeys()
    ensures Key("/a/x", "/a") == "/x" && Key("/a/a/x", "/a") == "/x" && Key("/b/x", "/b") == "/x"
  {
    assert "/x"[..2] == "/x" && "/x"[1] != "/a"[1] && "/x"[1] != "/b"[1] && "/x"[1..] == "x";
    assert "/x" == ['/'] + "x";
    assert RemoveAll("/x", "/a") == "/x" && RemoveAll("/x", "/b") == "/x";
    assert "/a/x"[..2] == "/a" && "/a/x"[2..] == "/x";
    assert "/a/a/x"[..2] == "/a" && "/a/a/x"[2..] == "/a/x";
    assert "/b/x"[..2] == "/b" && "/b/x"[2..] == "/x";
  }

  /**
   * Two files of tree 1 with the same key as one file of tree 2: the second
   * lookup finds that file again, and `uniques.remove` raises ValueError.
   */
  lemma {:induction false} SharedKeyRaises(a: string, b: string, x: string, r1: string, r2: string)
    requires Key(a, r1) == Key(x, r2) && Key(b, r1) == Key(x, r2) && x != []
    ensures Match([a, b], [x], r1, r2) == Err(ValueError)
  {
    assert FirstMatch(Key(a, r1), [x], r2) == Some(x);
    assert RemoveFirst([x], x) == [];
    assert MatchStep(Key(a, r1), [x], r2, [x]) == Ok((Some(x), []));
    assert MatchStep(Key(b, r1), [x], r2, []) == Err(ValueError);
    var c0 := Correspondence([], [], [x]);
    var c1 := Correspondence([(a, x)], [], []);
    assert c0.matched + [(a, x)] == [(a, x)];
    assert MatchOne(c0, a, [x], r1, r2) == Ok(c1);
    assert MatchOne(c1, b, [x], r1, r2) == Err(ValueError);
    var s1 := [a, b];
    assert s1[..1] == [a] && s1[..1][..0] == [];
    assert Match(s1[..1], [x], r1, r2) == Ok(c1);
  }

  /**
   * `replace` strips the root `/a` twice from `/a/a/x`, so it collides with
   * `/a/x`: matching the two against a tree `/b` holding `x` raises.
   */
  lemma {:induction false} ExampleSharedKey()
    ensures Match(["/a/x", "/a/a/x"], ["/b/x"], "/a", "/b") == Err(ValueError)
  {
    SharedKeys();
    SharedKeyRaises("/a/x", "/a/a/x", "/b/x", "/a", "/b");
  }
}
