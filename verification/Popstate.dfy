/**
 * The merge of two `popstate.dat` files (`insert_popstates` and
 * `compare_popstates`): after a header of six lines, each line names a
 * message by the second space-separated field; each file is appended the
 * lines of the other whose message id it lacks.
 */
module Popstate {
  import opened Text
  import opened Table
  import opened Merge

  /** Lines of a `popstate.dat` file before the first entry. */
  const HeaderLines: nat := 6

  /** One row of `Pop<i>`: the message id, and the whole line as the pop tag. */
  type PopRow = Row<string>

  /**
   * The rows `insert_popstates` stores for a file with the lines `lines`, or
   * the `IndexError` that `line.split(' ')[1]` raises on an entry line
   * without a space.
   */
  function PopRows(lines: seq<string>): Result<seq<PopRow>> {
    if |lines| <= HeaderLines then Ok([])
    else
      match PopRows(lines[..|lines| - 1])
      case Err(e) => Err(e)
      case Ok(t) =>
        var l := lines[|lines| - 1];
        match SecondField(l)
        case None => Err(IndexError)
        case Some(id) => Ok(t + [Row(id, l)])
  }

  /** The reading loop of `insert_popstates` for one file. */
  method ReadPopstate(content: string) returns (r: Result<seq<PopRow>>)
    ensures r == PopRows(Lines(content))
  {
    r := ReadEntries(Lines(content));
  }

  /** The loop of `insert_popstates` over the lines `fileinput` yields. */
  method ReadEntries(lines: seq<string>) returns (r: Result<seq<PopRow>>)
    ensures r == PopRows(lines)
  {
    var rows: seq<PopRow> := [];
    for i := 0 to |lines|
      invariant PopRows(lines[..i]) == Ok(rows)
    {
      PopRowsSnoc(lines, i);
      if i >= HeaderLines {
        var id := SecondField(lines[i]);
        if id.None? {
          PopRowsErrSticky(lines, i + 1);
          return Err(IndexError);
        }
        rows := rows + [Row(id.value, lines[i])];
      }
    }
    assert lines[..|lines|] == lines;
    r := Ok(rows);
  }

  /** One more line: nothing in the header, otherwise one more row or the error. */
  lemma {:induction false} PopRowsSnoc(lines: seq<string>, i: nat)
    requires i < |lines| && PopRows(lines[..i]).Ok?
    ensures i < HeaderLines ==> PopRows(lines[..i + 1]) == PopRows(lines[..i])
    ensures i >= HeaderLines && SecondField(lines[i]).None? ==> PopRows(lines[..i + 1]) == Err(IndexError)
    ensures i >= HeaderLines && SecondField(lines[i]).Some? ==>
      PopRows(lines[..i + 1]) == Ok(PopRows(lines[..i]).value + [Row(SecondField(lines[i]).value, lines[i])])
  {
    assert lines[..i + 1][..i] == lines[..i];
    assert lines[..i + 1][i] == lines[i];
  }

  /** Once a prefix fails, every longer prefix fails with it. */
  lemma {:induction false} PopRowsErrSticky(lines: seq<string>, i: nat)
    requires i <= |lines| && PopRows(lines[..i]) == Err(IndexError)
    ensures PopRows(lines) == Err(IndexError)
    decreases |lines| - i
  {
    if i < |lines| {
      assert lines[..i + 1][..i] == lines[..i];
      PopRowsErrSticky(lines, i + 1);
    } else {
      assert lines[..i] == lines;
    }
  }

  /** `insert_popstates(filepaths, cur)`: file 0 first, and an error stops the reading. */
  method InsertPopstates(store: FileStore, p0: string, p1: string)
    returns (r: Result<(seq<PopRow>, seq<PopRow>)>)
    requires p0 in store.files && p1 in store.files
    ensures r == Both(PopRows(Lines(store.files[p0])), PopRows(Lines(store.files[p1])))
  {
    var r0 := ReadPopstate(store.files[p0]);
    if r0.Err? {
      return Err(r0.error);
    }
    var r1 := ReadPopstate(store.files[p1]);
    if r1.Err? {
      return Err(r1.error);
    }
    r := Ok((r0.value, r1.value));
  }

  /** Both tables, or the first error. */
  function Both(a: Result<seq<PopRow>>, b: Result<seq<PopRow>>): (r: Result<(seq<PopRow>, seq<PopRow>)>)
    ensures r.Ok? <==> a.Ok? && b.Ok?
    ensures r.Ok? ==> r.value == (a.value, b.value)
    ensures a.Err? ==> r == Err(a.error)
    ensures a.Ok? && b.Err? ==> r == Err(b.error)
  {
    if a.Err? then Err(a.error) else if b.Err? then Err(b.error) else Ok((a.value, b.value))
  }

  /** Reading fails exactly when some entry line, after the six header lines, has no space. */
  lemma {:induction false} PopRowsErr(lines: seq<string>)
    ensures PopRows(lines).Err? <==> exists j :: HeaderLines <= j < |lines| && ' ' !in lines[j]
    ensures PopRows(lines).Err? ==> PopRows(lines) == Err(IndexError)
  {
    if |lines| > HeaderLines {
      var init := lines[..|lines| - 1];
      PopRowsErr(init);
      SecondFieldSpec(lines[|lines| - 1]);
      if PopRows(init).Err? {
        var j :| HeaderLines <= j < |init| && ' ' !in init[j];
        assert lines[j] == init[j];
      } else if exists j :: HeaderLines <= j < |lines| && ' ' !in lines[j] {
        var j :| HeaderLines <= j < |lines| && ' ' !in lines[j];
      }
    }
  }

  /** Otherwise there is one row per entry line, keyed by its second field, in file order. */
  lemma {:induction false} PopRowsOk(lines: seq<string>)
    requires PopRows(lines).Ok?
    ensures var t := PopRows(lines).value;
      && |t| == (if |lines| <= HeaderLines then 0 else |lines| - HeaderLines)
      && forall j :: 0 <= j < |t| ==>
           t[j].val == lines[j + HeaderLines] && SecondField(t[j].val) == Some(t[j].key)
  {
    if |lines| > HeaderLines {
      var init := lines[..|lines| - 1];
      PopRowsOk(init);
      assert forall j :: 0 <= j < |init| ==> init[j] == lines[j];
    }
  }

  /** The message ids of the other file that a file lacks: the lines that go to it. */
  function Unique(a: seq<PopRow>, b: seq<PopRow>): seq<string> {
    Vals(Missing(a, b))
  }

  /** The file `p` with `texts` appended, created when there is none. */
  function Appended(files: map<string, string>, p: string, texts: seq<string>): (r: map<string, string>)
    ensures p in r
  {
    files[p := Content(files, p) + Concat(texts)]
  }

  /** The whole of `compare_popstates` on `(p0, p1)` with the tables `r0`, `r1` built beforehand. */
  function PopsMerged(files: map<string, string>, p0: string, p1: string, r0: seq<PopRow>, r1: seq<PopRow>)
    : map<string, string>
  {
    Appended(Appended(files, p1, Unique(r0, r1)), p0, Unique(r1, r0))
  }

  /** The writing loop of `compare_popstates` in one direction: append each pop tag to `target`. */
  method WriteTags(store: FileStore, target: string, tags: seq<string>)
    modifies store
    ensures store.files == Appended(old(store.files), target, tags)
  {
    store.Open(target);
    AppendedNone(old(store.files), target);
    for u := 0 to |tags|
      invariant store.files == Appended(old(store.files), target, tags[..u])
    {
      AppendedSnoc(old(store.files), target, tags[..u], tags[u]);
      assert tags[..u + 1] == tags[..u] + [tags[u]];
      store.Write(target, tags[u]);
    }
    assert tags[..|tags|] == tags;
  }

  lemma {:induction false} AppendedNone(files: map<string, string>, p: string)
    ensures Appended(files, p, []) == Opened(files, p)
  {
    assert Concat([]) == [];
    assert Content(files, p) + [] == Content(files, p);
  }

  lemma {:induction false} AppendedSnoc(files: map<string, string>, p: string, ts: seq<string>, x: string)
    ensures var f := Appended(files, p, ts); Appended(files, p, ts + [x]) == f[p := f[p] + x]
  {
    ConcatSnoc(ts, x);
    var c := Content(files, p);
    assert c + Concat(ts + [x]) == (c + Concat(ts)) + x;
    assert files[p := c + Concat(ts)][p := c + Concat(ts + [x])] == files[p := c + Concat(ts + [x])];
  }

  /** `compare_popstates(filepaths, cur)`: `p1` gains first, then `p0`. */
  method ComparePopstates(store: FileStore, p0: string, p1: string, r0: seq<PopRow>, r1: seq<PopRow>)
    modifies store
    ensures store.files == PopsMerged(old(store.files), p0, p1, r0, r1)
  {
    WriteTags(store, p1, Unique(r0, r1));
    WriteTags(store, p0, Unique(r1, r0));
  }

  /** Each file of the pair gains the lines of the other whose id it lacks; nothing else changes. */
  lemma {:induction false} PopsAppended(files: map<string, string>, p0: string, p1: string,
                                        r0: seq<PopRow>, r1: seq<PopRow>, q: string)
    requires p0 in files && p1 in files && p0 != p1
    ensures var f := PopsMerged(files, p0, p1, r0, r1);
      && p0 in f && p1 in f
      && f[p0] == files[p0] + Concat(Unique(r1, r0))
      && f[p1] == files[p1] + Concat(Unique(r0, r1))
      && (q != p0 && q != p1 ==> (q in f <==> q in files) && (q in files ==> f[q] == files[q]))
  {
  }

  /**
   * A second merge is not idempotent.  When the target `p1` still has at most
   * six lines after it gains the tags of `p0`, they all fall in its header and
   * it reads as no rows.  Reading both files again gives the same tables as
   * before, so the same merge runs again and appends the same tags a second
   * time.
   */
  lemma {:induction false} PopsNotIdempotent(files: map<string, string>, p0: string, p1: string, r0: seq<PopRow>)
    requires p0 in files && p1 in files && p0 != p1
    requires PopRows(Lines(files[p0])) == Ok(r0) && PopRows(Lines(files[p1])) == Ok([])
    requires |Lines(files[p1] + Concat(Vals(r0)))| <= HeaderLines
    ensures var f := PopsMerged(files, p0, p1, r0, []);
      && f[p0] == files[p0] && f[p1] == files[p1] + Concat(Vals(r0))
      && PopRows(Lines(f[p0])) == Ok(r0) && PopRows(Lines(f[p1])) == Ok([])
      && PopsMerged(f, p0, p1, r0, [])[p1] == files[p1] + Concat(Vals(r0)) + Concat(Vals(r0))
  {
    var none: seq<PopRow> := [];
    MissingLength(r0, none);
    assert Missing(none, r0) == none;
    assert Concat([]) == [];
    var f := PopsMerged(files, p0, p1, r0, []);
    PopsAppended(files, p0, p1, r0, [], p0);
    PopsAppended(f, p0, p1, r0, [], p0);
  }

  /** A pop tag goes across exactly when some row of the source carries it with an id the target lacks. */
  lemma {:induction false} UniqueTags(r0: seq<PopRow>, r1: seq<PopRow>, x: string)
    ensures x in Unique(r0, r1) <==> exists k :: 0 <= k < |r0| && r0[k].val == x && r0[k].key !in Keys(r1)
  {
    var m := Missing(r0, r1);
    if x in Unique(r0, r1) {
      var i :| 0 <= i < |m| && Vals(m)[i] == x;
      MissingMembers(r0, r1, m[i]);
      var k :| 0 <= k < |r0| && r0[k] == m[i];
    }
    if exists k :: 0 <= k < |r0| && r0[k].val == x && r0[k].key !in Keys(r1) {
      var k :| 0 <= k < |r0| && r0[k].val == x && r0[k].key !in Keys(r1);
      MissingMembers(r0, r1, r0[k]);
      var i :| 0 <= i < |m| && m[i] == r0[k];
      assert Vals(m)[i] == x;
    }
  }

  /**
   * A line appended to `p1` is an entry line of `p0` whose id is nowhere
   * among the entries of `p1`, and every such line is appended.
   */
  lemma {:induction false} UniqueLines(lines0: seq<string>, lines1: seq<string>, x: string)
    requires PopRows(lines0).Ok? && PopRows(lines1).Ok?
    ensures var r0 := PopRows(lines0).value; var r1 := PopRows(lines1).value;
      x in Unique(r0, r1) <==>
        exists j :: HeaderLines <= j < |lines0| && lines0[j] == x && SecondField(x).Some?
                    && SecondField(x).value !in Keys(r1)
  {
    var r0 := PopRows(lines0).value;
    var r1 := PopRows(lines1).value;
    PopRowsOk(lines0);
    UniqueTags(r0, r1, x);
    if exists k :: 0 <= k < |r0| && r0[k].val == x && r0[k].key !in Keys(r1) {
      var k :| 0 <= k < |r0| && r0[k].val == x && r0[k].key !in Keys(r1);
      assert lines0[k + HeaderLines] == x;
    }
    if exists j :: HeaderLines <= j < |lines0| && lines0[j] == x && SecondField(x).Some?
                   && SecondField(x).value !in Keys(r1) {
      var j :| HeaderLines <= j < |lines0| && lines0[j] == x && SecondField(x).Some?
               && SecondField(x).value !in Keys(r1);
      assert r0[j - HeaderLines].val == x;
    }
  }

  /** `compare_popstates` only appends: every file keeps its content as a prefix. */
  lemma {:induction false} PopsGrows(files: map<string, string>, p0: string, p1: string,
                                     r0: seq<PopRow>, r1: seq<PopRow>, q: string)
    requires q in files
    ensures var f := PopsMerged(files, p0, p1, r0, r1); q in f && files[q] <= f[q]
  {
    var f1 := Appended(files, p1, Unique(r0, r1));
    var f := Appended(f1, p0, Unique(r1, r0));
    assert q == p1 ==> f1[q][..|files[q]|] == files[q];
    assert q == p0 ==> f[q][..|f1[q]|] == f1[q];
  }
}
