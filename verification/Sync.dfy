/**
 * The top level of `tb_mbx_sync.py`: match the files of the two profiles,
 * then merge each matched pair with a fresh database, as a popstate pair or
 * as a mailbox pair.
 */
module Sync {
  import opened Text
  import opened Table
  import opened Paths
  import opened Framer
  import opened Merge
  import opened Popstate

  /** How the program ends. */
  datatype Outcome =
    | Finished              // normal end, exit status 0 ("Finished!" follows a matched pair)
    | Usage                 // an IndexError reached the top level: the usage text, exit status 2
    | Crashed(error: Failure) // any other exception escapes: a traceback, exit status 1

  /** The exit status of the interpreter for each outcome. */
  function ExitStatus(o: Outcome): (code: nat)
    ensures code == 0 <==> o.Finished?
    ensures code == 2 <==> o.Usage?
  {
    match o
    case Finished => 0
    case Usage => 2
    case Crashed(_) => 1
  }

  /** Only `IndexError` is caught, by the `try` around the whole run. */
  function Raised(e: Failure): (o: Outcome)
    ensures o.Usage? <==> e == IndexError
    ensures o.Crashed? <==> e != IndexError
  {
    if e == IndexError then Usage else Crashed(e)
  }

  /** The files after some pairs were merged, and the error that stopped the loop, if any. */
  datatype Progress = Progress(files: map<string, string>, stopped: Option<Failure>)

  /** Whether a matched pair is a pair of `popstate.dat` files. */
  predicate IsPopstate(pair: (string, string)) {
    Basename(pair.0) == "popstate.dat"
  }

  /** The body of the loop over matched pairs, on the files as they are when the pair comes up. */
  function MergePair(md5: string -> string, files: map<string, string>, pair: (string, string)): (r: Progress)
    ensures r.stopped.Some? ==> IsPopstate(pair) && r.files == files
  {
    var (p0, p1) := pair;
    if IsPopstate(pair) then
      match Both(PopRows(Lines(Content(files, p0))), PopRows(Lines(Content(files, p1))))
      case Err(e) => Progress(files, Some(e))
      case Ok(rs) => Progress(PopsMerged(files, p0, p1, rs.0, rs.1), None)
    else
      var t0 := Frame(md5, Lines(Content(files, p0)));
      var t1 := Frame(md5, Lines(Content(files, p1)));
      Progress(MsgsMerged(files, p0, p1, t0, t1), None)
  }

  /** The body of the loop, as a function of the files so far and the pair. */
  type PairStep = (map<string, string>, (string, string)) -> Progress

  /** The loop body of the script, with the fingerprint function fixed. */
  function Merger(md5: string -> string): PairStep {
    (files, pair) => MergePair(md5, files, pair)
  }

  /** A loop over matched pairs, in order, up to the first error. */
  function MergePairs(step: PairStep, files: map<string, string>, pairs: seq<(string, string)>): Progress {
    if pairs == [] then Progress(files, None)
    else
      var p := MergePairs(step, files, pairs[..|pairs| - 1]);
      if p.stopped.Some? then p else step(p.files, pairs[|pairs| - 1])
  }

  /** A whole run: the outcome and the files it leaves. */
  function Script(md5: string -> string, files: map<string, string>, path1: string, path2: string,
               walk1: seq<Entry>, walk2: seq<Entry>): (Outcome, map<string, string>)
  {
    match Match(Sieved(walk1), Sieved(walk2), path1, path2)
    case Err(e) => (Raised(e), files)
    case Ok(c) =>
      var p := MergePairs(Merger(md5), files, c.matched);
      (if p.stopped.Some? then Raised(p.stopped.value) else Finished, p.files)
  }

  /** What `os.walk` reports: non-empty names without a `/`. */
  predicate WalkNames(walk: seq<Entry>) {
    forall e :: e in walk ==> e.name != [] && '/' !in e.name
  }

  /** Every file the walk reports is in the store. */
  predicate Walked(files: map<string, string>, walk: seq<Entry>) {
    forall e :: e in walk ==> FullPath(e) in files
  }

  /** One iteration of the loop over matched pairs: a popstate pair or a mailbox pair. */
  method MergeMatched(store: FileStore, md5: string -> string, pair: (string, string))
    returns (stopped: Option<Failure>)
    requires pair.0 in store.files && pair.1 in store.files
    modifies store
    ensures Progress(store.files, stopped) == MergePair(md5, old(store.files), pair)
  {
    var (p0, p1) := pair;
    if Basename(p0) == "popstate.dat" {
      var r := InsertPopstates(store, p0, p1);
      if r.Err? {
        return Some(r.error);
      }
      ComparePopstates(store, p0, p1, r.value.0, r.value.1);
    } else {
      var t0 := StoreHashes(md5, store.files[p0]);
      var t1 := StoreHashes(md5, store.files[p1]);
      var _, _ := store.CompareMsgs(p0, p1, t0, t1);
    }
    stopped := None;
  }

  /** The script run on two profiles whose walks are `walk1`, `walk2` and whose files are in `store`. */
  method SyncProfiles(store: FileStore, md5: string -> string, path1: string, path2: string,
                      walk1: seq<Entry>, walk2: seq<Entry>) returns (outcome: Outcome)
    requires WalkNames(walk1) && WalkNames(walk2)
    requires Walked(store.files, walk1) && Walked(store.files, walk2)
    modifies store
    ensures (outcome, store.files) == Script(md5, old(store.files), path1, path2, walk1, walk2)
  {
    var c := ComparePaths(path1, path2, walk1, walk2);
    if c.Err? {
      return Raised(c.error);
    }
    var pairs := c.value.matched;
    ghost var start := store.files;
    MatchPairs(Sieved(walk1), Sieved(walk2), path1, path2);
    for i := 0 to |pairs|
      invariant MergePairs(Merger(md5), start, pairs[..i]) == Progress(store.files, None)
      invariant Grown(start, store.files)
    {
      assert pairs[i] in pairs;
      SievedKept(walk1, start, store.files, pairs[i].0);
      SievedKept(walk2, start, store.files, pairs[i].1);
      MergePairsSnoc(Merger(md5), start, pairs, i);
      ghost var before := store.files;
      var stopped := MergeMatched(store, md5, pairs[i]);
      if stopped.Some? {
        MergePairsStopped(Merger(md5), start, pairs, i + 1);
        return Raised(stopped.value);
      }
      PairGrows(md5, before, pairs[i]);
      GrownTrans(start, before, store.files);
    }
    assert pairs[..|pairs|] == pairs;
    outcome := Finished;
  }

  /** One more pair, when none before it stopped the loop. */
  lemma {:induction false} MergePairsSnoc(step: PairStep, files: map<string, string>,
                                          pairs: seq<(string, string)>, i: nat)
    requires i < |pairs| && MergePairs(step, files, pairs[..i]).stopped.None?
    ensures MergePairs(step, files, pairs[..i + 1]) == step(MergePairs(step, files, pairs[..i]).files, pairs[i])
  {
    assert pairs[..i + 1][..i] == pairs[..i];
  }

  // ---------------------------------------------------------------------------
  // The run only appends.

  /** Every file that is not a summary file is still there, with its old content as a prefix. */
  predicate Grown(before: map<string, string>, after: map<string, string>) {
    forall q :: q in before && !IsSidecar(q) ==> q in after && before[q] <= after[q]
  }

  lemma {:induction false} GrownTrans(a: map<string, string>, b: map<string, string>, c: map<string, string>)
    requires Grown(a, b) && Grown(b, c)
    ensures Grown(a, c)
  {
    forall q | q in a && !IsSidecar(q)
      ensures q in c && a[q] <= c[q]
    {
      assert c[q][..|b[q]|][..|a[q]|] == c[q][..|a[q]|];
    }
  }

  /** Merging one pair only appends. */
  lemma {:induction false} PairGrows(md5: string -> string, files: map<string, string>, pair: (string, string))
    ensures Grown(files, MergePair(md5, files, pair).files)
  {
    var (p0, p1) := pair;
    forall q | q in files && !IsSidecar(q)
      ensures q in MergePair(md5, files, pair).files && files[q] <= MergePair(md5, files, pair).files[q]
    {
      if IsPopstate(pair) {
        var b := Both(PopRows(Lines(Content(files, p0))), PopRows(Lines(Content(files, p1))));
        if b.Ok? {
          PopsGrows(files, p0, p1, b.value.0, b.value.1, q);
        }
      } else {
        var t0 := Frame(md5, Lines(Content(files, p0)));
        var t1 := Frame(md5, Lines(Content(files, p1)));
        MsgsGrows(files, p0, p1, t0, t1, q);
      }
    }
  }

  /**
   * Whatever the outcome, the run deletes nothing but summary files and
   * only ever appends to the others.
   */
  lemma {:induction false} ScriptGrows(md5: string -> string, files: map<string, string>, path1: string, path2: string,
                                    walk1: seq<Entry>, walk2: seq<Entry>)
    ensures Grown(files, Script(md5, files, path1, path2, walk1, walk2).1)
  {
    var m := Match(Sieved(walk1), Sieved(walk2), path1, path2);
    if m.Ok? {
      MergerAppends(md5);
      MergePairsGrow(Merger(md5), files, m.value.matched);
    }
  }

  /** A loop body that only appends. */
  ghost predicate Appends(step: PairStep) {
    forall files, pair :: Grown(files, step(files, pair).files)
  }

  lemma {:induction false} MergerAppends(md5: string -> string)
    ensures Appends(Merger(md5))
  {
    forall files, pair ensures Grown(files, Merger(md5)(files, pair).files) {
      PairGrows(md5, files, pair);
    }
  }

  /** A loop whose body only appends only appends. */
  lemma {:induction false} MergePairsGrow(step: PairStep, files: map<string, string>,
                                          pairs: seq<(string, string)>)
    requires Appends(step)
    ensures Grown(files, MergePairs(step, files, pairs).files)
  {
    if pairs != [] {
      var init := pairs[..|pairs| - 1];
      MergePairsGrow(step, files, init);
      var p := MergePairs(step, files, init);
      if p.stopped.None? {
        assert Grown(p.files, step(p.files, pairs[|pairs| - 1]).files);
        GrownTrans(files, p.files, MergePairs(step, files, pairs).files);
      }
    }
  }

  /** The first error stops the loop: the pairs after it change nothing. */
  lemma {:induction false} MergePairsStopped(step: PairStep, files: map<string, string>,
                                             pairs: seq<(string, string)>, i: nat)
    requires i <= |pairs| && MergePairs(step, files, pairs[..i]).stopped.Some?
    ensures MergePairs(step, files, pairs) == MergePairs(step, files, pairs[..i])
    decreases |pairs| - i
  {
    if i < |pairs| {
      assert pairs[..i + 1][..i] == pairs[..i];
      MergePairsStopped(step, files, pairs, i + 1);
    } else {
      assert pairs[..i] == pairs;
    }
  }

  // ---------------------------------------------------------------------------
  // The matched files are never summary files, so they survive every merge.

  /** The path of a walked mailbox or `popstate.dat` never ends in `.msf`. */
  lemma {:induction false} EligibleNotSidecar(e: Entry)
    requires e.name != [] && '/' !in e.name && Eligible(e.name)
    ensures !IsSidecar(FullPath(e))
  {
    PathJoinEnds(e.dir, e.name);
    NameNotSidecar(FullPath(e), e.name);
  }

  lemma {:induction false} NameNotSidecar(p: string, n: string)
    requires n != [] && ('.' !in n || n == "popstate.dat")
    requires |p| >= |n| && p[|p| - |n|..] == n
    requires p == n || (|p| > |n| && p[|p| - |n| - 1] == '/')
    ensures !IsSidecar(p)
  {
    if |p| >= 4 {
      var s := p[|p| - 4..];
      if n == "popstate.dat" {
        assert s[3] == n[|n| - 1] == 't';
      } else if |n| >= 4 {
        assert s[0] == n[|n| - 4];
      } else {
        assert s[3 - |n|] == '/';
      }
    }
  }

  /** A sieved path that was in the store is still there after the merges so far. */
  lemma {:induction false} SievedKept(walk: seq<Entry>, start: map<string, string>,
                                      now: map<string, string>, p: string)
    requires WalkNames(walk) && Walked(start, walk) && Grown(start, now) && p in Sieved(walk)
    ensures p in now
  {
    SievedMembers(walk, p);
    var e :| e in walk && Eligible(e.name) && FullPath(e) == p;
    EligibleNotSidecar(e);
  }
}
