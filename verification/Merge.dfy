/**
 * The files of the two profiles and the message merge of `comparemsgs`: each
 * mailbox of a matched pair is appended the messages of the other whose
 * fingerprint its own table lacks, and loses its `.msf` summary file when it
 * gained anything.
 */
module Merge {
  import opened Text
  import opened Table
  import opened Framer
  import opened Extract

  /** The content of `p`, or nothing when there is no such file. */
  function Content(files: map<string, string>, p: string): string {
    if p in files then files[p] else ""
  }

  /** `open(p, 'a')`: creates an empty file when there is none. */
  function Opened(files: map<string, string>, p: string): (r: map<string, string>)
    ensures p in r && r[p] == Content(files, p)
    ensures forall q :: q != p ==> (q in r <==> q in files) && (q in files ==> r[q] == files[q])
  {
    if p in files then files else files[p := ""]
  }

  /** The summary file Thunderbird keeps beside the mailbox `p`. */
  function Sidecar(p: string): string {
    p + ".msf"
  }

  /** Whether `q` names a summary file: it ends in `.msf`. */
  predicate IsSidecar(q: string) {
    |q| >= 4 && q[|q| - 4..] == ".msf"
  }

  lemma {:induction false} SidecarIsSidecar(p: string)
    ensures IsSidecar(Sidecar(p))
  {
    assert Sidecar(p)[|Sidecar(p)| - 4..] == ".msf";
  }

  /** `os.remove(p + '.msf')` once `u > 0` messages were added, when that file exists. */
  function Unlinked(files: map<string, string>, p: string, u: nat): (r: map<string, string>)
    ensures Sidecar(p) in r <==> Sidecar(p) in files && u == 0
    ensures forall q :: q != Sidecar(p) ==> (q in r <==> q in files) && (q in files ==> r[q] == files[q])
  {
    if u > 0 && Sidecar(p) in files then files - {Sidecar(p)} else files
  }

  /**
   * The files after `msg(off, source)` was appended to `target` for each
   * offset in turn, each message read from the file as it is at that moment.
   */
  function Transferred(files: map<string, string>, target: string, source: string, offs: seq<nat>)
    : map<string, string>
  {
    if offs == [] then files
    else
      var f := Transferred(files, target, source, offs[..|offs| - 1]);
      f[target := Content(f, target) + MsgText(Content(f, source), offs[|offs| - 1])]
  }

  /** One more offset is one more append, reading the source as it is then. */
  lemma {:induction false} TransferredSnoc(files: map<string, string>, target: string, source: string,
                                           offs: seq<nat>, u: nat)
    requires u < |offs|
    ensures var f := Transferred(files, target, source, offs[..u]);
      Transferred(files, target, source, offs[..u + 1])
      == f[target := Content(f, target) + MsgText(Content(f, source), offs[u])]
  {
    assert offs[..u + 1][..u] == offs[..u];
  }

  /** The messages at the offsets `offs` of `mailbox`, as `msg` reads them. */
  function Texts(mailbox: string, offs: seq<nat>): (r: seq<string>)
    ensures |r| == |offs|
  {
    if offs == [] then [] else Texts(mailbox, offs[..|offs| - 1]) + [MsgText(mailbox, offs[|offs| - 1])]
  }

  /** The whole of `comparemsgs` on the pair `(p0, p1)` with the tables `t0`, `t1` built beforehand. */
  function MsgsMerged(files: map<string, string>, p0: string, p1: string, t0: seq<Record>, t1: seq<Record>)
    : map<string, string>
  {
    var into0 := Missing(t1, t0);
    var f1 := Unlinked(Transferred(Opened(files, p0), p0, p1, Vals(into0)), p0, |into0|);
    var into1 := Missing(t0, t1);
    Unlinked(Transferred(Opened(f1, p1), p1, p0, Vals(into1)), p1, |into1|)
  }

  /** The files of both profiles, by path, as the merge changes them. */
  class FileStore {
    var files: map<string, string>

    constructor (contents: map<string, string>)
      ensures files == contents
    {
      files := contents;
    }

    /** `open(path, 'a')`. */
    method Open(path: string)
      modifies this
      ensures files == Opened(old(files), path)
    {
      if path !in files {
        files := files[path := ""];
      }
    }

    /** `f.write(text)` on a file opened for appending. */
    method Write(path: string, text: string)
      requires path in files
      modifies this
      ensures files == old(files)[path := old(files)[path] + text]
    {
      files := files[path := files[path] + text];
    }

    /** `os.remove(path)`. */
    method Unlink(path: string)
      requires path in files
      modifies this
      ensures files == old(files) - {path}
    {
      files := files - {path};
    }

    /** The fetch loop of `comparemsgs`: append `msg(off, source)` to `target` for each row. */
    method CopyMessages(target: string, source: string, rows: seq<Record>) returns (u: nat)
      requires source in files
      modifies this
      ensures files == Transferred(Opened(old(files), target), target, source, Vals(rows))
      ensures u == |rows|
    {
      Open(target);
      ghost var start := files;
      var offs := Vals(rows);
      u := 0;
      while u < |rows|
        invariant u <= |rows|
        invariant files == Transferred(start, target, source, offs[..u])
        invariant target in files && source in files
      {
        TransferredSnoc(start, target, source, offs, u);
        var m := Msg(rows[u].val, files[source]);
        Write(target, m);
        u := u + 1;
      }
      assert offs[..|rows|] == offs;
    }

    /** `comparemsgs(filepaths, cur)` for the pair `(p0, p1)` with the tables `t0` and `t1`. */
    method CompareMsgs(p0: string, p1: string, t0: seq<Record>, t1: seq<Record>) returns (u0: nat, u1: nat)
      requires p0 in files && p1 in files
      modifies this
      ensures files == MsgsMerged(old(files), p0, p1, t0, t1)
      ensures u0 == |Missing(t1, t0)| && u1 == |Missing(t0, t1)|
    {
      u0 := CopyMessages(p0, p1, Missing(t1, t0));
      if u0 > 0 && Sidecar(p0) in files {
        Unlink(Sidecar(p0));
      }
      assert p0 != Sidecar(p0);
      u1 := CopyMessages(p1, p0, Missing(t0, t1));
      if u1 > 0 && Sidecar(p1) in files {
        Unlink(Sidecar(p1));
      }
    }
  }

  // ---------------------------------------------------------------------------
  // What the merge does to each file.

  /** Copying messages into `target` changes no other file. */
  lemma {:induction false} TransferredKeeps(files: map<string, string>, target: string, source: string,
                                            offs: seq<nat>, q: string)
    requires q != target
    ensures var f := Transferred(files, target, source, offs);
      (q in f <==> q in files) && (q in files ==> f[q] == files[q])
  {
    if offs != [] {
      TransferredKeeps(files, target, source, offs[..|offs| - 1], q);
    }
  }

  /** Copying messages into a file other than their source appends their texts to it, in row order. */
  lemma {:induction false} TransferredContent(files: map<string, string>, target: string, source: string,
                                              offs: seq<nat>)
    requires target != source
    ensures Content(Transferred(files, target, source, offs), target)
         == Content(files, target) + Concat(Texts(Content(files, source), offs))
  {
    if offs == [] {
    } else {
      var init := offs[..|offs| - 1];
      var src := Content(files, source);
      TransferredContent(files, target, source, init);
      TransferredStep(files, target, source, offs);
      TextsSnoc(src, offs);
      AppendAssoc(Content(files, target), Concat(Texts(src, init)), MsgText(src, offs[|offs| - 1]));
    }
  }

  /** The texts of all offsets are those of all but the last, and then the last. */
  lemma {:induction false} TextsSnoc(mailbox: string, offs: seq<nat>)
    requires offs != []
    ensures Concat(Texts(mailbox, offs))
         == Concat(Texts(mailbox, offs[..|offs| - 1])) + MsgText(mailbox, offs[|offs| - 1])
  {
    ConcatSnoc(Texts(mailbox, offs[..|offs| - 1]), MsgText(mailbox, offs[|offs| - 1]));
  }

  /** One step of the copy, with the source unchanged by the steps before it. */
  lemma {:induction false} TransferredStep(files: map<string, string>, target: string, source: string,
                                           offs: seq<nat>)
    requires target != source && offs != []
    ensures var init := offs[..|offs| - 1];
      Content(Transferred(files, target, source, offs), target)
      == Content(Transferred(files, target, source, init), target)
         + MsgText(Content(files, source), offs[|offs| - 1])
  {
    TransferredKeeps(files, target, source, offs[..|offs| - 1], source);
  }

  lemma {:induction false} TransferredHasTarget(files: map<string, string>, target: string, source: string,
                                                offs: seq<nat>)
    requires target in files
    ensures target in Transferred(files, target, source, offs)
  {
    if offs != [] {
      TransferredHasTarget(files, target, source, offs[..|offs| - 1]);
    }
  }

  lemma {:induction false} SidecarsDiffer(p0: string, p1: string)
    requires p0 != p1
    ensures Sidecar(p0) != Sidecar(p1)
  {
    if |p0| == |p1| {
      assert Sidecar(p0)[..|p0|] == p0 && Sidecar(p1)[..|p1|] == p1;
    }
  }

  /** The names that the merge of `(p0, p1)` keeps apart. */
  predicate Apart(p0: string, p1: string) {
    p0 != p1 && p0 != Sidecar(p1) && p1 != Sidecar(p0)
  }

  /**
   * `comparemsgs` only appends: `p0` gains the messages of `p1` whose
   * fingerprint `t0` lacks, and then `p1` gains the messages of `p0`, as it
   * reads after the first step, whose fingerprint `t1` lacks.
   */
  lemma {:induction false} MsgsAppended(files: map<string, string>, p0: string, p1: string,
                                        t0: seq<Record>, t1: seq<Record>)
    requires p0 in files && p1 in files && Apart(p0, p1)
    ensures var f := MsgsMerged(files, p0, p1, t0, t1);
      && p0 in f && p1 in f
      && f[p0] == files[p0] + Concat(Texts(files[p1], Vals(Missing(t1, t0))))
      && f[p1] == files[p1] + Concat(Texts(f[p0], Vals(Missing(t0, t1))))
  {
    var into0 := Missing(t1, t0);
    var into1 := Missing(t0, t1);
    var g0 := Transferred(Opened(files, p0), p0, p1, Vals(into0));
    TransferredContent(Opened(files, p0), p0, p1, Vals(into0));
    TransferredHasTarget(Opened(files, p0), p0, p1, Vals(into0));
    TransferredKeeps(Opened(files, p0), p0, p1, Vals(into0), p1);
    var f1 := Unlinked(g0, p0, |into0|);
    assert p0 in f1 && f1[p0] == files[p0] + Concat(Texts(files[p1], Vals(into0)));
    assert p1 in f1 && f1[p1] == files[p1];
    var g1 := Transferred(Opened(f1, p1), p1, p0, Vals(into1));
    TransferredContent(Opened(f1, p1), p1, p0, Vals(into1));
    TransferredHasTarget(Opened(f1, p1), p1, p0, Vals(into1));
    TransferredKeeps(Opened(f1, p1), p1, p0, Vals(into1), p0);
  }

  /** A summary file disappears exactly when its mailbox gained at least one message. */
  lemma {:induction false} MsgsSidecars(files: map<string, string>, p0: string, p1: string,
                                        t0: seq<Record>, t1: seq<Record>)
    requires Apart(p0, p1)
    ensures var f := MsgsMerged(files, p0, p1, t0, t1);
      && (Sidecar(p0) in f <==> Sidecar(p0) in files && |Missing(t1, t0)| == 0)
      && (Sidecar(p1) in f <==> Sidecar(p1) in files && |Missing(t0, t1)| == 0)
  {
    var into0 := Missing(t1, t0);
    var into1 := Missing(t0, t1);
    SidecarsDiffer(p0, p1);
    assert p0 != Sidecar(p0) && p1 != Sidecar(p1);
    var g0 := Transferred(Opened(files, p0), p0, p1, Vals(into0));
    TransferredKeeps(Opened(files, p0), p0, p1, Vals(into0), Sidecar(p0));
    TransferredKeeps(Opened(files, p0), p0, p1, Vals(into0), Sidecar(p1));
    var f1 := Unlinked(g0, p0, |into0|);
    TransferredKeeps(Opened(f1, p1), p1, p0, Vals(into1), Sidecar(p0));
    TransferredKeeps(Opened(f1, p1), p1, p0, Vals(into1), Sidecar(p1));
  }

  /** No file other than the pair and their summary files is touched. */
  lemma {:induction false} MsgsElsewhere(files: map<string, string>, p0: string, p1: string,
                                         t0: seq<Record>, t1: seq<Record>, q: string)
    requires q != p0 && q != p1 && q != Sidecar(p0) && q != Sidecar(p1)
    ensures var f := MsgsMerged(files, p0, p1, t0, t1);
      (q in f <==> q in files) && (q in files ==> f[q] == files[q])
  {
    var into0 := Missing(t1, t0);
    var into1 := Missing(t0, t1);
    TransferredKeeps(Opened(files, p0), p0, p1, Vals(into0), q);
    var f1 := Unlinked(Transferred(Opened(files, p0), p0, p1, Vals(into0)), p0, |into0|);
    TransferredKeeps(Opened(f1, p1), p1, p0, Vals(into1), q);
  }

  /**
   * The offsets copied into `p0` are those of the rows of `t1` whose
   * fingerprint is nowhere in `t0`, every copy of such a row included.
   */
  lemma {:induction false} MsgsSelected(t0: seq<Record>, t1: seq<Record>, r: Record)
    ensures r in Missing(t1, t0) <==> r in t1 && r.key !in Keys(t0)
    ensures multiset(Missing(t1, t0))[r] == if r.key in Keys(t0) then 0 else multiset(t1)[r]
  {
    MissingMembers(t1, t0, r);
    MissingCount(t1, t0, r);
  }

  /** Copying messages only appends: every file keeps its content as a prefix. */
  lemma {:induction false} TransferredGrows(files: map<string, string>, target: string, source: string,
                                            offs: seq<nat>, q: string)
    requires q in files
    ensures var f := Transferred(files, target, source, offs); q in f && files[q] <= f[q]
  {
    if offs != [] {
      var init := offs[..|offs| - 1];
      TransferredGrows(files, target, source, init, q);
      var f := Transferred(files, target, source, init);
      if q == target {
        var m := MsgText(Content(f, source), offs[|offs| - 1]);
        assert (f[q] + m)[..|files[q]|] == f[q][..|files[q]|];
      }
    }
  }

  /**
   * `comparemsgs` never shortens a file and deletes nothing but summary
   * files: every other file keeps its content as a prefix.
   */
  lemma {:induction false} MsgsGrows(files: map<string, string>, p0: string, p1: string,
                                     t0: seq<Record>, t1: seq<Record>, q: string)
    requires q in files && !IsSidecar(q)
    ensures var f := MsgsMerged(files, p0, p1, t0, t1); q in f && files[q] <= f[q]
  {
    var into0 := Missing(t1, t0);
    var into1 := Missing(t0, t1);
    SidecarIsSidecar(p0);
    SidecarIsSidecar(p1);
    TransferredGrows(Opened(files, p0), p0, p1, Vals(into0), q);
    var f1 := Unlinked(Transferred(Opened(files, p0), p0, p1, Vals(into0)), p0, |into0|);
    TransferredGrows(Opened(f1, p1), p1, p0, Vals(into1), q);
  }
}
