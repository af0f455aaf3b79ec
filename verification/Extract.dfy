/**
 * `msg(offset, mailbox)`: the text of one message, read line by line from a
 * byte offset up to the next `From - ` separator line or the end of the file.
 */
module Extract {
  import opened Text

  /**
   * The index of the first separator line in `ls` at or after `j`, or `|ls|`.
   * Unlike the framer, `msg` tests the raw line and ignores headers.
   */
  function NextBoundary(ls: seq<string>, j: nat): (k: nat)
    requires j <= |ls|
    ensures j <= k <= |ls|
    decreases |ls| - j
  {
    if j == |ls| then j else if IsBoundary(ls[j]) then j else NextBoundary(ls, j + 1)
  }

  lemma {:induction false} NextBoundaryAt(ls: seq<string>, j: nat, k: nat)
    requires j <= k <= |ls|
    requires forall m :: j <= m < k ==> !IsBoundary(ls[m])
    requires k == |ls| || IsBoundary(ls[k])
    ensures NextBoundary(ls, j) == k
    decreases k - j
  {
    if j < k {
      NextBoundaryAt(ls, j + 1, k);
    }
  }

  /** The lines `msg` collects: the first line read, then up to the next separator. */
  function MsgLines(mailbox: string, offset: nat): seq<string> {
    if offset >= |mailbox| then []
    else
      var ls := LinesFrom(mailbox, offset);
      ls[..NextBoundary(ls, 1)]
  }

  /** The text `msg` returns. */
  function MsgText(mailbox: string, offset: nat): string {
    Concat(MsgLines(mailbox, offset))
  }

  /** `msg(offset, mailbox)`. */
  method Msg(offset: nat, mailbox: string) returns (r: string)
    ensures r == MsgText(mailbox, offset)
  {
    var message: seq<string> := [];
    // `f.seek(offset)`: past the end of the file, `readline` reads nothing, as at the end
    var pos := if offset <= |mailbox| then offset else |mailbox|;
    var i := 0;
    ghost var ls := LinesFrom(mailbox, pos);
    while pos < |mailbox|
      invariant i == |message| && pos <= |mailbox|
      invariant ls == message + LinesFrom(mailbox, pos)
      invariant forall m :: 1 <= m < i ==> !IsBoundary(message[m])
      decreases |mailbox| - pos
    {
      var l := ReadLine(mailbox, pos);
      var e := LineEnd(mailbox, pos);
      LinesFromStep(mailbox, pos);
      if IsBoundary(l) && i > 0 {
        assert ls[i] == l && ls[..i] == message;
        NextBoundaryAt(ls, 1, i);
        r := Concat(message);
        return;
      }
      message := message + [l];
      i := i + 1;
      pos := e;
    }
    if offset < |mailbox| {
      assert ls == message;
      NextBoundaryAt(ls, 1, |ls|);
      assert ls[..|ls|] == ls;
    }
    r := Concat(message);
  }

  lemma {:induction false} LinesFromStep(c: string, pos: nat)
    requires pos < |c|
    ensures LinesFrom(c, pos) == [ReadLine(c, pos)] + LinesFrom(c, LineEnd(c, pos))
  {
  }

  /**
   * What `msg` returns at an offset inside the file: the text that starts
   * there and runs through at least the first line read.
   */
  lemma {:induction false} MsgSpan(mailbox: string, offset: nat)
    requires offset < |mailbox|
    ensures var r := MsgText(mailbox, offset);
      && offset + |r| <= |mailbox| && r == mailbox[offset..offset + |r|]
      && ReadLine(mailbox, offset) <= r
  {
    var ls := LinesFrom(mailbox, offset);
    var k := NextBoundary(ls, 1);
    MsgIsSlice(mailbox, offset, ls, k);
    MsgFirstLine(mailbox, offset, ls, k);
  }

  lemma {:induction false} MsgIsSlice(mailbox: string, offset: nat, ls: seq<string>, k: nat)
    requires offset < |mailbox| && ls == LinesFrom(mailbox, offset) && k <= |ls|
    ensures offset + |Concat(ls[..k])| <= |mailbox|
    ensures Concat(ls[..k]) == mailbox[offset..offset + |Concat(ls[..k])|]
  {
    LinesFromConcat(mailbox, offset);
    assert ls == ls[..k] + ls[k..];
    ConcatAppend(ls[..k], ls[k..]);
  }

  lemma {:induction false} MsgFirstLine(mailbox: string, offset: nat, ls: seq<string>, k: nat)
    requires offset < |mailbox| && ls == LinesFrom(mailbox, offset) && 1 <= k <= |ls|
    ensures ReadLine(mailbox, offset) <= Concat(ls[..k])
  {
    LinesFromStep(mailbox, offset);
    assert ls[..k][0] == ls[0];
  }

  /**
   * Where `msg` stops: of the lines from the offset, it takes the first and
   * then every line up to, not including, the next separator line, or up to
   * the end of the file.
   */
  lemma {:induction false} MsgStops(mailbox: string, offset: nat)
    requires offset < |mailbox|
    ensures var ls := LinesFrom(mailbox, offset); var n := |MsgLines(mailbox, offset)|;
      && 1 <= n <= |ls| && MsgLines(mailbox, offset) == ls[..n]
      && (forall m :: 1 <= m < n ==> !IsBoundary(ls[m]))
      && (n == |ls| || IsBoundary(ls[n]))
  {
    var ls := LinesFrom(mailbox, offset);
    assert ls != [] by {
      assert ls == [ReadLine(mailbox, offset)] + LinesFrom(mailbox, LineEnd(mailbox, offset));
    }
    NextBoundaryBefore(ls, 1);
  }

  lemma {:induction false} NextBoundaryBefore(ls: seq<string>, j: nat)
    requires j <= |ls|
    ensures forall m :: j <= m < NextBoundary(ls, j) ==> !IsBoundary(ls[m])
    ensures NextBoundary(ls, j) < |ls| ==> IsBoundary(ls[NextBoundary(ls, j)])
    decreases |ls| - j
  {
    if j < |ls| && !IsBoundary(ls[j]) {
      NextBoundaryBefore(ls, j + 1);
    }
  }

  /** At the offset of line `n` of the file, `msg` returns lines `n` up to the next separator. */
  lemma {:induction false} MsgAtLine(mailbox: string, n: nat)
    requires n < |Lines(mailbox)|
    ensures var ls := Lines(mailbox);
      MsgLines(mailbox, SumLen(ls[..n])) == ls[n..NextBoundary(ls, n + 1)]
  {
    var ls := Lines(mailbox);
    LinesAt(mailbox, n);
    var rest := ls[n..];
    LinesFromConcat(mailbox, SumLen(ls[..n]));
    assert SumLen(ls[..n]) < |mailbox|;
    NextBoundaryShift(ls, n, 1);
  }

  /** Searching the suffix from `n` is searching the whole from `n + j`. */
  lemma {:induction false} NextBoundaryShift(ls: seq<string>, n: nat, j: nat)
    requires n + j <= |ls|
    ensures NextBoundary(ls[n..], j) + n == NextBoundary(ls, n + j)
    ensures ls[n..][..NextBoundary(ls[n..], j)] == ls[n..NextBoundary(ls, n + j)]
    decreases |ls| - n - j
  {
    if n + j < |ls| {
      assert ls[n..][j] == ls[n + j];
      NextBoundaryShift(ls, n, j + 1);
    }
  }
}
