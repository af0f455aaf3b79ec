/**
 * The mailbox framer of `store_hashes`: one pass over the lines of an mbox
 * file that cuts it into messages at Thunderbird's `From - ` separator lines
 * and records, per message, a fingerprint and the byte offset of its
 * separator.  MD5 is a parameter: the framer only ever applies it to the
 * joined header lines followed by the joined body lines.
 */
module Framer {
  import opened Text
  import opened Table

  /** One row of the table `Mbx<i>`: the fingerprint of a message and its offset. */
  type Record = Row<nat>

  /**
   * The loop state of `store_hashes` between two lines: `count` is the index
   * of the next line and `table` the rows inserted so far.
   */
  datatype Scan = Scan(inheader: bool, header: seq<string>, message: seq<string>,
                       offset: nat, msgoffset: nat, count: nat, table: seq<Record>)

  const Start: Scan := Scan(false, [], [], 0, 0, 0, [])

  /** `h.update('\n'.join(header)); h.update('\n'.join(message)); h.hexdigest()`. */
  function Fingerprint(md5: string -> string, header: seq<string>, message: seq<string>): string {
    md5(JoinLines(header) + JoinLines(message))
  }

  /** One iteration of the loop of `store_hashes` on the raw line `line`. */
  function Step(md5: string -> string, s: Scan, line: string): (r: Scan)
    ensures r.offset == s.offset + |line| && r.count == s.count + 1
    ensures r.table == s.table
         || (!s.inheader && IsBoundary(RStrip(line)) && s.count > 0
             && r.table == s.table + [Row(Fingerprint(md5, s.header, s.message), s.msgoffset)])
  {
    var l2 := RStrip(line);
    var s' :=
      if !s.inheader && IsBoundary(l2) then
        if s.count > 0 then
          s.(inheader := true, header := [], message := [], msgoffset := s.offset,
             table := s.table + [Row(Fingerprint(md5, s.header, s.message), s.msgoffset)])
        else s.(inheader := true)
      else if s.inheader && IsWhitelisted(l2) then s.(header := s.header + [l2])
      else if s.inheader && l2 == [] then s.(inheader := false)
      else if !s.inheader then s.(message := s.message + [l2])
      else s;
    s'.(offset := s.offset + |line|, count := s.count + 1)
  }

  /** The state after feeding `lines` to the loop from state `s`. */
  function Run(md5: string -> string, s: Scan, lines: seq<string>): Scan {
    if lines == [] then s else Step(md5, Run(md5, s, lines[..|lines| - 1]), lines[|lines| - 1])
  }

  /** The table `store_hashes` leaves for a file of these lines, the `for … else` row included. */
  function Frame(md5: string -> string, lines: seq<string>): seq<Record> {
    var s := Run(md5, Start, lines);
    s.table + [Row(Fingerprint(md5, s.header, s.message), s.msgoffset)]
  }

  /** `store_hashes` on one mailbox whose content is `mailbox`. */
  method StoreHashes(md5: string -> string, mailbox: string) returns (table: seq<Record>)
    ensures table == Frame(md5, Lines(mailbox))
  {
    var lines := Lines(mailbox);
    var inheader := false;
    var message: seq<string> := [];
    var header: seq<string> := [];
    var offset: nat := 0;
    var msgoffset: nat := 0;
    table := [];
    for i := 0 to |lines|
      invariant Run(md5, Start, lines[..i]) == Scan(inheader, header, message, offset, msgoffset, i, table)
    {
      var line := lines[i];
      assert lines[..i + 1][..i] == lines[..i];
      var line2 := RStrip(line);
      if !inheader && IsBoundary(line2) {
        inheader := true;
        if i > 0 {
          table := table + [Row(md5(JoinLines(header) + JoinLines(message)), msgoffset)];
          message := [];
          header := [];
          msgoffset := offset;
        }
      } else if inheader && IsWhitelisted(line2) {
        header := header + [line2];
      } else if inheader && line2 == "" {
        inheader := false;
      } else if !inheader {
        message := message + [line2];
      }
      offset := offset + |line|;
    }
    assert lines[..|lines|] == lines;
    table := table + [Row(md5(JoinLines(header) + JoinLines(message)), msgoffset)];
  }

  // ---------------------------------------------------------------------------
  // Where the records are.

  /**
   * Whether the framer is inside a header after `lines`: a separator line
   * outside a header enters one, the first blank line leaves it.
   */
  function InHeader(lines: seq<string>): bool {
    if lines == [] then false
    else
      var l2 := RStrip(lines[|lines| - 1]);
      if InHeader(lines[..|lines| - 1]) then l2 != [] else IsBoundary(l2)
  }

  /**
   * The byte offsets of the separator lines that open a message and close
   * the one before it: seen outside a header, and not the very first line.
   */
  function Openings(lines: seq<string>): seq<nat> {
    if lines == [] then []
    else
      var init := lines[..|lines| - 1];
      Openings(init)
        + (if |init| > 0 && !InHeader(init) && IsBoundary(RStrip(lines[|lines| - 1])) then [SumLen(init)] else [])
  }

  lemma {:induction false} ValsSnoc(t: seq<Record>, r: Record)
    ensures Vals(t + [r]) == Vals(t) + [r.val]
  {
  }

  /** The control part of the state after `lines` from the start, whatever the hash. */
  lemma {:induction false} RunShape(md5: string -> string, lines: seq<string>)
    ensures var s := Run(md5, Start, lines);
      && s.inheader == InHeader(lines) && s.offset == SumLen(lines) && s.count == |lines|
      && Vals(s.table) + [s.msgoffset] == [0] + Openings(lines)
  {
    if lines != [] {
      var init := lines[..|lines| - 1];
      RunShape(md5, init);
      var s := Run(md5, Start, init);
      var l2 := RStrip(lines[|lines| - 1]);
      assert !IsWhitelisted([]);
      if !s.inheader && IsBoundary(l2) && s.count > 0 {
        ValsSnoc(s.table, Row(Fingerprint(md5, s.header, s.message), s.msgoffset));
      }
    }
  }

  /**
   * One record per separator line seen outside a header after line 0, plus
   * the final one: the first at offset 0, each later one at the offset of its
   * separator line.
   */
  lemma {:induction false} FrameVals(md5: string -> string, lines: seq<string>)
    ensures Vals(Frame(md5, lines)) == [0] + Openings(lines)
    ensures |Frame(md5, lines)| == 1 + |Openings(lines)|
  {
    RunShape(md5, lines);
    var s := Run(md5, Start, lines);
    ValsSnoc(s.table, Row(Fingerprint(md5, s.header, s.message), s.msgoffset));
  }

  /** An empty mailbox still yields one record, at offset 0, fingerprinting nothing. */
  lemma {:induction false} EmptyMailbox(md5: string -> string)
    ensures Frame(md5, Lines("")) == [Row(md5(""), 0)]
  {
    assert Lines("") == [];
  }

  // ---------------------------------------------------------------------------
  // What a fingerprint depends on.

  /** The header lines the framer keeps: rstripped, whitelisted, in order. */
  function Kept(hdr: seq<string>): seq<string> {
    if hdr == [] then []
    else
      var l2 := RStrip(hdr[|hdr| - 1]);
      Kept(hdr[..|hdr| - 1]) + (if IsWhitelisted(l2) then [l2] else [])
  }

  /** The body lines as the framer keeps them: rstripped. */
  function Stripped(body: seq<string>): seq<string> {
    seq(|body|, i requires 0 <= i < |body| => RStrip(body[i]))
  }

  lemma {:induction false} RunAppend(md5: string -> string, s: Scan, xs: seq<string>, ys: seq<string>)
    ensures Run(md5, s, xs + ys) == Run(md5, Run(md5, s, xs), ys)
    decreases |ys|
  {
    if ys == [] {
      assert xs + ys == xs;
    } else {
      var init := ys[..|ys| - 1];
      RunAppend(md5, s, xs, init);
      assert (xs + ys)[..|xs + ys| - 1] == xs + init;
    }
  }

  /** Rows once inserted stay: the table only grows. */
  lemma {:induction false} TableGrows(md5: string -> string, s: Scan, lines: seq<string>)
    ensures s.table <= Run(md5, s, lines).table
  {
    if lines != [] {
      TableGrows(md5, s, lines[..|lines| - 1]);
    }
  }

  /** Non-blank lines inside a header: whitelisted ones are collected, the rest ignored. */
  lemma {:induction false} RunHeader(md5: string -> string, s: Scan, hdr: seq<string>)
    requires s.inheader
    requires forall l :: l in hdr ==> RStrip(l) != []
    ensures Run(md5, s, hdr)
         == s.(header := s.header + Kept(hdr), offset := s.offset + SumLen(hdr), count := s.count + |hdr|)
  {
    if hdr != [] {
      var init := hdr[..|hdr| - 1];
      assert forall l :: l in init ==> l in hdr;
      RunHeader(md5, s, init);
      assert hdr[|hdr| - 1] in hdr;
    }
  }

  /** Body lines, none of them a separator: each is collected rstripped. */
  lemma {:induction false} RunBody(md5: string -> string, s: Scan, body: seq<string>)
    requires !s.inheader
    requires forall l :: l in body ==> !IsBoundary(RStrip(l))
    ensures Run(md5, s, body)
         == s.(message := s.message + Stripped(body), offset := s.offset + SumLen(body), count := s.count + |body|)
  {
    if body != [] {
      var init := body[..|body| - 1];
      assert forall l :: l in init ==> l in body;
      RunBody(md5, s, init);
      assert body[|body| - 1] in body;
      assert Stripped(body) == Stripped(init) + [RStrip(body[|body| - 1])];
    }
  }

  /** A separator line after the first line, seen outside a header, starts afresh at its own offset. */
  lemma {:induction false} OpenMessage(md5: string -> string, pre: seq<string>, b: string)
    requires !InHeader(pre) && IsBoundary(RStrip(b))
    ensures var s := Run(md5, Start, pre + [b]);
      s.inheader && s.header == [] && s.message == [] && s.msgoffset == SumLen(pre)
  {
    RunShape(md5, pre);
    assert (pre + [b])[..|pre|] == pre;
    if pre == [] {
      assert Run(md5, Start, pre) == Start;
    }
  }

  /** The state at the end of a message's body: its header and body collected, its offset noted. */
  lemma {:induction false} MessageScanned(md5: string -> string, pre: seq<string>, b: string, hdr: seq<string>, blank: string,
                       body: seq<string>)
    requires !InHeader(pre) && IsBoundary(RStrip(b))
    requires forall l :: l in hdr ==> RStrip(l) != []
    requires RStrip(blank) == []
    requires forall l :: l in body ==> !IsBoundary(RStrip(l))
    ensures var s := Run(md5, Start, pre + [b] + hdr + [blank] + body);
      !s.inheader && s.header == Kept(hdr) && s.message == Stripped(body) && s.msgoffset == SumLen(pre)
  {
    OpenMessage(md5, pre, b);
    var s0 := Run(md5, Start, pre + [b]);
    RunHeader(md5, s0, hdr);
    RunAppend(md5, Start, pre + [b], hdr);
    var s1 := Run(md5, Start, pre + [b] + hdr);
    assert !IsWhitelisted(RStrip(blank));
    assert (pre + [b] + hdr + [blank])[..|pre + [b] + hdr|] == pre + [b] + hdr;
    var s2 := Run(md5, Start, pre + [b] + hdr + [blank]);
    assert !s2.inheader && s2.header == Kept(hdr) && s2.message == [] && s2.msgoffset == SumLen(pre);
    RunBody(md5, s2, body);
    RunAppend(md5, Start, pre + [b] + hdr + [blank], body);
  }

  /**
   * A message of the mailbox, from its separator line `b` through its header
   * `hdr`, the blank line `blank` and its body, and followed by another
   * separator or the end of the file, is recorded at the offset of `b` with
   * the fingerprint of its whitelisted header lines and its rstripped body.
   */
  lemma {:induction false} MessageRecorded(md5: string -> string, pre: seq<string>, b: string, hdr: seq<string>, blank: string,
                        body: seq<string>, post: seq<string>)
    requires !InHeader(pre) && IsBoundary(RStrip(b))
    requires forall l :: l in hdr ==> RStrip(l) != []
    requires RStrip(blank) == []
    requires forall l :: l in body ==> !IsBoundary(RStrip(l))
    requires post == [] || IsBoundary(RStrip(post[0]))
    ensures Row(Fingerprint(md5, Kept(hdr), Stripped(body)), SumLen(pre))
         in Frame(md5, pre + [b] + hdr + [blank] + body + post)
  {
    var front := pre + [b] + hdr + [blank] + body;
    MessageScanned(md5, pre, b, hdr, blank, body);
    if post == [] {
      assert front + post == front;
      FrameLast(md5, front);
    } else {
      assert front + [post[0]] + post[1..] == front + post;
      ClosedMessage(md5, front, post[0], post[1..]);
    }
  }

  /** A separator outside a header closes the message being collected: its row goes in the table. */
  lemma {:induction false} ClosedMessage(md5: string -> string, front: seq<string>, x: string, rest: seq<string>)
    requires front != [] && !Run(md5, Start, front).inheader && IsBoundary(RStrip(x))
    ensures var s := Run(md5, Start, front);
      Row(Fingerprint(md5, s.header, s.message), s.msgoffset) in Frame(md5, front + [x] + rest)
  {
    var s := Run(md5, Start, front);
    RunShape(md5, front);
    assert (front + [x])[..|front|] == front;
    var s' := Run(md5, Start, front + [x]);
    assert Row(Fingerprint(md5, s.header, s.message), s.msgoffset) in s'.table;
    TableGrows(md5, s', rest);
    RunAppend(md5, Start, front + [x], rest);
  }

  /**
   * A message whose header runs to the end of the file, with no blank line,
   * is the last record, with the fingerprint of its whitelisted header lines
   * and an empty body.
   */
  lemma {:induction false} HeaderOnlyRecorded(md5: string -> string, pre: seq<string>, b: string, hdr: seq<string>)
    requires !InHeader(pre) && IsBoundary(RStrip(b))
    requires forall l :: l in hdr ==> RStrip(l) != []
    ensures var t := Frame(md5, pre + [b] + hdr);
      t[|t| - 1] == Row(Fingerprint(md5, Kept(hdr), []), SumLen(pre))
  {
    var front := pre + [b];
    OpenMessage(md5, pre, b);
    var s0 := Run(md5, Start, front);
    RunHeader(md5, s0, hdr);
    RunAppend(md5, Start, front, hdr);
    var s := Run(md5, Start, front + hdr);
    assert s.header == Kept(hdr) && s.message == [] && s.msgoffset == SumLen(pre);
    FrameLast(md5, front + hdr);
  }

  /** The last record of the table is the one the `for … else` adds. */
  lemma {:induction false} FrameLast(md5: string -> string, lines: seq<string>)
    ensures var s := Run(md5, Start, lines); var t := Frame(md5, lines);
      t[|t| - 1] == Row(Fingerprint(md5, s.header, s.message), s.msgoffset)
  {
  }

  /**
   * Hence the same message in two mailboxes, wherever it sits, gets the same
   * fingerprint in both tables.
   */
  lemma {:induction false} SameMessageSameHash(md5: string -> string, pre1: seq<string>, pre2: seq<string>, b1: string, b2: string,
                            hdr: seq<string>, blank: string, body: seq<string>, post1: seq<string>, post2: seq<string>)
    requires !InHeader(pre1) && IsBoundary(RStrip(b1)) && !InHeader(pre2) && IsBoundary(RStrip(b2))
    requires forall l :: l in hdr ==> RStrip(l) != []
    requires RStrip(blank) == []
    requires forall l :: l in body ==> !IsBoundary(RStrip(l))
    requires post1 == [] || IsBoundary(RStrip(post1[0]))
    requires post2 == [] || IsBoundary(RStrip(post2[0]))
    ensures exists r1, r2 :: r1 in Frame(md5, pre1 + [b1] + hdr + [blank] + body + post1)
                          && r2 in Frame(md5, pre2 + [b2] + hdr + [blank] + body + post2)
                          && r1.key == r2.key && r1.val == SumLen(pre1) && r2.val == SumLen(pre2)
  {
    MessageRecorded(md5, pre1, b1, hdr, blank, body, post1);
    MessageRecorded(md5, pre2, b2, hdr, blank, body, post2);
  }

  /**
   * Appending a message does not always give it a record of its own.  The
   * mailbox `[sa, ha]` ends inside the header of its last message, which never
   * reaches a blank line.  When the message `[sb, hb, blank, x]` is appended,
   * its separator `sb` is read as one more header line: the joined file has a
   * single record, whose fingerprint covers both subject lines.  So the
   * appended message's own fingerprint is among the keys only on an MD5
   * collision between two different texts, and a second merge appends it
   * again.
   */
  lemma {:induction false} OpenHeaderSwallows(md5: string -> string, sa: string, ha: string,
                                              sb: string, hb: string, blank: string, x: string)
    requires IsBoundary(RStrip(sa)) && IsBoundary(RStrip(sb)) && !IsWhitelisted(RStrip(sb))
    requires IsWhitelisted(RStrip(ha)) && IsWhitelisted(RStrip(hb))
    requires RStrip(blank) == [] && !IsBoundary(RStrip(x))
    ensures var joined := Frame(md5, [sa, ha] + [sb, hb, blank, x]);
      var alone := Frame(md5, [sb, hb, blank, x]);
      var both := JoinLines([RStrip(ha), RStrip(hb)]) + JoinLines([RStrip(x)]);
      var own := JoinLines([RStrip(hb)]) + JoinLines([RStrip(x)]);
      && joined == [Row(md5(both), 0)]
      && alone == [Row(md5(own), 0)]
      && both != own
      && (alone[0].key in Keys(joined) <==> md5(both) == md5(own))
  {
    SwallowJoined(md5, sa, ha, sb, hb, blank, x);
    SwallowAlone(md5, sb, hb, blank, x);
    var own := JoinLines([RStrip(hb)]) + JoinLines([RStrip(x)]);
    var both := JoinLines([RStrip(ha), RStrip(hb)]) + JoinLines([RStrip(x)]);
    assert |both| == |RStrip(ha)| + 1 + |own|;
  }

  /** The joined file's scan ends with one open message and an empty table. */
  lemma {:induction false} SwallowJoined(md5: string -> string, sa: string, ha: string,
                                         sb: string, hb: string, blank: string, x: string)
    requires IsBoundary(RStrip(sa)) && IsBoundary(RStrip(sb)) && !IsWhitelisted(RStrip(sb))
    requires IsWhitelisted(RStrip(ha)) && IsWhitelisted(RStrip(hb))
    requires RStrip(blank) == [] && !IsBoundary(RStrip(x))
    ensures var s := Run(md5, Start, [sa, ha] + [sb, hb, blank, x]);
      s.table == [] && s.msgoffset == 0 && s.header == [RStrip(ha), RStrip(hb)] && s.message == [RStrip(x)]
  {
    var hs := [sa, ha, sb, hb];
    SwallowHeader(md5, sa, ha, sb, hb);
    SwallowBody(md5, Run(md5, Start, hs), blank, x);
    RunAppend(md5, Start, hs, [blank, x]);
    assert [sa, ha] + [sb, hb, blank, x] == hs + [blank, x];
  }

  /** The appended message scanned on its own. */
  lemma {:induction false} SwallowAlone(md5: string -> string, sb: string, hb: string, blank: string, x: string)
    requires IsBoundary(RStrip(sb)) && IsWhitelisted(RStrip(hb))
    requires RStrip(blank) == [] && !IsBoundary(RStrip(x))
    ensures var s := Run(md5, Start, [sb, hb, blank, x]);
      s.table == [] && s.msgoffset == 0 && s.header == [RStrip(hb)] && s.message == [RStrip(x)]
  {
    var one := [sb, hb];
    SwallowOne(md5, sb, hb);
    SwallowBody(md5, Run(md5, Start, one), blank, x);
    RunAppend(md5, Start, one, [blank, x]);
    assert one + [blank, x] == [sb, hb, blank, x];
  }

  /** The separator `sb` inside an open header is skipped: only the subject lines are kept. */
  lemma {:induction false} SwallowHeader(md5: string -> string, sa: string, ha: string, sb: string, hb: string)
    requires IsBoundary(RStrip(sa)) && IsBoundary(RStrip(sb)) && !IsWhitelisted(RStrip(sb))
    requires IsWhitelisted(RStrip(ha)) && IsWhitelisted(RStrip(hb))
    ensures var s := Run(md5, Start, [sa, ha, sb, hb]);
      && s.inheader && s.table == [] && s.message == [] && s.msgoffset == 0
      && s.header == [RStrip(ha), RStrip(hb)]
  {
    var rest := [ha, sb, hb];
    OpenMessage(md5, [], sa);
    assert [] + [sa] == [sa];
    assert RStrip(ha) != [] && RStrip(sb) != [] && RStrip(hb) != [];
    RunHeader(md5, Run(md5, Start, [sa]), rest);
    RunAppend(md5, Start, [sa], rest);
    assert [sa] + rest == [sa, ha, sb, hb];
    KeptSkips(ha, sb, hb);
  }

  /** Of three header lines, only the two whitelisted ones are kept. */
  lemma {:induction false} KeptSkips(ha: string, sb: string, hb: string)
    requires IsWhitelisted(RStrip(ha)) && !IsWhitelisted(RStrip(sb)) && IsWhitelisted(RStrip(hb))
    ensures Kept([ha, sb, hb]) == [RStrip(ha), RStrip(hb)]
  {
    var rest := [ha, sb, hb];
    assert rest[..2][..1] == rest[..1] && rest[..1][..0] == [];
    assert Kept(rest[..1]) == [RStrip(ha)];
    assert Kept(rest[..2]) == [RStrip(ha)];
  }

  /** A blank line closes the header, and a line that is not a separator goes to the body. */
  lemma {:induction false} SwallowBody(md5: string -> string, s: Scan, blank: string, x: string)
    requires s.inheader && RStrip(blank) == [] && !IsBoundary(RStrip(x))
    ensures var r := Run(md5, s, [blank, x]);
      && r.table == s.table && r.header == s.header && r.message == s.message + [RStrip(x)]
      && r.msgoffset == s.msgoffset
  {
    assert !IsWhitelisted([]) by {
      assert !PrefixIs([], "subject:") && !PrefixIs([], "from:") && !PrefixIs([], "to:") && !PrefixIs([], "cc:");
    }
    var r1 := Step(md5, s, blank);
    assert !r1.inheader && r1.table == s.table && r1.header == s.header && r1.message == s.message;
    assert [blank, x][..1] == [blank] && [blank][..0] == [];
    assert Run(md5, s, [blank]) == r1;
  }

  /** A message alone, up to the end of its header. */
  lemma {:induction false} SwallowOne(md5: string -> string, sb: string, hb: string)
    requires IsBoundary(RStrip(sb)) && IsWhitelisted(RStrip(hb))
    ensures var s := Run(md5, Start, [sb, hb]);
      s.inheader && s.table == [] && s.message == [] && s.msgoffset == 0 && s.header == [RStrip(hb)]
  {
    OpenMessage(md5, [], sb);
    assert [] + [sb] == [sb];
    assert RStrip(hb) != [];
    RunHeader(md5, Run(md5, Start, [sb]), [hb]);
    RunAppend(md5, Start, [sb], [hb]);
    assert [sb] + [hb] == [sb, hb];
    assert [hb][..0] == [];
  }
}
