/**
 * Reading back a well-formed capture file: lines laid out as sentinel,
 * capture header, blank line, transport header, blank line and payload,
 * record after record, are split by the `parse_file` loop into exactly
 * those records, and the loop then returns normally. Each record comes in
 * two forms: the lines as the file stores them, and the text they
 * re-decode to, which is what the loop hands on. The statements are proved
 * for any re-decoding that keeps the block-ending lines (`Fixes`), and
 * `ReadBackRecoded` applies them to the program's own re-decoding,
 * `Recoding.Recode`, with every line of text stored the way the fetch step
 * stores it (`Recoding.Stored`), whatever its characters.
 */
module RoundTrip {
  import opened Wrappers
  import opened Text
  import opened Recoding
  import opened Splitter
  import opened Pipeline

  /** A line the re-decoding leaves as it is. */
  predicate FixedLine(l: string, dec: Redecode) {
    dec(l) == Some(l)
  }

  /** Lines of text none of which ends a block ending at `endStr`. */
  predicate Unbroken(text: seq<string>, endStr: string) {
    forall l :: l in text ==> !Stops(l, endStr)
  }

  /** Stored lines that re-decode, one by one, to the lines of `text`. */
  predicate Restores(stored: seq<string>, text: seq<string>, dec: Redecode) {
    |stored| == |text| && forall k :: 0 <= k < |stored| ==> dec(stored[k]) == Some(text[k])
  }

  /** The first stored line re-decodes to the first line of text, and so on for the rest. */
  lemma RestoresTail(stored: seq<string>, text: seq<string>, dec: Redecode)
    requires Restores(stored, text, dec) && |stored| >= 1
    ensures dec(stored[0]) == Some(text[0]) && Restores(stored[1..], text[1..], dec)
  {
    forall k | 0 <= k < |stored| - 1 ensures dec(stored[1..][k]) == Some(text[1..][k]) {
      assert stored[1..][k] == stored[k + 1] && text[1..][k] == text[k + 1];
    }
  }

  /** Splitting the stream at `pos`: the line there and the lines after it. */
  lemma Uncons(ls: seq<string>, pos: nat, x: string, c: seq<string>)
    requires pos <= |ls| && ls[pos..] == [x] + c
    ensures pos < |ls| && ls[pos] == x && ls[pos + 1..] == c
  {
    assert ls[pos..][0] == ls[pos];
    assert ls[pos + 1..] == ls[pos..][1..];
  }

  /** The stream after the lines of `a` and one more line `x` at `pos`. */
  lemma DropLine(ls: seq<string>, pos: nat, a: seq<string>, x: string, c: seq<string>)
    requires pos <= |ls| && ls[pos..] == a + ([x] + c)
    ensures pos + |a| + 1 <= |ls| && ls[pos + |a| + 1..] == c
  {
    assert |ls[pos..]| == |a| + 1 + |c|;
    assert ls[pos + |a| + 1..] == ls[pos..][|a| + 1..];
    assert (a + ([x] + c))[|a| + 1..] == c;
  }

  /**
   * The loop of `read_block` from `pos`, when the lines there are `stored`,
   * which re-decode to the lines of `text`, none of which ends the block,
   * followed by `stop`, which does: it appends the text, then `stop`, and
   * stops just past it.
   */
  lemma {:induction false} RestReads(ls: seq<string>, pos: nat, stored: seq<string>, text: seq<string>, stop: string,
                                     c: seq<string>, endStr: string, line: string, dec: Redecode)
    requires Fixes(dec) && pos <= |ls| && ls[pos..] == stored + ([stop] + c)
    requires !Stops(line, endStr) && Restores(stored, text, dec) && Unbroken(text, endStr)
    requires FixedLine(stop, dec) && Stops(stop, endStr)
    ensures RestOfBlock(ls, pos, endStr, line, dec) == (text + [stop], pos + |stored| + 1)
    decreases |stored|
  {
    if |stored| == 0 {
      assert ls[pos..] == [stop] + c;
      Uncons(ls, pos, stop, c);
      assert RestOfBlock(ls, pos + 1, endStr, stop, dec) == ([], pos + 1);
      assert text + [stop] == [stop] + [];
    } else {
      var l := text[0];
      RestoresTail(stored, text, dec);
      assert ls[pos..] == [stored[0]] + (stored[1..] + ([stop] + c));
      Uncons(ls, pos, stored[0], stored[1..] + ([stop] + c));
      assert l in text;
      RestReads(ls, pos + 1, stored[1..], text[1..], stop, c, endStr, l, dec);
      assert text + [stop] == [l] + (text[1..] + [stop]);
    }
  }

  /**
   * The loop of `read_block` from `pos` when the lines left are `stored`,
   * re-decoding to `text`, and none ends the block: it appends the text and
   * then the "" that `readline` gives at the end.
   */
  lemma {:induction false} RestReadsToEnd(ls: seq<string>, pos: nat, stored: seq<string>, text: seq<string>,
                                          endStr: string, line: string, dec: Redecode)
    requires Fixes(dec) && pos <= |ls| && ls[pos..] == stored
    requires !Stops(line, endStr) && Restores(stored, text, dec) && Unbroken(text, endStr)
    ensures RestOfBlock(ls, pos, endStr, line, dec) == (text + [""], |ls|)
    decreases |stored|
  {
    if |stored| == 0 {
      assert text + [""] == [""];
    } else {
      var l := text[0];
      RestoresTail(stored, text, dec);
      assert ls[pos..] == [stored[0]] + stored[1..];
      Uncons(ls, pos, stored[0], stored[1..]);
      assert l in text;
      RestReadsToEnd(ls, pos + 1, stored[1..], text[1..], endStr, l, dec);
      assert text + [""] == [l] + (text[1..] + [""]);
    }
  }

  /** `read_block` without `start` over the lines `stored`, re-decoding to `text`, and a line `stop` that ends the block. */
  lemma BlockReads(ls: seq<string>, pos: nat, stored: seq<string>, text: seq<string>, stop: string, c: seq<string>,
                   breakStr: Option<string>, endStr: string, dec: Redecode)
    requires Fixes(dec) && pos <= |ls| && ls[pos..] == stored + ([stop] + c)
    requires Restores(stored, text, dec) && Unbroken(text, endStr) && FixedLine(stop, dec) && Stops(stop, endStr)
    requires breakStr.Some? ==> |text| >= 1 && HasPrefix(text[0], breakStr.value)
    ensures ReadBlockSpec(ls, pos, breakStr, None, endStr, dec) == Read(Ok(text + [stop]), pos + |stored| + 1)
  {
    if |stored| == 0 {
      assert ls[pos..] == [stop] + c;
      Uncons(ls, pos, stop, c);
      assert FirstLine(ls, pos, None, dec) == (stop, pos + 1);
      assert text + [stop] == [stop] + [];
    } else {
      var l := text[0];
      RestoresTail(stored, text, dec);
      assert ls[pos..] == [stored[0]] + (stored[1..] + ([stop] + c));
      Uncons(ls, pos, stored[0], stored[1..] + ([stop] + c));
      assert l in text;
      assert FirstLine(ls, pos, None, dec) == (l, pos + 1);
      RestReads(ls, pos + 1, stored[1..], text[1..], stop, c, endStr, l, dec);
      assert text + [stop] == [l] + (text[1..] + [stop]);
    }
  }

  /** `read_block` without `start` when the lines left are `stored`, re-decoding to `text`, and none ends the block. */
  lemma BlockReadsToEnd(ls: seq<string>, pos: nat, stored: seq<string>, text: seq<string>, endStr: string, dec: Redecode)
    requires Fixes(dec) && pos <= |ls| && ls[pos..] == stored && endStr != ""
    requires Restores(stored, text, dec) && Unbroken(text, endStr)
    ensures ReadBlockSpec(ls, pos, None, None, endStr, dec) == Read(Ok(text + [""]), |ls|)
  {
    if |stored| == 0 {
      assert FirstLine(ls, pos, None, dec) == ("", pos);
      assert text + [""] == [""] + [];
    } else {
      var l := text[0];
      RestoresTail(stored, text, dec);
      assert ls[pos..] == [stored[0]] + stored[1..];
      Uncons(ls, pos, stored[0], stored[1..]);
      assert l in text;
      assert FirstLine(ls, pos, None, dec) == (l, pos + 1);
      RestReadsToEnd(ls, pos + 1, stored[1..], text[1..], endStr, l, dec);
      assert text + [""] == [l] + (text[1..] + [""]);
    }
  }

  /**
   * The lines of one record: the capture-header lines after its "WARC/1.0"
   * line, the transport-header lines, and the payload lines.
   */
  datatype Record = Record(head: seq<string>, header: seq<string>, body: seq<string>)

  /**
   * A record of text that fits the framing, whatever its characters: neither
   * header holds a blank line, the transport header starts with "HTTP", no
   * payload line is the record sentinel, and no line is "".
   */
  predicate Shaped(r: Record) {
    && Unbroken(r.head, BlankLine)
    && |r.header| >= 1 && HasPrefix(r.header[0], "HTTP") && Unbroken(r.header, BlankLine)
    && Unbroken(r.body, WarcSentinel)
  }

  /** One record as the file stores it and as the text its lines re-decode to. */
  datatype Capture = Capture(stored: Record, text: Record)

  /** A record the reader gets back intact: its text is shaped, and each stored line re-decodes to its line of text. */
  predicate WellFormed(cap: Capture, dec: Redecode) {
    && Shaped(cap.text)
    && Restores(cap.stored.head, cap.text.head, dec)
    && Restores(cap.stored.header, cap.text.header, dec)
    && Restores(cap.stored.body, cap.text.body, dec)
  }

  /** The stored lines of record `s` after its sentinel line, followed by the lines `rest`. */
  function Framed(s: Record, rest: seq<string>): seq<string> {
    s.head + ([BlankLine] + (s.header + ([BlankLine] + (s.body + rest))))
  }

  /** A capture file holding the records `cs`, one line per element. */
  function Serialize(cs: seq<Capture>): seq<string> {
    if |cs| == 0 then [] else [WarcSentinel] + Framed(cs[0].stored, Serialize(cs[1..]))
  }

  /** The triplet the `parse_file` loop hands to extraction for the record of text `t`. */
  function Expected(t: Record): Triplet {
    Triplet([WarcSentinel] + t.head + [BlankLine], t.header + [BlankLine], t.body)
  }

  /** The texts of the records `cs`, in order. */
  function Texts(cs: seq<Capture>): seq<Record> {
    seq(|cs|, k requires 0 <= k < |cs| => cs[k].text)
  }

  /** The triplets for the records of text `ts`, in order. */
  function ExpectedAll(ts: seq<Record>): seq<Triplet> {
    seq(|ts|, k requires 0 <= k < |ts| => Expected(ts[k]))
  }

  /** The triplets of a list of records: the first record's, then the others'. */
  lemma ExpectedCons(cs: seq<Capture>)
    requires |cs| >= 1
    ensures ExpectedAll(Texts(cs)) == [Expected(cs[0].text)] + ExpectedAll(Texts(cs[1..]))
  {
    var all, rest := ExpectedAll(Texts(cs)), ExpectedAll(Texts(cs[1..]));
    forall k | 1 <= k < |all| ensures all[k] == rest[k - 1] {
      assert cs[1..][k - 1] == cs[k];
    }
    assert all == [all[0]] + all[1..];
  }

  /** The capture header, read with the carried sentinel as its first line. */
  lemma HeadRead(ls: seq<string>, pos: nat, cap: Capture, c: seq<string>, dec: Redecode)
    requires Fixes(dec) && WellFormed(cap, dec) && pos <= |ls|
    requires ls[pos..] == cap.stored.head + ([BlankLine] + c)
    ensures ReadBlockSpec(ls, pos, Some("WARC"), Some(WarcSentinel), BlankLine, dec)
            == Read(Ok([WarcSentinel] + cap.text.head + [BlankLine]), pos + |cap.stored.head| + 1)
  {
    RestReads(ls, pos, cap.stored.head, cap.text.head, BlankLine, c, BlankLine, WarcSentinel, dec);
    assert [WarcSentinel] + (cap.text.head + [BlankLine]) == [WarcSentinel] + cap.text.head + [BlankLine];
  }

  /** The transport header of a well-formed record. */
  lemma HeaderRead(ls: seq<string>, pos: nat, cap: Capture, c: seq<string>, dec: Redecode)
    requires Fixes(dec) && WellFormed(cap, dec) && pos <= |ls|
    requires ls[pos..] == cap.stored.header + ([BlankLine] + c)
    ensures ReadBlockSpec(ls, pos, Some("HTTP"), None, BlankLine, dec)
            == Read(Ok(cap.text.header + [BlankLine]), pos + |cap.stored.header| + 1)
  {
    BlockReads(ls, pos, cap.stored.header, cap.text.header, BlankLine, c, Some("HTTP"), BlankLine, dec);
  }

  /** The payload of a well-formed record followed by the next record's sentinel. */
  lemma PayloadRead(ls: seq<string>, pos: nat, cap: Capture, c: seq<string>, dec: Redecode)
    requires Fixes(dec) && WellFormed(cap, dec) && pos <= |ls|
    requires ls[pos..] == cap.stored.body + ([WarcSentinel] + c)
    ensures ReadBlockSpec(ls, pos, None, None, WarcSentinel, dec)
            == Read(Ok(cap.text.body + [WarcSentinel]), |ls| - |c|)
  {
    assert |ls[pos..]| == |cap.stored.body| + 1 + |c|;
    BlockReads(ls, pos, cap.stored.body, cap.text.body, WarcSentinel, c, None, WarcSentinel, dec);
  }

  /** The payload of the last record, read up to the end of the file. */
  lemma LastPayloadRead(ls: seq<string>, pos: nat, cap: Capture, dec: Redecode)
    requires Fixes(dec) && WellFormed(cap, dec) && pos <= |ls| && ls[pos..] == cap.stored.body
    ensures ReadBlockSpec(ls, pos, None, None, WarcSentinel, dec) == Read(Ok(cap.text.body + [""]), |ls|)
  {
    BlockReadsToEnd(ls, pos, cap.stored.body, cap.text.body, WarcSentinel, dec);
  }

  /** Where the transport header and the payload of a record framed at `pos` begin. */
  function HeaderPos(pos: nat, s: Record): nat {
    pos + |s.head| + 1
  }

  function BodyPos(pos: nat, s: Record): nat {
    pos + |s.head| + |s.header| + 2
  }

  /** The two headers of a well-formed record, read with the sentinel carried over. */
  lemma HeadersRead(ls: seq<string>, pos: nat, cap: Capture, rest: seq<string>, dec: Redecode)
    requires Fixes(dec) && WellFormed(cap, dec) && pos <= |ls|
    requires ls[pos..] == Framed(cap.stored, rest)
    ensures BodyPos(pos, cap.stored) <= |ls|
    ensures ReadBlockSpec(ls, pos, Some("WARC"), Some(WarcSentinel), BlankLine, dec)
            == Read(Ok([WarcSentinel] + cap.text.head + [BlankLine]), HeaderPos(pos, cap.stored))
    ensures ReadBlockSpec(ls, HeaderPos(pos, cap.stored), Some("HTTP"), None, BlankLine, dec)
            == Read(Ok(cap.text.header + [BlankLine]), BodyPos(pos, cap.stored))
  {
    var s := cap.stored;
    var c1 := s.header + ([BlankLine] + (s.body + rest));
    DropLine(ls, pos, s.head, BlankLine, c1);
    HeadRead(ls, pos, cap, c1, dec);
    HeaderRead(ls, HeaderPos(pos, s), cap, s.body + rest, dec);
  }

  /** The lines of a record after both of its headers have been read. */
  lemma AfterHeaders(ls: seq<string>, pos: nat, s: Record, rest: seq<string>)
    requires pos <= |ls| && ls[pos..] == Framed(s, rest)
    ensures BodyPos(pos, s) <= |ls| && ls[BodyPos(pos, s)..] == s.body + rest
  {
    var body := s.body + rest;
    DropLine(ls, pos, s.head, BlankLine, s.header + ([BlankLine] + body));
    DropLine(ls, HeaderPos(pos, s), s.header, BlankLine, body);
  }

  /** The payload of a record framed at `pos` and followed by the next sentinel. */
  lemma BodyRead(ls: seq<string>, pos: nat, cap: Capture, c: seq<string>, dec: Redecode)
    requires Fixes(dec) && WellFormed(cap, dec) && pos <= |ls|
    requires ls[pos..] == Framed(cap.stored, [WarcSentinel] + c)
    ensures BodyPos(pos, cap.stored) <= |ls|
    ensures ReadBlockSpec(ls, BodyPos(pos, cap.stored), None, None, WarcSentinel, dec)
            == Read(Ok(cap.text.body + [WarcSentinel]), |ls| - |c|)
  {
    AfterHeaders(ls, pos, cap.stored, [WarcSentinel] + c);
    PayloadRead(ls, BodyPos(pos, cap.stored), cap, c, dec);
  }

  /** The payload of the last record, framed at `pos`. */
  lemma LastBodyRead(ls: seq<string>, pos: nat, cap: Capture, dec: Redecode)
    requires Fixes(dec) && WellFormed(cap, dec) && pos <= |ls|
    requires ls[pos..] == Framed(cap.stored, [])
    ensures BodyPos(pos, cap.stored) <= |ls|
    ensures ReadBlockSpec(ls, BodyPos(pos, cap.stored), None, None, WarcSentinel, dec)
            == Read(Ok(cap.text.body + [""]), |ls|)
  {
    AfterHeaders(ls, pos, cap.stored, []);
    assert cap.stored.body + [] == cap.stored.body;
    LastPayloadRead(ls, BodyPos(pos, cap.stored), cap, dec);
  }

  /**
   * A pass whose three blocks read as a record's headers and its body
   * followed by `last` yields the record's triplet and carries `last`.
   */
  lemma StepFromBlocks(ls: seq<string>, pos: nat, t: Record, p1: nat, p2: nat, last: string, p3: nat, dec: Redecode)
    requires Fixes(dec) && pos <= p1 <= p2 <= |ls|
    requires ReadBlockSpec(ls, pos, Some("WARC"), Some(WarcSentinel), BlankLine, dec)
            == Read(Ok([WarcSentinel] + t.head + [BlankLine]), p1)
    requires ReadBlockSpec(ls, p1, Some("HTTP"), None, BlankLine, dec) == Read(Ok(t.header + [BlankLine]), p2)
    requires ReadBlockSpec(ls, p2, None, None, WarcSentinel, dec) == Read(Ok(t.body + [last]), p3)
    ensures StepSpec(ls, pos, Some(WarcSentinel), dec) == Next(Expected(t), last, p3)
  {
    var payload := t.body + [last];
    StepOf(ls, pos, Some(WarcSentinel), [WarcSentinel] + t.head + [BlankLine], p1,
           t.header + [BlankLine], p2, payload, p3, dec);
    assert payload[..|payload| - 1] == t.body;
  }

  /**
   * One pass of the `parse_file` loop over a well-formed record followed by
   * the next record's sentinel line, entered with the sentinel carried over:
   * it yields the record's triplet and carries the next sentinel.
   */
  lemma RecordStep(ls: seq<string>, pos: nat, cap: Capture, c: seq<string>, dec: Redecode)
    requires Fixes(dec) && WellFormed(cap, dec) && pos <= |ls|
    requires ls[pos..] == Framed(cap.stored, [WarcSentinel] + c)
    ensures StepSpec(ls, pos, Some(WarcSentinel), dec) == Next(Expected(cap.text), WarcSentinel, |ls| - |c|)
  {
    HeadersRead(ls, pos, cap, [WarcSentinel] + c, dec);
    BodyRead(ls, pos, cap, c, dec);
    StepFromBlocks(ls, pos, cap.text, HeaderPos(pos, cap.stored), BodyPos(pos, cap.stored), WarcSentinel, |ls| - |c|, dec);
  }

  /**
   * One pass of the `parse_file` loop over the last record of a file:
   * it yields the record's triplet and carries the "" read at the end.
   */
  lemma LastRecordStep(ls: seq<string>, pos: nat, cap: Capture, dec: Redecode)
    requires Fixes(dec) && WellFormed(cap, dec) && pos <= |ls|
    requires ls[pos..] == Framed(cap.stored, [])
    ensures StepSpec(ls, pos, Some(WarcSentinel), dec) == Next(Expected(cap.text), "", |ls|)
  {
    HeadersRead(ls, pos, cap, [], dec);
    LastBodyRead(ls, pos, cap, dec);
    StepFromBlocks(ls, pos, cap.text, HeaderPos(pos, cap.stored), BodyPos(pos, cap.stored), "", |ls|, dec);
  }

  /** The loop over a last record: its triplet, then a normal return. */
  lemma SplitLast(ls: seq<string>, pos: nat, cap: Capture, dec: Redecode)
    requires Fixes(dec) && WellFormed(cap, dec) && pos <= |ls|
    requires ls[pos..] == Framed(cap.stored, [])
    ensures SplitFrom(ls, pos, Some(WarcSentinel), dec) == Parse([Expected(cap.text)], Returned)
  {
    LastRecordStep(ls, pos, cap, dec);
    EndOfInput(ls, |ls|, Some(""), dec);
    assert [Expected(cap.text)] + [] == [Expected(cap.text)];
  }

  /** The lines after a framed record and the next sentinel are the last `|c|` lines. */
  lemma TailAfter(ls: seq<string>, pos: nat, s: Record, c: seq<string>)
    requires pos <= |ls| && ls[pos..] == Framed(s, [WarcSentinel] + c)
    ensures |c| <= |ls| && ls[|ls| - |c|..] == c
  {
    AfterHeaders(ls, pos, s, [WarcSentinel] + c);
    DropLine(ls, BodyPos(pos, s), s.body, WarcSentinel, c);
  }

  /**
   * From the line after a record's sentinel, with that sentinel carried,
   * the loop reads the records `cs` one by one and then returns normally.
   */
  lemma {:induction false} ReadBackFrom(ls: seq<string>, pos: nat, cs: seq<Capture>, dec: Redecode)
    requires Fixes(dec) && |cs| >= 1 && forall cap :: cap in cs ==> WellFormed(cap, dec)
    requires pos <= |ls| && ls[pos..] == Framed(cs[0].stored, Serialize(cs[1..]))
    ensures SplitFrom(ls, pos, Some(WarcSentinel), dec) == Parse(ExpectedAll(Texts(cs)), Returned)
    decreases |cs|
  {
    assert cs[0] in cs;
    var tail := cs[1..];
    ExpectedCons(cs);
    if |tail| == 0 {
      assert Serialize(tail) == [];
      SplitLast(ls, pos, cs[0], dec);
    } else {
      var c := Framed(tail[0].stored, Serialize(tail[1..]));
      assert Serialize(tail) == [WarcSentinel] + c;
      TailAfter(ls, pos, cs[0].stored, c);
      RecordStep(ls, pos, cs[0], c, dec);
      SplitStep(ls, pos, Some(WarcSentinel), Expected(cs[0].text), WarcSentinel, |ls| - |c|, dec);
      forall cap | cap in tail ensures WellFormed(cap, dec) {
        assert cap in cs;
      }
      ReadBackFrom(ls, |ls| - |c|, tail, dec);
    }
  }

  /** A stream opening with the sentinel line is read as if that line were carried. */
  lemma FreshSentinel(ls: seq<string>, dec: Redecode)
    requires Fixes(dec) && |ls| >= 1 && ls[0] == WarcSentinel
    ensures SplitFrom(ls, 0, None, dec) == SplitFrom(ls, 1, Some(WarcSentinel), dec)
  {
    assert FirstLine(ls, 0, None, dec) == FirstLine(ls, 1, Some(WarcSentinel), dec);
    assert ReadBlockSpec(ls, 0, Some("WARC"), None, BlankLine, dec)
        == ReadBlockSpec(ls, 1, Some("WARC"), Some(WarcSentinel), BlankLine, dec);
    assert StepSpec(ls, 0, None, dec) == StepSpec(ls, 1, Some(WarcSentinel), dec);
  }

  /**
   * The round trip: the `parse_file` loop over a file serialising the
   * well-formed records `cs` yields exactly the triplets of their text and
   * returns normally.
   */
  lemma ReadBack(cs: seq<Capture>, dec: Redecode)
    requires Fixes(dec) && forall cap :: cap in cs ==> WellFormed(cap, dec)
    ensures SplitFrom(Serialize(cs), 0, None, dec) == Parse(ExpectedAll(Texts(cs)), Returned)
  {
    var ls := Serialize(cs);
    if |cs| == 0 {
      EndOfInput(ls, 0, None, dec);
    } else {
      FreshSentinel(ls, dec);
      assert ls[1..] == Framed(cs[0].stored, Serialize(cs[1..]));
      ReadBackFrom(ls, 1, cs, dec);
    }
  }

  /** The stored forms of the lines of text `text`, in order. */
  function StoredLines(text: seq<string>): seq<string> {
    seq(|text|, k requires 0 <= k < |text| => Stored(text[k]))
  }

  /** The records of text `rs`, each paired with its lines as the fetch step stores them. */
  function Captures(rs: seq<Record>): seq<Capture> {
    seq(|rs|, k requires 0 <= k < |rs| =>
      Capture(Record(StoredLines(rs[k].head), StoredLines(rs[k].header), StoredLines(rs[k].body)), rs[k]))
  }

  /** Under the program's re-decoding every stored line gives back its line of text. */
  lemma StoredRestores(text: seq<string>)
    ensures Restores(StoredLines(text), text, Recode)
  {
    forall k | 0 <= k < |text| ensures Recode(StoredLines(text)[k]) == Some(text[k]) {
      RecodeRepairs(text[k]);
    }
  }

  /** The framing lines are ASCII, so their stored forms are the lines themselves. */
  lemma StoredFraming()
    ensures Stored(BlankLine) == BlankLine && Stored(WarcSentinel) == WarcSentinel
  {
    RecodeAscii(BlankLine);
    RecodeExactly(BlankLine, BlankLine);
    RecodeAscii(WarcSentinel);
    RecodeExactly(WarcSentinel, WarcSentinel);
  }

  /**
   * The round trip with the program's own re-decoding: a capture file
   * holding shaped records of any text, each line stored as its UTF-8
   * bytes in ISO-8859-1 characters, is split into exactly those records'
   * triplets, with the text restored, and the loop returns normally.
   */
  lemma ReadBackRecoded(rs: seq<Record>)
    requires forall r :: r in rs ==> Shaped(r)
    ensures Fixes(Recode)
    ensures SplitFrom(Serialize(Captures(rs)), 0, None, Recode) == Parse(ExpectedAll(rs), Returned)
  {
    RecodeFixes();
    var cs := Captures(rs);
    forall cap | cap in cs ensures WellFormed(cap, Recode) {
      var k :| 0 <= k < |cs| && cs[k] == cap;
      assert rs[k] in rs;
      StoredRestores(rs[k].head);
      StoredRestores(rs[k].header);
      StoredRestores(rs[k].body);
    }
    assert Texts(cs) == rs;
    ReadBack(cs, Recode);
  }
}
