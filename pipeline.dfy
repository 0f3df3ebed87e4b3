/**
 * The record splitter and output loop of `parse_file`: capture header,
 * transport header and payload are read back to back, the payload's last
 * line is carried forward as the next capture header's first line, and
 * each triplet with retained text is written to two outputs.
 */
module Pipeline {
  import opened Wrappers
  import opened Text
  import opened Recoding
  import opened Splitter
  import opened Extraction

  /** One record: its capture header, its transport header and its payload without the sentinel. */
  datatype Triplet = Triplet(warcHead: seq<string>, header: seq<string>, payload: seq<string>)

  /** How `parse_file` ends: by returning, or by the exception from `read_header` escaping. */
  datatype Exit = Returned | Raised(error: Error)

  /** Everything the loop of `parse_file` reads from one stream. */
  datatype Parse = Parse(triplets: seq<Triplet>, exit: Exit)

  /** The outcome of one pass of the `parse_file` loop up to extraction. */
  datatype Step =
    | Stop(exit: Exit)
    | Next(triplet: Triplet, cont: string, pos: nat)

  /**
   * One pass from position `pos` with carried line `cont`: the capture header
   * (its failed check ends the loop normally), the transport header (its failed
   * check escapes as an exception), then the payload, whose last line is
   * carried forward and is not part of the triplet.
   */
  function StepSpec(ls: seq<string>, pos: nat, cont: Option<string>, dec: Redecode): (r: Step)
    requires pos <= |ls| && Fixes(dec)
    ensures r.Next? ==> pos < r.pos <= |ls|
  {
    var wh := ReadBlockSpec(ls, pos, Some("WARC"), cont, BlankLine, dec);
    if wh.block.Err? then Stop(Returned)
    else
      var h := ReadBlockSpec(ls, wh.pos, Some("HTTP"), None, BlankLine, dec);
      if h.block.Err? then Stop(Raised(h.block.error))
      else
        var p := ReadBlockSpec(ls, h.pos, None, None, WarcSentinel, dec);
        var payload := p.block.value;
        Next(Triplet(wh.block.value, h.block.value, payload[..|payload| - 1]), Last(payload), p.pos)
  }

  /** A pass whose three reads succeed yields their blocks, the payload's last line carried forward. */
  lemma StepOf(ls: seq<string>, pos: nat, cont: Option<string>, wh: seq<string>, p1: nat,
               h: seq<string>, p2: nat, payload: seq<string>, p3: nat, dec: Redecode)
    requires pos <= p1 <= p2 <= |ls| && Fixes(dec)
    requires ReadBlockSpec(ls, pos, Some("WARC"), cont, BlankLine, dec) == Read(Ok(wh), p1)
    requires ReadBlockSpec(ls, p1, Some("HTTP"), None, BlankLine, dec) == Read(Ok(h), p2)
    requires ReadBlockSpec(ls, p2, None, None, WarcSentinel, dec) == Read(Ok(payload), p3)
    ensures |payload| >= 1
    ensures StepSpec(ls, pos, cont, dec) == Next(Triplet(wh, h, payload[..|payload| - 1]), payload[|payload| - 1], p3)
  {
  }

  /**
   * The loop of `parse_file` from stream position `pos`, with `cont` the
   * line carried over from the previous payload (`None` on entry).
   * Every completed pass consumes at least one line, so there are never
   * more triplets than lines left.
   */
  function SplitFrom(ls: seq<string>, pos: nat, cont: Option<string>, dec: Redecode): (r: Parse)
    requires pos <= |ls| && Fixes(dec)
    ensures |r.triplets| <= |ls| - pos
    decreases |ls| - pos
  {
    match StepSpec(ls, pos, cont, dec)
    case Stop(exit) => Parse([], exit)
    case Next(t, c, p) =>
      var rest := SplitFrom(ls, p, Some(c), dec);
      Parse([t] + rest.triplets, rest.exit)
  }

  /** A completed pass puts its triplet in front of what the loop yields from where the pass stopped. */
  lemma SplitStep(ls: seq<string>, pos: nat, cont: Option<string>, t: Triplet, c: string, p: nat, dec: Redecode)
    requires pos <= |ls| && Fixes(dec) && StepSpec(ls, pos, cont, dec) == Next(t, c, p)
    ensures p <= |ls|
    ensures var rest := SplitFrom(ls, p, Some(c), dec);
      SplitFrom(ls, pos, cont, dec) == Parse([t] + rest.triplets, rest.exit)
  {
  }

  /**
   * The loop returns normally, having produced nothing, when the line carried
   * over is the "" of end of file, or when nothing is carried and the stream
   * is at its end (the fresh `readline` gives "").
   */
  lemma EndOfInput(ls: seq<string>, pos: nat, cont: Option<string>, dec: Redecode)
    requires pos <= |ls| && Fixes(dec)
    requires cont == Some("") || (cont.None? && pos == |ls|)
    ensures SplitFrom(ls, pos, cont, dec) == Parse([], Returned)
  {
    assert FirstLine(ls, pos, cont, dec).0 == "";
    assert !HasPrefix("", "WARC");
  }

  /**
   * How one pass ends early: the loop returns exactly when the capture
   * header's first line does not start with "WARC", and the error escapes
   * exactly when that check passes and the transport header's first line
   * does not start with "HTTP".
   */
  lemma StepExits(ls: seq<string>, pos: nat, cont: Option<string>, dec: Redecode)
    requires pos <= |ls| && Fixes(dec)
    ensures var r := StepSpec(ls, pos, cont, dec);
      var wh := ReadBlockSpec(ls, pos, Some("WARC"), cont, BlankLine, dec);
      && (r == Stop(Returned) <==> !HasPrefix(FirstLine(ls, pos, cont, dec).0, "WARC"))
      && (r == Stop(Raised(BreakStrNotFound)) <==>
            HasPrefix(FirstLine(ls, pos, cont, dec).0, "WARC") && !HasPrefix(FirstLine(ls, wh.pos, None, dec).0, "HTTP"))
  {
    BreakCheck(ls, pos, Some("WARC"), cont, BlankLine, dec);
    var wh := ReadBlockSpec(ls, pos, Some("WARC"), cont, BlankLine, dec);
    BreakCheck(ls, wh.pos, Some("HTTP"), None, BlankLine, dec);
  }

  /** A carried sentinel line always passes the capture header's "WARC" check. */
  lemma SentinelPassesCheck(ls: seq<string>, pos: nat, dec: Redecode)
    requires pos <= |ls| && Fixes(dec)
    ensures ReadBlockSpec(ls, pos, Some("WARC"), Some(WarcSentinel), BlankLine, dec).block.Ok?
    ensures ReadBlockSpec(ls, pos, Some("WARC"), Some(WarcSentinel), BlankLine, dec).block.value[0] == WarcSentinel
  {
    BreakCheck(ls, pos, Some("WARC"), Some(WarcSentinel), BlankLine, dec);
    BlockShape(ls, pos, Some("WARC"), Some(WarcSentinel), BlankLine, dec);
  }

  /**
   * What a triplet of a completed pass looks like: a capture header starting
   * with "WARC" and a transport header starting with "HTTP", each ending with
   * the blank line or the "" of end of file, and a payload none of whose
   * lines is the sentinel or "".
   */
  predicate TripletShaped(t: Triplet) {
    && |t.warcHead| >= 1 && HasPrefix(t.warcHead[0], "WARC") && Stops(Last(t.warcHead), BlankLine)
    && |t.header| >= 1 && HasPrefix(t.header[0], "HTTP") && Stops(Last(t.header), BlankLine)
    && forall l :: l in t.payload ==> !Stops(l, WarcSentinel)
  }

  /**
   * A completed pass yields a well-shaped triplet whose capture header
   * starts with the carried line, when there is one, and carries forward
   * the sentinel or the "" of end of file.
   */
  lemma StepShape(ls: seq<string>, pos: nat, cont: Option<string>, dec: Redecode)
    requires pos <= |ls| && Fixes(dec)
    ensures var r := StepSpec(ls, pos, cont, dec);
      r.Next? ==>
        && TripletShaped(r.triplet)
        && (cont.Some? ==> r.triplet.warcHead[0] == cont.value)
        && Stops(r.cont, WarcSentinel)
  {
    var r := StepSpec(ls, pos, cont, dec);
    if r.Next? {
      var wh := ReadBlockSpec(ls, pos, Some("WARC"), cont, BlankLine, dec);
      BreakCheck(ls, pos, Some("WARC"), cont, BlankLine, dec);
      BlockShape(ls, pos, Some("WARC"), cont, BlankLine, dec);
      var h := ReadBlockSpec(ls, wh.pos, Some("HTTP"), None, BlankLine, dec);
      BreakCheck(ls, wh.pos, Some("HTTP"), None, BlankLine, dec);
      BlockShape(ls, wh.pos, Some("HTTP"), None, BlankLine, dec);
      var p := ReadBlockSpec(ls, h.pos, None, None, WarcSentinel, dec);
      BlockShape(ls, h.pos, None, None, WarcSentinel, dec);
      var payload := p.block.value;
      forall l | l in r.triplet.payload ensures !Stops(l, WarcSentinel) {
        var i :| 0 <= i < |payload| - 1 && payload[i] == l;
      }
    }
  }

  /**
   * Every triplet the loop yields is well shaped; the first starts with the
   * line carried in, and every later one with the sentinel line that ended
   * the payload before it.
   */
  lemma {:induction false} SplitShape(ls: seq<string>, pos: nat, cont: Option<string>, dec: Redecode)
    requires pos <= |ls| && Fixes(dec)
    ensures var ts := SplitFrom(ls, pos, cont, dec).triplets;
      && (forall i :: 0 <= i < |ts| ==> TripletShaped(ts[i]))
      && (|ts| >= 1 && cont.Some? ==> ts[0].warcHead[0] == cont.value)
      && (forall i :: 1 <= i < |ts| ==> ts[i].warcHead[0] == WarcSentinel)
    decreases |ls| - pos
  {
    match StepSpec(ls, pos, cont, dec)
    case Stop(_) =>
    case Next(t, c, p) =>
      StepShape(ls, pos, cont, dec);
      SplitShape(ls, p, Some(c), dec);
      ShapedCons(t, c, SplitFrom(ls, p, Some(c), dec).triplets);
  }

  /** The shape facts of `SplitShape` for one more triplet `t` that carried `c` into `rest`. */
  lemma ShapedCons(t: Triplet, c: string, rest: seq<Triplet>)
    requires TripletShaped(t) && Stops(c, WarcSentinel)
    requires forall i :: 0 <= i < |rest| ==> TripletShaped(rest[i])
    requires |rest| >= 1 ==> |rest[0].warcHead| >= 1 && rest[0].warcHead[0] == c
    requires forall i :: 1 <= i < |rest| ==> |rest[i].warcHead| >= 1 && rest[i].warcHead[0] == WarcSentinel
    ensures var ts := [t] + rest;
      && (forall i :: 0 <= i < |ts| ==> TripletShaped(ts[i]))
      && (forall i :: 1 <= i < |ts| ==> ts[i].warcHead[0] == WarcSentinel)
  {
    var ts := [t] + rest;
    forall i | 1 <= i < |ts| ensures ts[i].warcHead[0] == WarcSentinel {
      assert ts[i] == rest[i - 1];
      if i == 1 {
        assert HasPrefix(c, "WARC");
      }
    }
  }

  /** `ret_text` for one triplet: extraction from its payload, then the filter. */
  function TripletText(t: Triplet, cfg: Config): seq<string> {
    RetText(Extracted(cfg.justext(Concat(t.payload))), cfg)
  }

  /** What the annotated output gains for one triplet: nothing unless text was retained. */
  function AnnotatedPiece(t: Triplet, cfg: Config): seq<string> {
    var ret := TripletText(t, cfg);
    if |ret| == 0 then [] else t.warcHead + [BlankLine] + t.header + [BlankLine] + ret + [BlankLine]
  }

  /** What the plain-text output gains for one triplet: nothing unless text was retained. */
  function PlainPiece(t: Triplet, cfg: Config): seq<string> {
    var ret := TripletText(t, cfg);
    if |ret| == 0 then [] else ret + [BlankLine]
  }

  /** What the annotated output gains for the triplets `ts`. */
  function Annotated(ts: seq<Triplet>, cfg: Config): seq<string> {
    if |ts| == 0 then [] else AnnotatedPiece(ts[0], cfg) + Annotated(ts[1..], cfg)
  }

  /** What the plain-text output gains for the triplets `ts`. */
  function Plain(ts: seq<Triplet>, cfg: Config): seq<string> {
    if |ts| == 0 then [] else PlainPiece(ts[0], cfg) + Plain(ts[1..], cfg)
  }

  /**
   * A triplet writes nothing to either output exactly when no text was
   * retained; otherwise the annotated record is the two headers, each
   * followed by a blank line, then exactly what the plain output gains,
   * which ends with a blank line.
   */
  lemma PieceFacts(t: Triplet, cfg: Config)
    ensures AnnotatedPiece(t, cfg) == [] <==> TripletText(t, cfg) == []
    ensures PlainPiece(t, cfg) == [] <==> TripletText(t, cfg) == []
    ensures TripletText(t, cfg) != [] ==>
      && AnnotatedPiece(t, cfg) == (t.warcHead + [BlankLine] + t.header + [BlankLine]) + PlainPiece(t, cfg)
      && PlainPiece(t, cfg)[..|PlainPiece(t, cfg)| - 1] == TripletText(t, cfg)
      && Last(PlainPiece(t, cfg)) == BlankLine
  {
    var ret := TripletText(t, cfg);
    if ret != [] {
      var x := t.warcHead + [BlankLine] + t.header + [BlankLine];
      assert x + ret + [BlankLine] == x + (ret + [BlankLine]);
      assert (ret + [BlankLine])[..|ret|] == ret;
    }
  }

  /** The plain-text output of the triplets `ts` is empty exactly when none of them retained text. */
  lemma {:induction false} PlainEmpty(ts: seq<Triplet>, cfg: Config)
    ensures Plain(ts, cfg) == [] <==> forall t :: t in ts ==> TripletText(t, cfg) == []
    decreases |ts|
  {
    if |ts| > 0 {
      PlainEmpty(ts[1..], cfg);
      PieceFacts(ts[0], cfg);
      assert ts == [ts[0]] + ts[1..];
      if Plain(ts, cfg) == [] {
        forall t | t in ts ensures TripletText(t, cfg) == [] {
          if t != ts[0] { assert t in ts[1..]; }
        }
      }
    }
  }

  /** Annotated output grows at the end only: the triplets `a` produce theirs before those of `b`. */
  lemma {:induction false} AnnotatedAppend(a: seq<Triplet>, b: seq<Triplet>, cfg: Config)
    ensures Annotated(a + b, cfg) == Annotated(a, cfg) + Annotated(b, cfg)
    decreases |a|
  {
    if |a| == 0 {
      assert a + b == b;
    } else {
      assert (a + b)[0] == a[0];
      assert (a + b)[1..] == a[1..] + b;
      AnnotatedAppend(a[1..], b, cfg);
      var (p, x, y) := (AnnotatedPiece(a[0], cfg), Annotated(a[1..], cfg), Annotated(b, cfg));
      assert Annotated(a + b, cfg) == p + (x + y);
      assert p + (x + y) == (p + x) + y;
    }
  }

  /** Plain-text output grows at the end only: the triplets `a` produce theirs before those of `b`. */
  lemma {:induction false} PlainAppend(a: seq<Triplet>, b: seq<Triplet>, cfg: Config)
    ensures Plain(a + b, cfg) == Plain(a, cfg) + Plain(b, cfg)
    decreases |a|
  {
    if |a| == 0 {
      assert a + b == b;
    } else {
      assert (a + b)[0] == a[0];
      assert (a + b)[1..] == a[1..] + b;
      PlainAppend(a[1..], b, cfg);
      var (p, x, y) := (PlainPiece(a[0], cfg), Plain(a[1..], cfg), Plain(b, cfg));
      assert Plain(a + b, cfg) == p + (x + y);
      assert p + (x + y) == (p + x) + y;
    }
  }

  /** An output file opened for writing; `written` is what `writelines` has been given, in order. */
  class Sink {
    var written: seq<string>

    constructor ()
      ensures written == []
    {
      written := [];
    }

    method WriteLines(ls: seq<string>)
      modifies this
      ensures written == old(written) + ls
    {
      written := written + ls;
    }
  }

  /**
   * `parse_file` on an open stream, writing the annotated output to `ann`
   * and the plain text to `txt`. Output written before an escaping
   * exception stays written.
   */
  method ParseFile(f: LineStream, ann: Sink, txt: Sink, cfg: Config) returns (exit: Exit)
    requires f.Valid() && ann != txt
    modifies f, ann, txt
    ensures f.Valid()
    ensures var run := SplitFrom(f.lines, old(f.pos), None, f.dec);
      && exit == run.exit
      && ann.written == old(ann.written) + Annotated(run.triplets, cfg)
      && txt.written == old(txt.written) + Plain(run.triplets, cfg)
  {
    var cont: Option<string> := None;
    ghost var run0 := SplitFrom(f.lines, f.pos, None, f.dec);
    ghost var (ann0, txt0) := (ann.written, txt.written);
    ghost var done: seq<Triplet> := [];
    ghost var rest := run0;
    while true
      invariant f.Valid()
      invariant rest == SplitFrom(f.lines, f.pos, cont, f.dec)
      invariant run0 == Parse(done + rest.triplets, rest.exit)
      invariant ann.written == ann0 + Annotated(done, cfg)
      invariant txt.written == txt0 + Plain(done, cfg)
      decreases |f.lines| - f.pos
    {
      var step, next := ReadTriplet(f, cont);
      if step.Stop? {
        assert done + [] == done;
        return step.exit;
      }
      var t := step.triplet;
      Consumed(run0, done, t, next);
      AnnotatedSnoc(ann0, done, t, cfg);
      PlainSnoc(txt0, done, t, cfg);
      WriteTriplet(ann, txt, t.warcHead, t.header, t.payload, cfg);
      cont := Some(step.cont);
      done := done + [t];
      rest := next;
    }
  }

  /** Moving one triplet from what is left to read to what has been read. */
  lemma Consumed(run: Parse, done: seq<Triplet>, t: Triplet, rest: Parse)
    requires run == Parse(done + ([t] + rest.triplets), rest.exit)
    ensures run == Parse((done + [t]) + rest.triplets, rest.exit)
  {
    assert done + ([t] + rest.triplets) == (done + [t]) + rest.triplets;
  }

  /** The annotated output after one more triplet, on top of what was there before the loop. */
  lemma AnnotatedSnoc(ann0: seq<string>, done: seq<Triplet>, t: Triplet, cfg: Config)
    ensures (ann0 + Annotated(done, cfg)) + AnnotatedPiece(t, cfg) == ann0 + Annotated(done + [t], cfg)
  {
    AnnotatedAppend(done, [t], cfg);
    AnnotatedOne(t, cfg);
    AppendAssoc(ann0, Annotated(done, cfg), AnnotatedPiece(t, cfg));
  }

  lemma AnnotatedOne(t: Triplet, cfg: Config)
    ensures Annotated([t], cfg) == AnnotatedPiece(t, cfg)
  {
    assert [t][1..] == [];
    assert Annotated([t], cfg) == AnnotatedPiece(t, cfg) + [];
  }

  /** The plain-text output after one more triplet, on top of what was there before the loop. */
  lemma PlainSnoc(txt0: seq<string>, done: seq<Triplet>, t: Triplet, cfg: Config)
    ensures (txt0 + Plain(done, cfg)) + PlainPiece(t, cfg) == txt0 + Plain(done + [t], cfg)
  {
    PlainAppend(done, [t], cfg);
    PlainOne(t, cfg);
    AppendAssoc(txt0, Plain(done, cfg), PlainPiece(t, cfg));
  }

  lemma PlainOne(t: Triplet, cfg: Config)
    ensures Plain([t], cfg) == PlainPiece(t, cfg)
  {
    assert [t][1..] == [];
    assert Plain([t], cfg) == PlainPiece(t, cfg) + [];
  }

  lemma AppendAssoc(x: seq<string>, a: seq<string>, p: seq<string>)
    ensures (x + a) + p == x + (a + p)
  {
  }

  /**
   * The reads of one pass of the `parse_file` loop: the capture header from
   * the carried line, the transport header and the payload. `rest` is what
   * the loop reads after this pass.
   */
  method ReadTriplet(f: LineStream, cont: Option<string>) returns (step: Step, ghost rest: Parse)
    requires f.Valid()
    modifies f
    ensures f.Valid()
    ensures step.Stop? ==> SplitFrom(f.lines, old(f.pos), cont, f.dec) == Parse([], step.exit)
    ensures step.Next? ==>
              && old(f.pos) < f.pos
              && rest == SplitFrom(f.lines, f.pos, Some(step.cont), f.dec)
              && SplitFrom(f.lines, old(f.pos), cont, f.dec) == Parse([step.triplet] + rest.triplets, rest.exit)
  {
    rest := Parse([], Returned);
    ghost var p0 := f.pos;
    var wh := ReadWarcHead(f, cont);
    if wh.Err? {
      return Stop(Returned), rest;
    }
    ghost var p1 := f.pos;
    var h := ReadHeader(f);
    if h.Err? {
      return Stop(Raised(h.error)), rest;
    }
    ghost var p2 := f.pos;
    var p := ReadHtml(f, None);
    var payload := p.value;
    StepOf(f.lines, p0, cont, wh.value, p1, h.value, p2, payload, f.pos, f.dec);
    step := Next(Triplet(wh.value, h.value, payload[..|payload| - 1]), payload[|payload| - 1], f.pos);
    SplitStep(f.lines, p0, cont, step.triplet, step.cont, f.pos, f.dec);
    rest := SplitFrom(f.lines, f.pos, Some(step.cont), f.dec);
  }

  /**
   * The body of the `parse_file` loop after the three reads: extraction, the
   * language filter, and the two writes, which happen only when something
   * was retained.
   */
  method WriteTriplet(ann: Sink, txt: Sink, warcHead: seq<string>, header: seq<string>, payload: seq<string>,
                      cfg: Config)
    requires ann != txt
    modifies ann, txt
    ensures ann.written == old(ann.written) + AnnotatedPiece(Triplet(warcHead, header, payload), cfg)
    ensures txt.written == old(txt.written) + PlainPiece(Triplet(warcHead, header, payload), cfg)
  {
    var retText := TextOf(payload, cfg);
    assert retText == TripletText(Triplet(warcHead, header, payload), cfg);
    if |retText| == 0 {
      return;
    }
    WriteRecord(ann, txt, warcHead, header, retText);
  }

  /** `xtr` on the payload, then the language filter when one is set. */
  method TextOf(payload: seq<string>, cfg: Config) returns (retText: seq<string>)
    ensures retText == RetText(Extracted(cfg.justext(Concat(payload))), cfg)
  {
    var text := Xtr(payload, cfg.justext);
    if Filtering(cfg) {
      retText := FilterLines(text, cfg);
    } else {
      retText := text;
    }
  }

  /** The eight `writelines` calls for a triplet with retained text `retText`. */
  method WriteRecord(ann: Sink, txt: Sink, warcHead: seq<string>, header: seq<string>, retText: seq<string>)
    requires ann != txt
    modifies ann, txt
    ensures ann.written == old(ann.written) + (warcHead + [BlankLine] + header + [BlankLine] + retText + [BlankLine])
    ensures txt.written == old(txt.written) + (retText + [BlankLine])
  {
    ann.WriteLines(warcHead);
    ann.WriteLines([BlankLine]);
    ann.WriteLines(header);
    ann.WriteLines([BlankLine]);
    ann.WriteLines(retText);
    ann.WriteLines([BlankLine]);
    txt.WriteLines(retText);
    txt.WriteLines([BlankLine]);
  }
}
