/**
 * The line-block reader of extract_by_tld.py: `read_block` and its three
 * wrappers, over a line stream whose `readline` returns "" at end of file.
 */
module Splitter {
  import opened Wrappers
  import opened Text
  import opened Recoding

  /** The line that ends a payload and starts the next capture header. */
  const WarcSentinel: string := "WARC/1.0\n"
  /** The blank line that ends a capture header or a transport header. */
  const BlankLine: string := "\n"

  /**
   * A re-decoding of one line: the line decoded again, or None where that
   * decoding raises. The reader methods use `Recoding.Recode`; the block
   * specifications below are stated for any re-decoding that leaves "", the
   * blank line and the sentinel as they are (`Fixes`), which `Recode` does
   * (`RecodeFixes`).
   */
  type Redecode = string -> Option<string>

  /** The lines that end blocks, and the "" of end of file, re-decode to themselves. */
  predicate Fixes(dec: Redecode) {
    dec("") == Some("") && dec(BlankLine) == Some(BlankLine) && dec(WarcSentinel) == Some(WarcSentinel)
  }

  /** The program's re-decoding keeps the block-ending lines. */
  lemma RecodeFixes()
    ensures Fixes(Recode)
  {
    RecodeAscii("");
    RecodeAscii(BlankLine);
    RecodeAscii(WarcSentinel);
  }

  /** The exception `read_block` raises when the break string is missing. */
  datatype Error = BreakStrNotFound

  /**
   * What `readline` can hand out before end of file: non-empty lines, each
   * holding "\n" only as its last character, all but the last ending with it.
   */
  ghost predicate ReadlineShaped(ls: seq<string>) {
    forall i :: 0 <= i < |ls| ==>
      ls[i] != "" &&
      (forall k :: 0 <= k < |ls[i]| - 1 ==> ls[i][k] != '\n') &&
      (i < |ls| - 1 ==> ls[i][|ls[i]| - 1] == '\n')
  }

  /** The line `readline` returns at position `pos`. */
  function RawLine(ls: seq<string>, pos: nat): string {
    if pos < |ls| then ls[pos] else ""
  }

  /** The stream position after one `readline` at `pos`. */
  function NextPos(ls: seq<string>, pos: nat): nat {
    if pos < |ls| then pos + 1 else pos
  }

  /**
   * An open text file read line by line, with the re-decoding the reader
   * applies to each line it reads.
   */
  class LineStream {
    const lines: seq<string>
    const dec: Redecode
    var pos: nat

    ghost predicate Valid()
      reads this
    {
      pos <= |lines| && ReadlineShaped(lines) && Fixes(dec)
    }

    /** A file opened for reading, re-decoded the way extract_by_tld.py does. */
    constructor (ls: seq<string>)
      requires ReadlineShaped(ls)
      ensures Valid() && lines == ls && dec == Recode && pos == 0
    {
      lines := ls;
      dec := Recode;
      pos := 0;
      RecodeFixes();
    }

    /** `readline()`: the next line, or "" at end of file without moving. */
    method ReadLine() returns (line: string)
      requires Valid()
      modifies this`pos
      ensures Valid()
      ensures line == RawLine(lines, old(pos)) && pos == NextPos(lines, old(pos))
    {
      if pos < |lines| {
        line := lines[pos];
        pos := pos + 1;
      } else {
        line := "";
      }
    }
  }

  /** The loop test of `read_block`: reading stops at "" or at the end string. */
  predicate Stops(line: string, endStr: string) {
    line == "" || line == endStr
  }

  /**
   * The first line of a block and the position after it: `start` when it is
   * given (nothing is read), otherwise one fresh line, re-decoded when that
   * succeeds and kept as read when it fails.
   */
  function FirstLine(ls: seq<string>, pos: nat, start: Option<string>, dec: Redecode): (r: (string, nat))
  {
    match start
    case Some(s) => (s, pos)
    case None =>
      var raw := RawLine(ls, pos);
      (dec(raw).GetOr(raw), NextPos(ls, pos))
  }

  /**
   * The `while` loop of `read_block` entered with current line `line` at
   * position `pos`: the lines it appends and the position it ends at. A line
   * that fails to re-decode is not appended; the loop goes on with "=".
   */
  function RestOfBlock(ls: seq<string>, pos: nat, endStr: string, line: string, dec: Redecode): (r: (seq<string>, nat))
    requires pos <= |ls| && Fixes(dec)
    ensures pos <= r.1 <= |ls|
    decreases |ls| - pos
  {
    if Stops(line, endStr) then ([], pos)
    else if pos == |ls| then ([""], pos)
    else
      match dec(ls[pos])
      case None => RestOfBlock(ls, pos + 1, endStr, "=", dec)
      case Some(l) =>
        var tail := RestOfBlock(ls, pos + 1, endStr, l, dec);
        ([l] + tail.0, tail.1)
  }

  /** The outcome of one `read_block` call and the stream position after it. */
  datatype Read = Read(block: Result<seq<string>, Error>, pos: nat)

  /** `read_block(stream, break_str, start, end_str)` on the stream `ls` at `pos`. */
  function ReadBlockSpec(ls: seq<string>, pos: nat, breakStr: Option<string>, start: Option<string>,
                         endStr: string, dec: Redecode): (r: Read)
    requires pos <= |ls| && Fixes(dec)
    ensures pos <= r.pos <= |ls|
    ensures r.block.Ok? ==> |r.block.value| >= 1
    ensures breakStr.None? ==> r.block.Ok?
    ensures r.block.Ok? && start.None? && breakStr.Some? && breakStr.value != "" ==> r.pos > pos
  {
    var (first, p) := FirstLine(ls, pos, start, dec);
    if breakStr.Some? && !HasPrefix(first, breakStr.value) then
      Read(Err(BreakStrNotFound), p)
    else
      var rest := RestOfBlock(ls, p, endStr, first, dec);
      Read(Ok([first] + rest.0), rest.1)
  }

  /** `read_block`, reading from `f`. */
  method ReadBlock(f: LineStream, breakStr: Option<string>, start: Option<string>, endStr: string)
    returns (r: Result<seq<string>, Error>)
    requires f.Valid()
    modifies f
    ensures f.Valid()
    ensures Read(r, f.pos) == ReadBlockSpec(f.lines, old(f.pos), breakStr, start, endStr, f.dec)
  {
    var line: string;
    if start.None? {
      line := f.ReadLine();
      var decoded := f.dec(line);
      if decoded.Some? {
        line := decoded.value;
      }
    } else {
      line := start.value;
    }
    assert FirstLine(f.lines, old(f.pos), start, f.dec) == (line, f.pos);
    if breakStr.Some? && !HasPrefix(line, breakStr.value) {
      return Err(BreakStrNotFound);
    }
    var rest := ReadRest(f, endStr, line);
    return Ok([line] + rest);
  }

  /** The `while` loop of `read_block`, entered with current line `line`. */
  method ReadRest(f: LineStream, endStr: string, line: string) returns (appended: seq<string>)
    requires f.Valid()
    modifies f
    ensures f.Valid()
    ensures (appended, f.pos) == RestOfBlock(f.lines, old(f.pos), endStr, line, f.dec)
  {
    ghost var whole := RestOfBlock(f.lines, f.pos, endStr, line, f.dec);
    appended := [];
    var current := line;
    while current != "" && current != endStr
      invariant f.Valid() && old(f.pos) <= f.pos
      invariant whole.0 == appended + RestOfBlock(f.lines, f.pos, endStr, current, f.dec).0
      invariant whole.1 == RestOfBlock(f.lines, f.pos, endStr, current, f.dec).1
      decreases |f.lines| - f.pos, if Stops(current, endStr) then 0 else 1
    {
      ghost var appended0 := appended;
      RestUnfold(f.lines, f.pos, endStr, current, f.dec);
      ghost var rest := RestOfBlock(f.lines, NextPos(f.lines, f.pos), endStr, NextLine(f.lines, f.pos, f.dec), f.dec);
      var got;
      current, got := ReadDecoded(f);
      appended := appended + got;
      assert appended0 + (got + rest.0) == (appended0 + got) + rest.0;
    }
    assert appended + [] == appended;
  }

  /**
   * One `readline` in the loop of `read_block`: the line to go on with, and
   * the lines to append (the re-decoded line, or none when that fails).
   */
  method ReadDecoded(f: LineStream) returns (next: string, got: seq<string>)
    requires f.Valid()
    modifies f
    ensures f.Valid()
    ensures next == NextLine(f.lines, old(f.pos), f.dec) && got == Got(f.lines, old(f.pos), f.dec)
    ensures f.pos == NextPos(f.lines, old(f.pos))
  {
    var line := f.ReadLine();
    var decoded := f.dec(line);
    if decoded.Some? {
      next, got := decoded.value, [decoded.value];
    } else {
      next, got := "=", [];
    }
  }

  /** The line the loop goes on with after reading at `pos`: the re-decoded line, or "=". */
  function NextLine(ls: seq<string>, pos: nat, dec: Redecode): string {
    match dec(RawLine(ls, pos))
    case None => "="
    case Some(l) => l
  }

  /** What the loop appends for the line it reads at `pos`: its re-decoding, if any. */
  function Got(ls: seq<string>, pos: nat, dec: Redecode): seq<string> {
    match dec(RawLine(ls, pos))
    case None => []
    case Some(l) => [l]
  }

  /** One turn of the loop: read a line, append what re-decodes, go on. */
  lemma RestUnfold(ls: seq<string>, pos: nat, endStr: string, line: string, dec: Redecode)
    requires pos <= |ls| && Fixes(dec) && !Stops(line, endStr)
    ensures var rest := RestOfBlock(ls, NextPos(ls, pos), endStr, NextLine(ls, pos, dec), dec);
      RestOfBlock(ls, pos, endStr, line, dec) == (Got(ls, pos, dec) + rest.0, rest.1)
  {
    if pos == |ls| {
      assert Got(ls, pos, dec) == [""] && NextLine(ls, pos, dec) == "";
      assert RestOfBlock(ls, pos, endStr, "", dec) == ([], pos);
      assert [""] + [] == [""];
    } else {
      assert RawLine(ls, pos) == ls[pos];
      match dec(ls[pos])
      case None =>
        assert [] + RestOfBlock(ls, pos + 1, endStr, "=", dec).0 == RestOfBlock(ls, pos + 1, endStr, "=", dec).0;
      case Some(l) =>
    }
  }

  /** `read_warc_head`: a block that must start with "WARC" and ends at a blank line. */
  method ReadWarcHead(f: LineStream, start: Option<string>) returns (r: Result<seq<string>, Error>)
    requires f.Valid()
    modifies f
    ensures f.Valid()
    ensures Read(r, f.pos) == ReadBlockSpec(f.lines, old(f.pos), Some("WARC"), start, BlankLine, f.dec)
    ensures r.Ok? ==> HasPrefix(r.value[0], "WARC")
  {
    r := ReadBlock(f, Some("WARC"), start, BlankLine);
    if r.Ok? {
      BreakCheck(f.lines, old(f.pos), Some("WARC"), start, BlankLine, f.dec);
    }
  }

  /** `read_header`: a fresh block that must start with "HTTP" and ends at a blank line. */
  method ReadHeader(f: LineStream) returns (r: Result<seq<string>, Error>)
    requires f.Valid()
    modifies f
    ensures f.Valid()
    ensures Read(r, f.pos) == ReadBlockSpec(f.lines, old(f.pos), Some("HTTP"), None, BlankLine, f.dec)
    ensures r.Ok? ==> HasPrefix(r.value[0], "HTTP") && f.pos > old(f.pos)
  {
    r := ReadBlock(f, Some("HTTP"), None, BlankLine);
    if r.Ok? {
      BreakCheck(f.lines, old(f.pos), Some("HTTP"), None, BlankLine, f.dec);
    }
  }

  /** `read_html`: a payload block, read until the sentinel line or end of file. */
  method ReadHtml(f: LineStream, start: Option<string>) returns (r: Result<seq<string>, Error>)
    requires f.Valid()
    modifies f
    ensures f.Valid()
    ensures Read(r, f.pos) == ReadBlockSpec(f.lines, old(f.pos), None, start, WarcSentinel, f.dec)
    ensures r.Ok? && |r.value| >= 1
  {
    r := ReadBlock(f, None, start, WarcSentinel);
  }

  /** Python's `s[-1]` on a non-empty list. */
  function Last<T>(s: seq<T>): T
    requires |s| >= 1
  {
    s[|s| - 1]
  }

  /**
   * The loop ends with a line that is "" or the end string, and no line it
   * appends before that one is either (the end string is not "=", the
   * placeholder the loop uses after a failed re-decode).
   */
  lemma {:induction false} RestShape(ls: seq<string>, pos: nat, endStr: string, line: string, dec: Redecode)
    requires pos <= |ls| && Fixes(dec) && endStr != "=" && !Stops(line, endStr)
    ensures var t := RestOfBlock(ls, pos, endStr, line, dec).0;
      |t| >= 1 && Stops(Last(t), endStr) && forall i :: 0 <= i < |t| - 1 ==> !Stops(t[i], endStr)
    decreases |ls| - pos
  {
    if pos < |ls| {
      match dec(ls[pos])
      case None =>
        RestShape(ls, pos + 1, endStr, "=", dec);
      case Some(l) =>
        if !Stops(l, endStr) {
          RestShape(ls, pos + 1, endStr, l, dec);
          var tail := RestOfBlock(ls, pos + 1, endStr, l, dec).0;
          assert RestOfBlock(ls, pos, endStr, line, dec).0 == [l] + tail;
        }
    }
  }

  /**
   * A block read by `read_block` is never empty; its first line is `start`
   * when given and otherwise the freshly read line; it ends with "" or the end
   * string; and no earlier line is "" or the end string.
   */
  lemma BlockShape(ls: seq<string>, pos: nat, breakStr: Option<string>, start: Option<string>, endStr: string, dec: Redecode)
    requires pos <= |ls| && Fixes(dec) && endStr != "="
    ensures var r := ReadBlockSpec(ls, pos, breakStr, start, endStr, dec);
      r.block.Ok? ==>
        var b := r.block.value;
        && |b| >= 1
        && b[0] == FirstLine(ls, pos, start, dec).0
        && (start.Some? ==> b[0] == start.value)
        && Stops(Last(b), endStr)
        && forall i :: 0 <= i < |b| - 1 ==> !Stops(b[i], endStr)
  {
    var (first, p) := FirstLine(ls, pos, start, dec);
    if !Stops(first, endStr) {
      RestShape(ls, p, endStr, first, dec);
    }
  }

  /**
   * With a break string, `read_block` raises exactly when the first line does
   * not begin with it; without one it never raises. A raising call with a
   * given `start` has read nothing from the stream.
   */
  lemma BreakCheck(ls: seq<string>, pos: nat, breakStr: Option<string>, start: Option<string>, endStr: string, dec: Redecode)
    requires pos <= |ls| && Fixes(dec)
    ensures var r := ReadBlockSpec(ls, pos, breakStr, start, endStr, dec);
      var first := FirstLine(ls, pos, start, dec).0;
      && (r.block.Err? <==> breakStr.Some? && !HasPrefix(first, breakStr.value))
      && (r.block.Ok? && breakStr.Some? ==> HasPrefix(r.block.value[0], breakStr.value))
      && (r.block.Err? && start.Some? ==> r.pos == pos)
  {
  }

  /** The lines among `ls` that re-decode, re-decoded, in order. */
  function Decoded(ls: seq<string>, dec: Redecode): (r: seq<string>)
    ensures |r| <= |ls|
  {
    if ls == [] then []
    else
      match dec(ls[0])
      case None => Decoded(ls[1..], dec)
      case Some(l) => [l] + Decoded(ls[1..], dec)
  }

  /** `Decoded` holds exactly the successful re-decodings of the lines. */
  lemma {:induction false} DecodedMembers(ls: seq<string>, x: string, dec: Redecode)
    ensures x in Decoded(ls, dec) <==> exists l :: l in ls && dec(l) == Some(x)
    decreases |ls|
  {
    if ls != [] {
      DecodedMembers(ls[1..], x, dec);
      assert ls == [ls[0]] + ls[1..];
      if x !in Decoded(ls, dec) {
        forall l | l in ls ensures dec(l) != Some(x) {
          if l != ls[0] { assert l in ls[1..]; }
        }
      }
    }
  }

  /**
   * The loop appends the re-decodings of exactly the lines it consumed,
   * dropping those that fail, plus the "" it reads when it runs into the end
   * of the file.
   */
  lemma {:induction false} RestDecoded(ls: seq<string>, pos: nat, endStr: string, line: string, dec: Redecode)
    requires pos <= |ls| && Fixes(dec)
    ensures var r := RestOfBlock(ls, pos, endStr, line, dec);
      r.0 == Decoded(ls[pos..r.1], dec) || (r.1 == |ls| && r.0 == Decoded(ls[pos..r.1], dec) + [""])
    decreases |ls| - pos
  {
    var r := RestOfBlock(ls, pos, endStr, line, dec);
    if Stops(line, endStr) || pos == |ls| {
      assert ls[pos..r.1] == [];
    } else {
      var next := match dec(ls[pos]) case None => "=" case Some(l) => l;
      RestDecoded(ls, pos + 1, endStr, next, dec);
      var r' := RestOfBlock(ls, pos + 1, endStr, next, dec);
      assert r.1 == r'.1;
      assert ls[pos..r.1][1..] == ls[pos + 1..r'.1];
      assert ls[pos..r.1][0] == ls[pos];
    }
  }

  /**
   * After its first line, a block holds only successfully re-decoded lines
   * (the lines that fail are left out and reading goes on), and a "" at the
   * end of the file.
   */
  lemma BlockDecoded(ls: seq<string>, pos: nat, breakStr: Option<string>, start: Option<string>, endStr: string, dec: Redecode)
    requires pos <= |ls| && Fixes(dec)
    ensures var r := ReadBlockSpec(ls, pos, breakStr, start, endStr, dec);
      var p := FirstLine(ls, pos, start, dec).1;
      r.block.Ok? ==>
        var b := r.block.value;
        b[1..] == Decoded(ls[p..r.pos], dec) || (r.pos == |ls| && b[1..] == Decoded(ls[p..r.pos], dec) + [""])
  {
    var (first, p) := FirstLine(ls, pos, start, dec);
    RestDecoded(ls, p, endStr, first, dec);
    var r := ReadBlockSpec(ls, pos, breakStr, start, endStr, dec);
    if r.block.Ok? {
      assert r.block.value[1..] == RestOfBlock(ls, p, endStr, first, dec).0;
    }
  }

  /** A first line that fails to re-decode is kept as it was read. */
  lemma FirstLineKeptRaw(ls: seq<string>, pos: nat, dec: Redecode)
    requires pos < |ls| && dec(ls[pos]).None?
    ensures FirstLine(ls, pos, None, dec) == (ls[pos], pos + 1)
  {
  }
}
