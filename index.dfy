/**
 * The string handling around the Common Crawl index in extract_by_tld.py:
 * the crawl identifiers scraped from the index page (`get_idx_urls`), the
 * name of the file a search result is saved under (`search_all`), and the
 * byte range requested for one record (`get_json_data`).
 */
module CrawlIndex {
  import opened Wrappers
  import opened Text

  /** `CC_IDX_API_HEAD`: the prefix of every per-crawl index URL. */
  const ApiHead: string := "https://index.commoncrawl.org/"

  /** The marker that selects the lines of the index page naming a crawl. */
  const Anchor: string := "<a href=\"/CC-MAIN"

  /** The separator in front of a crawl identifier: a quote and a slash. */
  const QuoteSlash: string := "\"/"

  /** The lines of `ls` that hold the anchor, in their order (`idxs_d`). */
  function AnchorLines(ls: seq<string>): (r: seq<string>)
    ensures forall l :: l in r <==> l in ls && Contains(l, Anchor)
    ensures |r| <= |ls|
  {
    if ls == [] then []
    else
      var rest := AnchorLines(ls[1..]);
      assert forall l :: l in ls <==> l == ls[0] || l in ls[1..];
      if Contains(ls[0], Anchor) then [ls[0]] + rest else rest
  }

  /**
   * The comprehension keeps every anchor line once per occurrence, in page
   * order: a single line is kept exactly when it holds the anchor, and the
   * selection of a concatenation is the concatenation of the selections.
   */
  lemma {:induction false} AnchorLinesAppend(a: seq<string>, b: seq<string>)
    ensures forall l :: AnchorLines([l]) == if Contains(l, Anchor) then [l] else []
    ensures AnchorLines(a + b) == AnchorLines(a) + AnchorLines(b)
    decreases |a|
  {
    forall l ensures AnchorLines([l]) == if Contains(l, Anchor) then [l] else [] {
      assert [l][1..] == [];
    }
    if a != [] {
      assert (a + b)[0] == a[0];
      assert (a + b)[1..] == a[1..] + b;
      AnchorLinesAppend(a[1..], b);
    } else {
      assert a + b == b;
    }
  }

  /** The anchor holds the separator, so every anchor line splits on it. */
  lemma AnchorSplits(l: string)
    requires Contains(l, Anchor)
    ensures |Split(l, QuoteSlash)| >= 2
  {
    assert Anchor[8..10] == QuoteSlash;
    ContainsInner(l, Anchor, 8, QuoteSlash);
    SplitContains(l, QuoteSlash);
  }

  /** `t.split('"/')[1].split('"')[0]`: the crawl identifier of one anchor line. */
  function CrawlId(l: string): string
    requires Contains(l, Anchor)
  {
    AnchorSplits(l);
    Split(Split(l, QuoteSlash)[1], "\"")[0]
  }

  /** `get_idx_urls` on the text of the index page. */
  function IndexUrls(page: string): (r: seq<string>)
  {
    var ls := AnchorLines(Split(page, "\n"));
    seq(|ls|, k requires 0 <= k < |ls| => ApiHead + CrawlId(ls[k]))
  }

  /**
   * The first piece of a split is a prefix of the string with no occurrence
   * of the separator; it is the whole string when there is no other piece,
   * and otherwise the separator follows it and the remaining pieces are the
   * split of what comes after.
   */
  lemma SplitFirst(s: string, sep: string)
    requires sep != ""
    ensures var ps := Split(s, sep);
      && HasPrefix(s, ps[0])
      && !Contains(ps[0], sep)
      && (|ps| == 1 ==> ps[0] == s)
      && (|ps| >= 2 ==>
            && HasPrefix(s[|ps[0]|..], sep)
            && ps[1..] == Split(s[|ps[0]| + |sep|..], sep))
  {
    SplitFirstPrefix(s, sep);
    SplitFirstSep(s, sep);
    SplitFirstTail(s, sep);
    SplitFirstFree(s, sep);
  }

  lemma {:induction false} SplitFirstPrefix(s: string, sep: string)
    requires sep != ""
    ensures var ps := Split(s, sep);
      && HasPrefix(s, ps[0])
      && (|ps| == 1 ==> ps[0] == s)
    decreases |s|
  {
    if |s| >= |sep| && s[..|sep|] != sep {
      var rest := Split(s[1..], sep);
      SplitFirstPrefix(s[1..], sep);
      var p := [s[0]] + rest[0];
      assert Split(s, sep) == [p] + rest[1..];
      assert s[..|p|] == [s[0]] + s[1..][..|rest[0]|];
      if |rest| == 1 {
        assert s == [s[0]] + s[1..];
      }
    }
  }

  /** Slicing after the first character and then at `i` is slicing at `i + 1`. */
  lemma SliceShift(s: string, i: nat, n: nat)
    requires 1 + i + n <= |s|
    ensures s[1 + i..1 + i + n] == s[1..][i..i + n]
    ensures s[1 + i + n..] == s[1..][i + n..]
  {
    var tl := s[1..];
    var a, b := s[1 + i..1 + i + n], tl[i..i + n];
    forall k | 0 <= k < n ensures a[k] == b[k] {
      assert tl[i + k] == s[1 + i + k];
    }
    assert s[1 + i + n..] == tl[i + n..];
  }

  lemma {:induction false} SplitFirstSep(s: string, sep: string)
    requires sep != ""
    ensures var ps := Split(s, sep);
      |ps| >= 2 ==> |ps[0]| + |sep| <= |s| && s[|ps[0]|..|ps[0]| + |sep|] == sep
    decreases |s|
  {
    var ps := Split(s, sep);
    if |s| >= |sep| && s[..|sep|] != sep {
      var rest := Split(s[1..], sep);
      SplitFirstSep(s[1..], sep);
      var p := [s[0]] + rest[0];
      assert ps == [p] + rest[1..];
      if |ps| >= 2 {
        assert ps[0] == p;
        SliceShift(s, |rest[0]|, |sep|);
        assert s[|p|..|p| + |sep|] == sep;
      }
    }
  }

  lemma {:induction false} SplitFirstTail(s: string, sep: string)
    requires sep != ""
    ensures var ps := Split(s, sep);
      |ps| >= 2 ==> |ps[0]| + |sep| <= |s| && ps[1..] == Split(s[|ps[0]| + |sep|..], sep)
    decreases |s|
  {
    var ps := Split(s, sep);
    if |s| >= |sep| && s[..|sep|] == sep {
      assert ps[1..] == Split(s[|sep|..], sep);
    } else if |s| >= |sep| {
      var rest := Split(s[1..], sep);
      assert ps == [[s[0]] + rest[0]] + rest[1..];
      if |ps| >= 2 {
        SplitFirstTail(s[1..], sep);
        TailAfterShift(s, sep, ps, rest);
      }
    }
  }

  /**
   * When the first piece of `s` is its first character followed by the
   * first piece of `s[1..]`, the pieces after it are those of `s[1..]`
   * after its first.
   */
  lemma TailAfterShift(s: string, sep: string, ps: seq<string>, rest: seq<string>)
    requires sep != "" && |s| >= 1 && |rest| >= 2 && ps == [[s[0]] + rest[0]] + rest[1..]
    requires |rest[0]| + |sep| <= |s| - 1 && rest[1..] == Split(s[1..][|rest[0]| + |sep|..], sep)
    ensures |ps[0]| + |sep| <= |s| && ps[1..] == Split(s[|ps[0]| + |sep|..], sep)
  {
    SliceShift(s, |rest[0]|, |sep|);
    TailOfCons([s[0]] + rest[0], rest, ps);
    var after := s[1..][|rest[0]| + |sep|..];
    assert |ps[0]| + |sep| == 1 + |rest[0]| + |sep|;
    assert s[|ps[0]| + |sep|..] == after;
  }

  /** The pieces after the first of `[first] + rest[1..]` are those of `rest` after its first. */
  lemma TailOfCons(first: string, rest: seq<string>, ps: seq<string>)
    requires |rest| >= 1 && ps == [first] + rest[1..]
    ensures ps[0] == first && ps[1..] == rest[1..]
  {
  }

  lemma {:induction false} SplitFirstFree(s: string, sep: string)
    requires sep != ""
    ensures !Contains(Split(s, sep)[0], sep)
    decreases |s|
  {
    var ps := Split(s, sep);
    if |s| < |sep| {
      NotContainsShort(s, sep);
    } else if s[..|sep|] == sep {
      assert ps[0] == "";
      assert !HasPrefix("", sep);
    } else {
      var rest := Split(s[1..], sep);
      SplitFirstFree(s[1..], sep);
      SplitFirstPrefix(s, sep);
      var p := [s[0]] + rest[0];
      assert ps[0] == p;
      assert p[1..] == rest[0];
      if |sep| <= |p| {
        assert s[..|sep|] == p[..|sep|];
      }
    }
  }

  /**
   * The text of `after` up to its first `"/`, then up to its first quote, is
   * a quote-free prefix of `after` that ends at a quote or at the end.
   */
  lemma UpToQuote(after: string)
    ensures var piece := Split(after, QuoteSlash)[0];
      var id := Split(piece, "\"")[0];
      && HasPrefix(after, id)
      && '"' !in id
      && (id == after || after[|id|] == '"')
  {
    SplitFirst(after, QuoteSlash);
    var piece := Split(after, QuoteSlash)[0];
    SplitFirst(piece, "\"");
    SplitCharPieces(piece, '"');
    var qs := Split(piece, "\"");
    var id := qs[0];
    assert id in qs;
    assert after[..|id|] == piece[..|id|];
    if id != after {
      if |qs| >= 2 {
        assert after[|id|] == piece[|id|];
        assert piece[|id|..][..1] == "\"";
      } else {
        assert id == piece;
        assert after[|id|] == after[|id|..][..2][0];
      }
    }
  }

  /**
   * The identifier is what follows the first `"/` of the line, up to the next
   * quote or the end of the line, and holds no quote.
   */
  lemma CrawlIdShape(l: string)
    requires Contains(l, Anchor)
    ensures var pre := Split(l, QuoteSlash)[0];
      var id := CrawlId(l);
      && !Contains(pre, QuoteSlash)
      && |pre| + 2 <= |l| && l[|pre|..|pre| + 2] == QuoteSlash
      && var after := l[|pre| + 2..];
        && HasPrefix(after, id)
        && '"' !in id
        && (id == after || after[|id|] == '"')
  {
    AnchorSplits(l);
    SplitFirst(l, QuoteSlash);
    var ps := Split(l, QuoteSlash);
    var after := l[|ps[0]| + 2..];
    assert ps[1] == Split(after, QuoteSlash)[0] by {
      assert ps[1..][0] == ps[1];
    }
    UpToQuote(after);
  }

  /**
   * Every index URL is the API head followed by the identifier of one anchor
   * line of the page, one URL per anchor line and in page order.
   */
  lemma IndexUrlsShape(page: string)
    ensures var ls := AnchorLines(Split(page, "\n"));
      var r := IndexUrls(page);
      && |r| == |ls|
      && forall k :: 0 <= k < |r| ==>
        && Contains(ls[k], Anchor)
        && HasPrefix(r[k], ApiHead)
        && r[k][|ApiHead|..] == CrawlId(ls[k])
        && '"' !in r[k][|ApiHead|..]
  {
    var ls := AnchorLines(Split(page, "\n"));
    var r := IndexUrls(page);
    forall k | 0 <= k < |r|
      ensures && Contains(ls[k], Anchor)
        && HasPrefix(r[k], ApiHead)
        && r[k][|ApiHead|..] == CrawlId(ls[k])
        && '"' !in r[k][|ApiHead|..]
    {
      assert ls[k] in ls;
      CrawlIdShape(ls[k]);
      assert r[k] == ApiHead + CrawlId(ls[k]);
      assert r[k][..|ApiHead|] == ApiHead;
    }
  }

  /** `query.replace("*","").replace(".", "")`. */
  function CleanQuery(query: string): string {
    RemoveChar(RemoveChar(query, '*'), '.')
  }

  /** `url.split("/")[-1]`. */
  function CleanUrl(url: string): (r: string)
    ensures '/' !in r
  {
    SplitCharPieces(url, '/');
    var pieces := Split(url, "/");
    assert pieces[|pieces| - 1] in pieces;
    LastPiece(url, "/")
  }

  /** The file `search_all` writes the results for `query` from `url` into. */
  function SearchFileName(outDir: string, query: string, url: string): string {
    outDir + "/" + CleanQuery(query) + "_" + CleanUrl(url) + ".json"
  }

  /** Removing a character that is absent changes nothing. */
  lemma {:induction false} RemoveAbsent(s: string, c: char)
    requires c !in s
    ensures RemoveChar(s, c) == s
    decreases |s|
  {
    if s != [] {
      RemoveAbsent(s[1..], c);
      assert s == [s[0]] + s[1..];
    }
  }

  /**
   * The cleaned query holds neither `*` nor `.`, keeps every other character
   * as often as the query has it, and cleaning it again changes nothing.
   */
  lemma CleanQueryProps(query: string)
    ensures var q := CleanQuery(query);
      && '*' !in q && '.' !in q
      && (forall x :: x != '*' && x != '.' ==> multiset(q)[x] == multiset(query)[x])
      && CleanQuery(q) == q
  {
    var q := CleanQuery(query);
    var once := RemoveChar(query, '*');
    assert '*' !in once;
    assert multiset(q)['*'] == multiset(once)['*'] == 0;
    RemoveAbsent(q, '*');
    RemoveAbsent(q, '.');
  }

  /** What precedes the last occurrence of `c` does not affect the last `c`-piece. */
  lemma {:induction false} LastPieceAfter(x: string, c: char, tail: string)
    ensures LastPiece(x + [c] + tail, [c]) == LastPiece(tail, [c])
    decreases |x|
  {
    var s := x + [c] + tail;
    if x == [] {
      SplitPrefixPiece(x, c, tail);
    } else {
      var rest := Split(s[1..], [c]);
      assert s[1..] == x[1..] + [c] + tail;
      LastPieceAfter(x[1..], c, tail);
      assert s[1..][|x| - 1..|x|] == [c];
      ContainsAt(s[1..], |x| - 1, [c]);
      SplitContains(s[1..], [c]);
      if s[..1] == [c] {
        assert Split(s, [c]) == [""] + rest;
      } else {
        assert Split(s, [c]) == [[s[0]] + rest[0]] + rest[1..];
      }
    }
  }

  /** The last `/`-segment of an index URL is that of its identifier. */
  lemma ApiHeadSegment(id: string)
    ensures CleanUrl(ApiHead + id) == LastPiece(id, "/")
  {
    var n := |ApiHead| - 1;
    assert ApiHead == ApiHead[..n] + "/";
    assert ApiHead + id == ApiHead[..n] + ['/'] + id;
    LastPieceAfter(ApiHead[..n], '/', id);
  }

  /**
   * The name part of an index URL is the last `/`-segment of its identifier,
   * so the results for a crawl land in `outDir/<query>_<segment>.json`.
   */
  lemma CleanIndexUrl(outDir: string, query: string, id: string)
    ensures CleanUrl(ApiHead + id) == LastPiece(id, "/")
    ensures SearchFileName(outDir, query, ApiHead + id)
      == outDir + "/" + CleanQuery(query) + "_" + LastPiece(id, "/") + ".json"
  {
    ApiHeadSegment(id);
  }

  /**
   * An HTTP byte range `bytes=first-last`; both ends are included (section
   * 2.1 of RFC 7233).
   */
  datatype ByteRange = ByteRange(first: int, last: int)

  /** The byte positions a range covers. */
  predicate Covers(r: ByteRange, b: int) {
    r.first <= b <= r.last
  }

  /** The number of bytes a range covers. */
  function Width(r: ByteRange): int {
    if r.last < r.first then 0 else r.last - r.first + 1
  }

  /** The range `get_json_data` requests: `end = offset + length` as its last byte. */
  function RequestedRange(offset: int, length: int): ByteRange {
    ByteRange(offset, offset + length)
  }

  /**
   * The requested range covers one byte more than the record: the first byte
   * after it, at `offset + length`, is included.
   */
  lemma RequestedRangeOverreads(offset: int, length: nat)
    ensures Width(RequestedRange(offset, length)) == length + 1
    ensures Covers(RequestedRange(offset, length), offset + length)
  {
  }

  /**
   * The range of exactly the record's bytes, `offset` to `offset + length - 1`;
   * an empty record has no range.
   */
  function RecordRange(offset: int, length: nat): Option<ByteRange> {
    if length == 0 then None else Some(ByteRange(offset, offset + length - 1))
  }

  /** The record's range covers a byte exactly when the record holds it. */
  lemma RecordRangeExact(offset: int, length: nat)
    ensures RecordRange(offset, length).None? <==> length == 0
    ensures RecordRange(offset, length).Some? ==>
      && Width(RecordRange(offset, length).value) == length
      && forall b :: Covers(RecordRange(offset, length).value, b) <==> offset <= b < offset + length
  {
  }
}
