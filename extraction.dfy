/**
 * `xtr` and the language filter of `parse_file`: the boilerplate remover and
 * the language identifier are collaborators given as functions.
 */
module Extraction {
  import opened Wrappers
  import opened Text

  /** One paragraph as the boilerplate remover labels it. */
  datatype Paragraph = Paragraph(text: string, isBoilerplate: bool)

  /**
   * The collaborators and options of one extraction run. `justext` stands for
   * the remover applied with its fixed configuration and stop list (`None`
   * where it raises); `lid` gives fasttext's top language code for a line;
   * `lang` and `langIgnore` are the include and exclude filters, "" when unset.
   */
  datatype Config = Config(
    justext: string -> Option<seq<Paragraph>>,
    lid: string -> string,
    lang: string,
    langIgnore: string)

  /** The texts of the non-boilerplate paragraphs, in order. */
  function ContentTexts(ps: seq<Paragraph>): (r: seq<string>)
    ensures |r| <= |ps|
  {
    if ps == [] then []
    else
      var last := ps[|ps| - 1];
      ContentTexts(ps[..|ps| - 1]) + (if last.isBoilerplate then [] else [last.text])
  }

  /** What `xtr` returns for the remover's outcome: nothing when it failed. */
  function Extracted(outcome: Option<seq<Paragraph>>): seq<string> {
    match outcome
    case None => []
    case Some(ps) => ContentTexts(ps)
  }

  /** `xtr(str_list, s)`: joins the payload lines and keeps the content paragraphs. */
  method Xtr(strList: seq<string>, justext: string -> Option<seq<Paragraph>>) returns (text: seq<string>)
    ensures text == Extracted(justext(Concat(strList)))
  {
    text := [];
    var outcome := justext(Concat(strList));
    if outcome.None? {
      return text;
    }
    var paragraphs := outcome.value;
    for i := 0 to |paragraphs|
      invariant text == ContentTexts(paragraphs[..i])
    {
      assert paragraphs[..i + 1][..i] == paragraphs[..i];
      if !paragraphs[i].isBoilerplate {
        text := text + [paragraphs[i].text];
      }
    }
    assert paragraphs[..|paragraphs|] == paragraphs;
  }

  /** Extraction keeps paragraph order: it distributes over concatenation. */
  lemma {:induction false} ContentTextsAppend(a: seq<Paragraph>, b: seq<Paragraph>)
    ensures ContentTexts(a + b) == ContentTexts(a) + ContentTexts(b)
    decreases |b|
  {
    if b != [] {
      var b' := b[..|b| - 1];
      assert (a + b)[..|a + b| - 1] == a + b';
      assert (a + b)[|a + b| - 1] == b[|b| - 1];
      ContentTextsAppend(a, b');
      var e := if b[|b| - 1].isBoilerplate then [] else [b[|b| - 1].text];
      assert ContentTexts(a + b) == ContentTexts(a + b') + e;
      assert ContentTexts(b) == ContentTexts(b') + e;
    } else {
      assert a + b == a;
    }
  }

  /** A text is extracted exactly when some non-boilerplate paragraph carries it. */
  lemma {:induction false} ContentTextsMembers(ps: seq<Paragraph>, x: string)
    ensures x in ContentTexts(ps) <==> exists p :: p in ps && !p.isBoilerplate && p.text == x
    decreases |ps|
  {
    if ps != [] {
      var init := ps[..|ps| - 1];
      ContentTextsMembers(init, x);
      assert ps == init + [ps[|ps| - 1]];
      forall p | p in ps && !p.isBoilerplate && p.text == x ensures x in ContentTexts(ps) {
        if p != ps[|ps| - 1] { assert p in init; }
      }
    }
  }

  /** The number of extracted texts is the number of non-boilerplate paragraphs. */
  function ContentCount(ps: seq<Paragraph>): nat {
    if ps == [] then 0 else (if ps[0].isBoilerplate then 0 else 1) + ContentCount(ps[1..])
  }

  lemma {:induction false} ContentTextsCount(ps: seq<Paragraph>)
    ensures |ContentTexts(ps)| == ContentCount(ps)
    decreases |ps|
  {
    if ps != [] {
      ContentTextsCount(ps[1..]);
      ContentTextsAppend([ps[0]], ps[1..]);
      assert ps == [ps[0]] + ps[1..];
      assert ContentTexts([ps[0]]) == if ps[0].isBoilerplate then [] else [ps[0].text] by {
        assert [ps[0]][..0] == [];
      }
    }
  }

  /** `pg.split("\n")`. */
  function SplitLines(pg: string): (r: seq<string>)
    ensures |r| >= 1
  {
    Split(pg, "\n")
  }

  /** A paragraph's lines hold no newline and join back to the paragraph. */
  lemma SplitLinesPartition(pg: string)
    ensures Join(SplitLines(pg), "\n") == pg
    ensures forall t :: t in SplitLines(pg) ==> '\n' !in t
  {
    SplitJoin(pg, "\n");
    SplitCharPieces(pg, '\n');
  }

  /** Whether a line with language code `code` survives the configured filters. */
  predicate Keep(cfg: Config, code: string) {
    (cfg.lang != "" && cfg.lang == code) || (cfg.langIgnore != "" && cfg.langIgnore != code)
  }

  predicate Filtering(cfg: Config) {
    cfg.lang != "" || cfg.langIgnore != ""
  }

  /** The kept lines of `ts`, each with "\n" appended, in order. */
  function RetainLines(ts: seq<string>, cfg: Config): (r: seq<string>)
    ensures |r| <= |ts|
  {
    if ts == [] then []
    else
      var t := ts[|ts| - 1];
      RetainLines(ts[..|ts| - 1], cfg) + (if Keep(cfg, cfg.lid(t)) then [t + "\n"] else [])
  }

  /** The filter applied paragraph by paragraph, each split into lines. */
  function Retained(text: seq<string>, cfg: Config): seq<string> {
    if text == [] then []
    else Retained(text[..|text| - 1], cfg) + RetainLines(SplitLines(text[|text| - 1]), cfg)
  }

  /** All lines of all paragraphs, in order. */
  function AllLines(text: seq<string>): seq<string> {
    if text == [] then [] else AllLines(text[..|text| - 1]) + SplitLines(text[|text| - 1])
  }

  /** `ret_text`: the filtered lines when a filter is set, else the paragraphs as they are. */
  function RetText(text: seq<string>, cfg: Config): seq<string> {
    if Filtering(cfg) then Retained(text, cfg) else text
  }

  /** The nested `for` loops of `parse_file` that build `ret_text` under a filter. */
  method FilterLines(text: seq<string>, cfg: Config) returns (ret: seq<string>)
    ensures ret == Retained(text, cfg)
  {
    ret := [];
    for i := 0 to |text|
      invariant ret == Retained(text[..i], cfg)
    {
      assert text[..i + 1][..i] == text[..i];
      var lines := SplitLines(text[i]);
      ghost var before := ret;
      for j := 0 to |lines|
        invariant ret == before + RetainLines(lines[..j], cfg)
      {
        assert lines[..j + 1][..j] == lines[..j];
        var t := lines[j];
        var tLang := cfg.lid(t);
        if Keep(cfg, tLang) {
          ret := ret + [t + "\n"];
        }
      }
      assert lines[..|lines|] == lines;
    }
    assert text[..|text|] == text;
  }

  /** Lines that are kept keep their relative order. */
  lemma {:induction false} RetainLinesAppend(a: seq<string>, b: seq<string>, cfg: Config)
    ensures RetainLines(a + b, cfg) == RetainLines(a, cfg) + RetainLines(b, cfg)
    decreases |b|
  {
    if b != [] {
      var b' := b[..|b| - 1];
      assert (a + b)[..|a + b| - 1] == a + b';
      assert (a + b)[|a + b| - 1] == b[|b| - 1];
      RetainLinesAppend(a, b', cfg);
      var t := b[|b| - 1];
      var e := if Keep(cfg, cfg.lid(t)) then [t + "\n"] else [];
      assert RetainLines(a + b, cfg) == RetainLines(a + b', cfg) + e;
      assert RetainLines(b, cfg) == RetainLines(b', cfg) + e;
    } else {
      assert a + b == a;
    }
  }

  /** Filtering paragraph by paragraph is filtering the list of all their lines. */
  lemma {:induction false} RetainedIsRetainLines(text: seq<string>, cfg: Config)
    ensures Retained(text, cfg) == RetainLines(AllLines(text), cfg)
    decreases |text|
  {
    if text != [] {
      var init := text[..|text| - 1];
      RetainedIsRetainLines(init, cfg);
      RetainLinesAppend(AllLines(init), SplitLines(text[|text| - 1]), cfg);
    }
  }

  /**
   * The filtered output holds exactly the kept lines, each with "\n"
   * appended: a line is kept when the include filter is set and its code
   * matches, or the exclude filter is set and its code differs.
   */
  lemma {:induction false} RetainLinesMembers(ts: seq<string>, cfg: Config, x: string)
    ensures x in RetainLines(ts, cfg) <==> exists t :: t in ts && Keep(cfg, cfg.lid(t)) && x == t + "\n"
    decreases |ts|
  {
    if ts != [] {
      var init := ts[..|ts| - 1];
      RetainLinesMembers(init, cfg, x);
      assert ts == init + [ts[|ts| - 1]];
      forall t | t in ts && Keep(cfg, cfg.lid(t)) && x == t + "\n" ensures x in RetainLines(ts, cfg) {
        if t != ts[|ts| - 1] { assert t in init; }
      }
    }
  }

  /**
   * The include filter alone keeps exactly the lines identified as that
   * language; the exclude filter alone keeps exactly the others.
   */
  lemma FilterCorrect(text: seq<string>, cfg: Config, x: string)
    ensures cfg.lang != "" && cfg.langIgnore == "" ==>
      (x in RetText(text, cfg) <==> exists t :: t in AllLines(text) && cfg.lid(t) == cfg.lang && x == t + "\n")
    ensures cfg.lang == "" && cfg.langIgnore != "" ==>
      (x in RetText(text, cfg) <==> exists t :: t in AllLines(text) && cfg.lid(t) != cfg.langIgnore && x == t + "\n")
    ensures !Filtering(cfg) ==> RetText(text, cfg) == text
  {
    RetainedIsRetainLines(text, cfg);
    RetainLinesMembers(AllLines(text), cfg, x);
  }

  /** Every retained line is one line of a paragraph, so it has one "\n", at its end. */
  lemma {:induction false} RetainedLinesShape(text: seq<string>, cfg: Config)
    ensures forall x :: x in Retained(text, cfg) ==>
      |x| >= 1 && x[|x| - 1] == '\n' && '\n' !in x[..|x| - 1]
    decreases |text|
  {
    if text != [] {
      var init := text[..|text| - 1];
      var pg := text[|text| - 1];
      RetainedLinesShape(init, cfg);
      SplitLinesPartition(pg);
      forall x | x in RetainLines(SplitLines(pg), cfg)
        ensures |x| >= 1 && x[|x| - 1] == '\n' && '\n' !in x[..|x| - 1]
      {
        RetainLinesMembers(SplitLines(pg), cfg, x);
        var t :| t in SplitLines(pg) && Keep(cfg, cfg.lid(t)) && x == t + "\n";
        assert x[..|x| - 1] == t;
      }
    }
  }
}
