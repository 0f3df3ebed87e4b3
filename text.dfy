/** The Python string operations the extractor relies on, over `seq<char>`. */
module Text {

  /** `s[:len(p)] == p` in Python: `p` is a prefix of `s`. */
  predicate HasPrefix(s: string, p: string) {
    |p| <= |s| && s[..|p|] == p
  }

  /** `t in s` in Python: `t` occurs in `s` as a contiguous substring. */
  predicate Contains(s: string, t: string)
    decreases |s|
  {
    HasPrefix(s, t) || (|s| > 0 && Contains(s[1..], t))
  }

  /** `"".join(ss)`. */
  function Concat(ss: seq<string>): (r: string)
  {
    if ss == [] then "" else Concat(ss[..|ss| - 1]) + ss[|ss| - 1]
  }

  /** `sep.join(ss)`. */
  function Join(ss: seq<string>, sep: string): string
  {
    if ss == [] then ""
    else if |ss| == 1 then ss[0]
    else ss[0] + sep + Join(ss[1..], sep)
  }

  /**
   * `s.split(sep)` for a non-empty separator: the pieces between the
   * non-overlapping occurrences of `sep`, found left to right.
   */
  function Split(s: string, sep: string): (r: seq<string>)
    requires sep != ""
    ensures |r| >= 1
    decreases |s|
  {
    if |s| < |sep| then [s]
    else if s[..|sep|] == sep then [""] + Split(s[|sep|..], sep)
    else
      var rest := Split(s[1..], sep);
      [[s[0]] + rest[0]] + rest[1..]
  }

  /** `s.split(sep)[-1]`. */
  function LastPiece(s: string, sep: string): string
    requires sep != ""
  {
    var pieces := Split(s, sep);
    pieces[|pieces| - 1]
  }

  /** `s.replace(c, "")` for a one-character `c`. */
  function RemoveChar(s: string, c: char): (r: string)
    ensures c !in r
    ensures |r| <= |s|
    ensures forall x :: x != c ==> multiset(r)[x] == multiset(s)[x]
  {
    if s == [] then ""
    else
      var rest := RemoveChar(s[1..], c);
      assert s == [s[0]] + s[1..];
      if s[0] == c then rest else [s[0]] + rest
  }

  /** Joining the pieces of a split with the same separator gives back the string. */
  lemma {:induction false} SplitJoin(s: string, sep: string)
    requires sep != ""
    ensures Join(Split(s, sep), sep) == s
    decreases |s|
  {
    if |s| < |sep| {
    } else if s[..|sep|] == sep {
      var rest := Split(s[|sep|..], sep);
      SplitJoin(s[|sep|..], sep);
      assert Split(s, sep) == [""] + rest;
      assert ([""] + rest)[1..] == rest;
      assert s == s[..|sep|] + s[|sep|..];
    } else {
      var rest := Split(s[1..], sep);
      SplitJoin(s[1..], sep);
      var r := [[s[0]] + rest[0]] + rest[1..];
      assert Split(s, sep) == r;
      if |rest| == 1 {
        assert Join(r, sep) == [s[0]] + rest[0];
      } else {
        assert r[1..] == rest[1..];
        assert Join(r, sep) == [s[0]] + rest[0] + sep + Join(rest[1..], sep);
        assert Join(rest, sep) == rest[0] + sep + Join(rest[1..], sep);
      }
      assert s == [s[0]] + s[1..];
    }
  }

  /** A string in which `sep` occurs splits into at least two pieces. */
  lemma {:induction false} SplitContains(s: string, sep: string)
    requires sep != "" && Contains(s, sep)
    ensures |Split(s, sep)| >= 2
    decreases |s|
  {
    if |s| < |sep| {
      assert !HasPrefix(s, sep);
      NotContainsShort(s[1..], sep);
    } else if s[..|sep|] == sep {
    } else {
      SplitContains(s[1..], sep);
    }
  }

  lemma {:induction false} NotContainsShort(s: string, t: string)
    requires |s| < |t|
    ensures !Contains(s, t)
    decreases |s|
  {
    if |s| > 0 {
      NotContainsShort(s[1..], t);
    }
  }

  /** No piece of a split on a single character holds that character. */
  lemma {:induction false} SplitCharPieces(s: string, c: char)
    ensures forall p :: p in Split(s, [c]) ==> c !in p
    decreases |s|
  {
    if |s| == 0 {
    } else if s[..1] == [c] {
      SplitCharPieces(s[1..], c);
    } else {
      SplitCharPieces(s[1..], c);
      var rest := Split(s[1..], [c]);
      assert s[0] != c by { assert s[..1] == [s[0]]; }
      assert Split(s, [c]) == [[s[0]] + rest[0]] + rest[1..];
      forall p | p in rest[1..] ensures c !in p {
        assert p in rest;
      }
    }
  }

  /** A string without the separator character splits into itself alone. */
  lemma {:induction false} SplitNoSep(s: string, c: char)
    requires c !in s
    ensures Split(s, [c]) == [s]
    decreases |s|
  {
    if |s| >= 1 {
      assert s[..1] != [c] by { assert s[..1][0] == s[0]; }
      SplitNoSep(s[1..], c);
      assert s == [s[0]] + s[1..];
    }
  }

  lemma {:induction false} SplitPrefixPiece(p: string, c: char, tail: string)
    requires c !in p
    ensures Split(p + [c] + tail, [c]) == [p] + Split(tail, [c])
    decreases |p|
  {
    var s := p + [c] + tail;
    if |p| == 0 {
      assert s[..1] == [c];
      assert s[1..] == tail;
    } else {
      assert s[..1] != [c] by { assert s[..1][0] == p[0]; }
      assert s[1..] == p[1..] + [c] + tail;
      SplitPrefixPiece(p[1..], c, tail);
      assert [s[0]] + p[1..] == p;
    }
  }

  /** An occurrence of `t` at any index of `s` makes `Contains(s, t)` true. */
  lemma {:induction false} ContainsAt(s: string, k: nat, t: string)
    requires k + |t| <= |s| && s[k..k + |t|] == t
    ensures Contains(s, t)
    decreases k
  {
    if k > 0 {
      assert s[1..][k - 1..k - 1 + |t|] == s[k..k + |t|];
      ContainsAt(s[1..], k - 1, t);
    }
  }

  /** A string holding `t` also holds every substring of `t`. */
  lemma {:induction false} ContainsInner(s: string, t: string, k: nat, u: string)
    requires Contains(s, t)
    requires k + |u| <= |t| && t[k..k + |u|] == u
    ensures Contains(s, u)
    decreases |s|
  {
    if HasPrefix(s, t) {
      assert s[k..k + |u|] == t[k..k + |u|];
      ContainsAt(s, k, u);
    } else {
      ContainsInner(s[1..], t, k, u);
    }
  }
}
