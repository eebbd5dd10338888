/**
 * The string operations the stores use: `String.prototype.trim`, `split(' ')` and
 * `join(sep)`. Strings are sequences of Unicode scalar values; the UTF-16 encoding of
 * JavaScript strings plays no part in these operations as used here.
 */
module Text {

  /**
   * The code points `trim` strips: the WhiteSpace and LineTerminator productions of
   * ECMAScript (tab, vertical tab, form feed, space, no-break space, byte-order mark,
   * the Unicode space separators, line feed, carriage return, line and paragraph separator).
   */
  predicate IsWhitespace(c: char) {
    || c == '\t' || c == '\n' || c == '\U{000B}' || c == '\U{000C}' || c == '\r'
    || c == ' ' || c == '\U{00A0}' || c == '\U{1680}'
    || ('\U{2000}' <= c <= '\U{200A}')
    || c == '\U{2028}' || c == '\U{2029}' || c == '\U{202F}' || c == '\U{205F}'
    || c == '\U{3000}' || c == '\U{FEFF}'
  }

  ghost predicate AllWhitespace(s: string) {
    forall i :: 0 <= i < |s| ==> IsWhitespace(s[i])
  }

  /** Drops leading whitespace: the result is the suffix of `s` that starts at its first non-blank. */
  function TrimStart(s: string): (r: string)
    ensures |r| <= |s| && r == s[|s| - |r|..]
    ensures AllWhitespace(s[..|s| - |r|])
    ensures r == [] || !IsWhitespace(r[0])
  {
    if |s| > 0 && IsWhitespace(s[0]) then
      var r := TrimStart(s[1..]);
      assert s[..|s| - |r|] == [s[0]] + s[1..][..|s| - 1 - |r|];
      r
    else s
  }

  /** Drops trailing whitespace: the result is the prefix of `s` that ends at its last non-blank. */
  function TrimEnd(s: string): (r: string)
    ensures |r| <= |s| && r == s[..|r|]
    ensures AllWhitespace(s[|r|..])
    ensures r == [] || !IsWhitespace(r[|r| - 1])
  {
    if |s| > 0 && IsWhitespace(s[|s| - 1]) then
      var r := TrimEnd(s[..|s| - 1]);
      assert s[|r|..] == s[..|s| - 1][|r|..] + [s[|s| - 1]];
      r
    else s
  }

  /**
   * `String.prototype.trim`: strips whitespace at both ends; the result is empty exactly
   * when `s` is all whitespace (`TrimIsInfix` says which part of `s` it is).
   */
  function Trim(s: string): (r: string)
    ensures r == [] || (!IsWhitespace(r[0]) && !IsWhitespace(r[|r| - 1]))
    ensures r == [] <==> AllWhitespace(s)
  {
    var t := TrimStart(s);
    var r := TrimEnd(t);
    assert t != [] ==> t[0] == s[|s| - |t|];
    assert r == [] ==> t[|r|..] == t;
    assert t == [] ==> s[..|s| - |t|] == s;
    r
  }

  lemma TrimIsInfix(s: string) returns (k: nat, r: string)
    ensures r == Trim(s)
    ensures k + |r| <= |s| && r == s[k..k + |r|]
    ensures AllWhitespace(s[..k]) && AllWhitespace(s[k + |r|..])
  {
    var t := TrimStart(s);
    r := TrimEnd(t);
    k := |s| - |t|;
    InfixOfSuffix(s, t, r, k);
  }

  /** A blank-trimmed prefix `r` of a blank-trimmed suffix `t` of `s` sits between two blank runs of `s`. */
  lemma InfixOfSuffix(s: string, t: string, r: string, k: nat)
    requires k + |t| == |s| && t == s[k..] && AllWhitespace(s[..k])
    requires |r| <= |t| && r == t[..|r|] && AllWhitespace(t[|r|..])
    ensures k + |r| <= |s| && r == s[k..k + |r|] && AllWhitespace(s[k + |r|..])
  {
    assert s[k + |r|..] == t[|r|..];
  }

  /** Trimming twice is trimming once. */
  lemma TrimIdempotent(s: string)
    ensures Trim(Trim(s)) == Trim(s)
  {
    var r := Trim(s);
    assert TrimStart(r) == r;
    assert TrimEnd(r) == r;
  }

  /**
   * `s.split(sep)` for a one-character separator: the maximal pieces between separators,
   * so there is always one more piece than there are separators.
   */
  function Split(s: string, sep: char): (r: seq<string>)
    ensures |r| == multiset(s)[sep] + 1
    ensures forall i :: 0 <= i < |r| ==> sep !in r[i]
  {
    if |s| == 0 then [""]
    else
      assert s == [s[0]] + s[1..];
      var rest := Split(s[1..], sep);
      if s[0] == sep then [""] + rest
      else [[s[0]] + rest[0]] + rest[1..]
  }

  /** `xs.join(sep)`. */
  function Join(xs: seq<string>, sep: string): string {
    if |xs| == 0 then ""
    else if |xs| == 1 then xs[0]
    else xs[0] + sep + Join(xs[1..], sep)
  }

  /** A join opens with the first piece and closes with the last; nothing joins to "". */
  lemma {:induction false} JoinEnds(xs: seq<string>, sep: string)
    ensures |xs| == 0 ==> Join(xs, sep) == ""
    ensures |xs| > 0 ==> xs[0] <= Join(xs, sep)
    ensures |xs| > 0 ==> var r := Join(xs, sep); |xs[|xs| - 1]| <= |r| && r[|r| - |xs[|xs| - 1]|..] == xs[|xs| - 1]
  {
    if |xs| > 1 {
      JoinEnds(xs[1..], sep);
      var r := Join(xs, sep);
      var t := Join(xs[1..], sep);
      assert r == xs[0] + sep + t;
      assert xs[1..][|xs[1..]| - 1] == xs[|xs| - 1];
      assert r[|r| - |t|..] == t;
    }
  }

  /** A join is empty exactly when there is nothing to join but at most one empty piece. */
  lemma {:induction false} JoinEmpty(xs: seq<string>, sep: char)
    ensures Join(xs, [sep]) == "" <==> |xs| == 0 || xs == [""]
  {
    if |xs| >= 2 {
      assert Join(xs, [sep]) == xs[0] + [sep] + Join(xs[1..], [sep]);
      assert xs != [""];
    } else if |xs| == 1 {
      assert xs == [xs[0]];
    }
  }

  /** Splitting a piece that holds no separator, glued to more text, peels it off. */
  lemma SplitPrefix(a: string, sep: char, rest: string)
    requires sep !in a
    ensures Split(a + [sep] + rest, sep) == [a] + Split(rest, sep)
  {
    var s := a + [sep] + rest;
    assert s[..|a|] == a && s[|a| + 1..] == rest;
    SplitAtHead(s, sep, |a|);
    SplitAtTail(s, sep, |a|);
    var r := Split(s, sep);
    assert r == [r[0]] + r[1..];
  }

  /** The first separator, at index `k`, ends the first piece of a split. */
  lemma {:induction false} SplitAtHead(s: string, sep: char, k: nat)
    requires k < |s| && s[k] == sep
    requires forall j :: 0 <= j < k ==> s[j] != sep
    ensures Split(s, sep)[0] == s[..k]
  {
    if k > 0 {
      var t := s[1..];
      assert t[k - 1] == sep;
      SplitAtHead(t, sep, k - 1);
      SplitStep(s, sep);
      assert [s[0]] + t[..k - 1] == s[..k];
    }
  }

  /** After the first separator, at index `k`, the pieces are those of the text that follows it. */
  lemma {:induction false} SplitAtTail(s: string, sep: char, k: nat)
    requires k < |s| && s[k] == sep
    requires forall j :: 0 <= j < k ==> s[j] != sep
    ensures Split(s, sep)[1..] == Split(s[k + 1..], sep)
  {
    if k > 0 {
      var t := s[1..];
      assert t[k - 1] == sep && t[k..] == s[k + 1..];
      SplitAtTail(t, sep, k - 1);
      SplitStep(s, sep);
    }
  }

  /** A first character that is not the separator joins the first piece. */
  lemma SplitStep(s: string, sep: char)
    requires |s| > 0 && s[0] != sep
    ensures Split(s, sep)[0] == [s[0]] + Split(s[1..], sep)[0]
    ensures Split(s, sep)[1..] == Split(s[1..], sep)[1..]
  {
  }

  /** A piece without separators splits into itself. */
  lemma {:induction false} SplitNoSep(a: string, sep: char)
    requires sep !in a
    ensures Split(a, sep) == [a]
  {
    if |a| > 0 {
      SplitNoSep(a[1..], sep);
      assert [a[0]] + a[1..] == a;
    }
  }

  /** `split` undoes `join` when no piece contains the separator. */
  lemma {:induction false} SplitJoin(xs: seq<string>, sep: char)
    requires |xs| > 0
    requires forall i :: 0 <= i < |xs| ==> sep !in xs[i]
    ensures Split(Join(xs, [sep]), sep) == xs
  {
    if |xs| == 1 {
      SplitNoSep(xs[0], sep);
    } else {
      SplitJoin(xs[1..], sep);
      SplitPrefix(xs[0], sep, Join(xs[1..], [sep]));
      assert [xs[0]] + xs[1..] == xs;
    }
  }
}
