/** The token stream of a java.util.Scanner over one line.

    A Scanner with the default delimiter splits its input at runs of
    characters for which Character.isWhitespace holds; `next()` skips the
    delimiters and returns the following run of other characters, and
    `hasNext()` says whether such a run is left. `Tokens` is the whole
    sequence of what `next()` would return, in order.
 */
module Tokenizer {

  /** Character.isWhitespace: the ASCII separators and controls U+0009 to
      U+000D and U+001C to U+001F, the space, and the Unicode space, line
      and paragraph separators other than the no-break spaces U+00A0,
      U+2007 and U+202F. */
  predicate IsWhitespace(c: char) {
    || c == ' '
    || '\U{9}' <= c <= '\U{D}'
    || '\U{1C}' <= c <= '\U{1F}'
    || c == '\U{1680}'
    || '\U{2000}' <= c <= '\U{2006}'
    || '\U{2008}' <= c <= '\U{200A}'
    || c == '\U{2028}' || c == '\U{2029}' || c == '\U{205F}' || c == '\U{3000}'
  }

  /** A token: a nonempty run of characters none of which is whitespace. */
  predicate IsToken(t: string) {
    |t| > 0 && forall k :: 0 <= k < |t| ==> !IsWhitespace(t[k])
  }

  /** The end of the run of non-whitespace characters that starts at i. */
  function WordEnd(s: string, i: nat): (k: nat)
    requires i <= |s|
    ensures i <= k <= |s|
    ensures forall j :: i <= j < k ==> !IsWhitespace(s[j])
    ensures k < |s| ==> IsWhitespace(s[k])
    decreases |s| - i
  {
    if i < |s| && !IsWhitespace(s[i]) then WordEnd(s, i + 1) else i
  }

  /** The tokens of s, in order. */
  function Tokens(s: string): (r: seq<string>)
    ensures forall k :: 0 <= k < |r| ==> IsToken(r[k])
    decreases |s|
  {
    if |s| == 0 then []
    else if IsWhitespace(s[0]) then Tokens(s[1..])
    else
      var k := WordEnd(s, 0);
      assert IsToken(s[..k]) by {
        assert forall j :: 0 <= j < k ==> s[..k][j] == s[j];
      }
      [s[..k]] + Tokens(s[k..])
  }

  /** The tokens written one after another with `sep` between them. */
  function Join(ts: seq<string>, sep: string): string {
    if |ts| == 0 then ""
    else if |ts| == 1 then ts[0]
    else ts[0] + sep + Join(ts[1..], sep)
  }

  /** A separator: a nonempty run of whitespace. */
  predicate IsSeparator(sep: string) {
    |sep| > 0 && forall k :: 0 <= k < |sep| ==> IsWhitespace(sep[k])
  }

  /** Leading whitespace is skipped. */
  lemma {:induction false} SkipSeparator(sep: string, s: string)
    requires forall k :: 0 <= k < |sep| ==> IsWhitespace(sep[k])
    ensures Tokens(sep + s) == Tokens(s)
    decreases |sep|
  {
    if |sep| > 0 {
      assert (sep + s)[1..] == sep[1..] + s;
      SkipSeparator(sep[1..], s);
    } else {
      assert sep + s == s;
    }
  }

  /** A token followed by a separator or by nothing is read whole. */
  lemma {:induction false} FirstToken(t: string, rest: string)
    requires IsToken(t) && (rest == "" || IsWhitespace(rest[0]))
    ensures Tokens(t + rest) == [t] + Tokens(rest)
  {
    var s := t + rest;
    WordEndIs(s, 0, |t|);
    assert s[..|t|] == t && s[|t|..] == rest;
  }

  /** The run end is determined by the characters. */
  lemma {:induction false} WordEndIs(s: string, i: nat, k: nat)
    requires i <= k <= |s|
    requires forall j :: i <= j < k ==> !IsWhitespace(s[j])
    requires k == |s| || IsWhitespace(s[k])
    ensures WordEnd(s, i) == k
    decreases k - i
  {
    if i < k {
      WordEndIs(s, i + 1, k);
    }
  }

  /** Splitting undoes joining: tokens written with whitespace separators
      between them are read back one by one, in order. */
  lemma {:induction false} TokensOfJoin(ts: seq<string>, sep: string)
    requires forall k :: 0 <= k < |ts| ==> IsToken(ts[k])
    requires IsSeparator(sep)
    ensures Tokens(Join(ts, sep)) == ts
    decreases |ts|
  {
    if |ts| == 1 {
      FirstToken(ts[0], "");
      assert ts[0] + "" == ts[0];
    } else if |ts| > 1 {
      var rest := Join(ts[1..], sep);
      assert Join(ts, sep) == ts[0] + (sep + rest);
      FirstToken(ts[0], sep + rest);
      SkipSeparator(sep, rest);
      TokensOfJoin(ts[1..], sep);
      assert ts == [ts[0]] + ts[1..];
    }
  }
}
