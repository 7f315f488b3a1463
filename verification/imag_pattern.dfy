/** The regular expression `parseComplex` uses to locate the imaginary part.

    The two drafts of the class differ only in the coefficient the pattern
    admits in front of the 'i':
      languages/jmath/Complex.java   [+-]?([0-9]+[.]?[0-9]*)?i
      Complex.java                   [+-]?([0-9]+)?i
    The coefficient is built from digits and '.' only, so a match starting at
    a given index runs over the digits and dots after the optional sign and
    must end at the 'i' that follows them: the match at an index, when there
    is one, is unique, and java.util.regex's backtracking has no choice to
    make. `MatchAt` computes that match; `Find` and `ReplaceAll` are
    Matcher.find() and String.replaceAll(pattern, "") built on it.
 */
module ImagPattern {
  import opened Wrappers
  import opened Decimal

  /** Which coefficient the pattern admits. */
  datatype Pattern =
    | DecimalCoefficient   // [0-9]+[.]?[0-9]*   (languages/jmath/Complex.java)
    | IntegerCoefficient   // [0-9]+             (Complex.java)

  /** The optional group of the pattern: empty, or a coefficient. */
  predicate IsCoefficient(pat: Pattern, t: string) {
    match pat
    case DecimalCoefficient => |t| == 0 || (IsDigit(t[0]) && IsUnsignedNumeral(t))
    case IntegerCoefficient =>
      AllDigits(t)
  }

  /** A text the whole pattern matches: an optional sign, a coefficient and
      a final 'i'. */
  predicate IsTerm(pat: Pattern, w: string) {
    && |w| >= 1 && w[|w| - 1] == 'i'
    && var body := w[..|w| - 1];
       if |body| > 0 && IsSign(body[0]) then IsCoefficient(pat, body[1..])
       else IsCoefficient(pat, body)
  }

  /** The end of the run of digits and dots that starts at q. */
  function RunEnd(s: string, q: nat): (r: nat)
    requires q <= |s|
    ensures q <= r <= |s|
    ensures forall j :: q <= j < r ==> IsNumberChar(s[j])
    ensures r < |s| ==> !IsNumberChar(s[r])
    decreases |s| - q
  {
    if q < |s| && IsNumberChar(s[q]) then RunEnd(s, q + 1) else q
  }

  /** The run end is determined by the characters: any k that ends a run of
      digits and dots starting at q is RunEnd(s, q). */
  lemma {:induction false} RunEndIs(s: string, q: nat, k: nat)
    requires q <= k <= |s|
    requires forall j :: q <= j < k ==> IsNumberChar(s[j])
    requires k == |s| || !IsNumberChar(s[k])
    ensures RunEnd(s, q) == k
  {
  }

  /** The index after the optional sign of a match starting at p. */
  function AfterSign(s: string, p: nat): (q: nat)
    requires p <= |s|
    ensures q == p || (q == p + 1 && p < |s| && IsSign(s[p]))
    ensures q <= |s|
  {
    if p < |s| && IsSign(s[p]) then p + 1 else p
  }

  /** The end (exclusive) of the match starting at p, or None when the
      pattern does not match there. */
  function MatchAt(pat: Pattern, s: string, p: nat): (r: Option<nat>)
    requires p <= |s|
    ensures r.Some? ==> p < r.value <= |s| && s[r.value - 1] == 'i'
  {
    var q := AfterSign(s, p);
    var e := RunEnd(s, q);
    if e < |s| && s[e] == 'i' && IsCoefficient(pat, s[q..e]) then Some(e + 1) else None
  }

  /** Every coefficient is made of digits and dots. */
  lemma {:induction false} CoefficientChars(pat: Pattern, t: string)
    requires IsCoefficient(pat, t)
    ensures forall j :: 0 <= j < |t| ==> IsNumberChar(t[j])
  {
  }

  /** MatchAt finds exactly the terms: it answers e at p if and only if
      s[p..e] is a term. */
  lemma {:induction false} MatchAtIsTerm(pat: Pattern, s: string, p: nat, e: nat)
    requires p < e <= |s|
    ensures MatchAt(pat, s, p) == Some(e) <==> IsTerm(pat, s[p..e])
  {
    if MatchAt(pat, s, p) == Some(e) {
      MatchIsTerm(pat, s, p, e);
    }
    if IsTerm(pat, s[p..e]) {
      TermIsMatch(pat, s, p, e);
    }
  }

  lemma {:induction false} MatchIsTerm(pat: Pattern, s: string, p: nat, e: nat)
    requires p < e <= |s| && MatchAt(pat, s, p) == Some(e)
    ensures IsTerm(pat, s[p..e])
  {
    var w := s[p..e];
    var q := AfterSign(s, p);
    var k := RunEnd(s, q);
    assert k + 1 == e && s[k] == 'i' && IsCoefficient(pat, s[q..k]);
    assert w[|w| - 1] == 'i';
    var body := w[..|w| - 1];
    assert body == s[p..k];
    if q == p + 1 {
      assert body[0] == s[p] && body[1..] == s[q..k];
    } else {
      assert body == s[q..k];
      if |body| > 0 {
        assert body[0] == s[p] && !IsSign(s[p]);
      }
    }
  }

  lemma {:induction false} TermIsMatch(pat: Pattern, s: string, p: nat, e: nat)
    requires p < e <= |s| && IsTerm(pat, s[p..e])
    ensures MatchAt(pat, s, p) == Some(e)
  {
    var w := s[p..e];
    var body := w[..|w| - 1];
    var q := AfterSign(s, p);
    assert body == s[p..e - 1];
    assert s[e - 1] == 'i';
    if |body| > 0 && IsSign(body[0]) {
      assert s[p] == body[0];
      assert q == p + 1;
      var c := body[1..];
      assert c == s[q..e - 1];
      CoefficientChars(pat, c);
      assert forall j :: q <= j < e - 1 ==> IsNumberChar(s[j]) by {
        assert forall j :: q <= j < e - 1 ==> s[j] == c[j - q];
      }
      RunEndIs(s, q, e - 1);
    } else {
      CoefficientChars(pat, body);
      if |body| > 0 {
        assert s[p] == body[0];
      }
      assert q == p;
      assert forall j :: q <= j < e - 1 ==> IsNumberChar(s[j]) by {
        assert forall j :: q <= j < e - 1 ==> s[j] == body[j - q];
      }
      RunEndIs(s, q, e - 1);
    }
  }

  /** A lone 'i' is always a match: the sign and the coefficient are
      optional. */
  lemma {:induction false} BareI(pat: Pattern, s: string, q: nat)
    requires q < |s| && s[q] == 'i'
    ensures MatchAt(pat, s, q) == Some(q + 1)
  {
    assert AfterSign(s, q) == q;
    RunEndIs(s, q, q);
    assert s[q..q] == "";
  }

  /** Matcher.find() from index `from`: the leftmost index at or after
      `from` where the pattern matches, with the end of that match. */
  function Find(pat: Pattern, s: string, from: nat): (r: Option<(nat, nat)>)
    requires from <= |s|
    ensures r.Some? ==> from <= r.value.0 <= |s| && MatchAt(pat, s, r.value.0) == Some(r.value.1)
    ensures r.Some? ==> forall b :: from <= b < r.value.0 ==> MatchAt(pat, s, b).None?
    ensures r.None? ==> forall b :: from <= b <= |s| ==> MatchAt(pat, s, b).None?
    decreases |s| - from
  {
    match MatchAt(pat, s, from)
    case Some(e) => Some((from, e))
    case None => if from == |s| then None else Find(pat, s, from + 1)
  }

  /** The leftmost match is determined by where the pattern matches: no
      match in [from, b) and a match at b make (b, e) the answer of Find. */
  lemma {:induction false} FindIs(pat: Pattern, s: string, from: nat, b: nat, e: nat)
    requires from <= b <= |s|
    requires forall k :: from <= k < b ==> MatchAt(pat, s, k).None?
    requires MatchAt(pat, s, b) == Some(e)
    ensures Find(pat, s, from) == Some((b, e))
  {
  }

  /** Where the pattern matches nowhere at or after `from`, Find answers
      None. */
  lemma {:induction false} FindNone(pat: Pattern, s: string, from: nat)
    requires from <= |s|
    requires forall k :: from <= k <= |s| ==> MatchAt(pat, s, k).None?
    ensures Find(pat, s, from) == None
  {
  }

  /** No 'i' occurs in s. */
  predicate NoI(s: string) {
    forall k :: 0 <= k < |s| ==> s[k] != 'i'
  }

  /** String.replaceAll(pattern, "") on s[from..]: the text between the
      successive leftmost matches, each search resuming at the end of the
      previous match. Every 'i' belongs to some match, so none survives;
      text without an 'i' has no match and is returned unchanged. */
  function ReplaceAll(pat: Pattern, s: string, from: nat): (r: string)
    requires from <= |s|
    ensures NoI(r) && |r| <= |s| - from
    ensures NoI(s[from..]) ==> r == s[from..]
    decreases |s| - from
  {
    match Find(pat, s, from)
    case None =>
      assert NoI(s[from..]) by {
        forall k | from <= k < |s|
          ensures s[k] != 'i'
        {
          if s[k] == 'i' {
            BareI(pat, s, k);
          }
        }
      }
      s[from..]
    case Some((b, e)) =>
      assert NoI(s[from..b]) by {
        forall k | from <= k < b
          ensures s[k] != 'i'
        {
          if s[k] == 'i' {
            BareI(pat, s, k);
          }
        }
      }
      assert !NoI(s[from..]) by {
        assert s[from..][e - 1 - from] == s[e - 1] == 'i';
      }
      s[from..b] + ReplaceAll(pat, s, e)
  }

  /** A replaceAll over the whole text, where the first match is (b, e) and
      nothing matches after it, keeps what lies around that match. */
  lemma {:induction false} ReplaceOnce(pat: Pattern, s: string, b: nat, e: nat)
    requires b < e <= |s|
    requires Find(pat, s, 0) == Some((b, e))
    requires Find(pat, s, e) == None
    ensures ReplaceAll(pat, s, 0) == s[..b] + s[e..]
  {
  }

  /** A replaceAll over the whole text, where the first match runs to the
      end, keeps what lies before that match. */
  lemma {:induction false} ReplaceLast(pat: Pattern, s: string, b: nat)
    requires b < |s| && Find(pat, s, 0) == Some((b, |s|))
    ensures ReplaceAll(pat, s, 0) == s[..b]
  {
    assert MatchAt(pat, s, |s|).None? by {
      assert RunEnd(s, |s|) == |s|;
    }
    assert Find(pat, s, |s|) == None;
    ReplaceOnce(pat, s, b, |s|);
    assert s[..b] + s[|s|..] == s[..b];
  }

  // ---- replaceAll over a concatenation ----

  /** A text that ends in 'i' closes every match that starts inside it, so
      replaceAll treats the text after it separately: the real text of t + u
      is the real text of t followed by the real text of u. With ReplaceOnce
      this says that every match is removed, one after another. */
  lemma {:induction false} ReplaceAllAppend(pat: Pattern, t: string, u: string)
    requires |t| > 0 && t[|t| - 1] == 'i'
    ensures ReplaceAll(pat, t + u, 0) == ReplaceAll(pat, t, 0) + ReplaceAll(pat, u, 0)
  {
    var s := t + u;
    assert PrefixAt(s, t) && SuffixAt(s, |t|, u);
    ReplacePrefix(pat, s, t, 0);
    ReplaceShift(pat, s, |t|, u, 0, |t|);
  }

  /** t is what s holds before index |t|. */
  predicate PrefixAt(s: string, t: string) {
    |t| <= |s| && s[..|t|] == t
  }

  /** Inside t, replaceAll on s removes what it removes on t, and then
      carries on from the end of t. */
  lemma {:induction false} ReplacePrefix(pat: Pattern, s: string, t: string, from: nat)
    requires PrefixAt(s, t) && |t| > 0 && t[|t| - 1] == 'i' && from <= |t|
    ensures ReplaceAll(pat, s, from) == ReplaceAll(pat, t, from) + ReplaceAll(pat, s, |t|)
    decreases |t| - from
  {
    if from == |t| {
      assert ReplaceAll(pat, t, from) == "" by {
        assert MatchAt(pat, t, from).None? by {
          assert RunEnd(t, from) == from;
        }
        ReplaceDone(pat, t, from);
      }
      assert "" + ReplaceAll(pat, s, from) == ReplaceAll(pat, s, from);
    } else {
      var b, e := FindPrefix(pat, s, t, from);
      PrefixStep(pat, s, t, from, b, e);
      ReplacePrefix(pat, s, t, e);
      Regroup(t[from..b], ReplaceAll(pat, t, e), ReplaceAll(pat, s, |t|));
    }
  }

  /** The step of replaceAll inside t is the same on t and on s. */
  lemma {:induction false} PrefixStep(pat: Pattern, s: string, t: string, from: nat, b: nat, e: nat)
    requires PrefixAt(s, t) && from <= |t| && Find(pat, t, from) == Some((b, e))
    requires Find(pat, s, from) == Some((b, e))
    ensures from < e <= |t|
    ensures ReplaceAll(pat, s, from) == t[from..b] + ReplaceAll(pat, s, e)
    ensures ReplaceAll(pat, t, from) == t[from..b] + ReplaceAll(pat, t, e)
  {
    ReplaceStep(pat, t, from, b, e);
    PrefixSlice(s, t, from, b);
    ReplaceStep(pat, s, from, b, e);
  }

  /** Where t is s before index |t|, the slices of t are those of s. */
  lemma {:induction false} PrefixSlice(s: string, t: string, i: nat, j: nat)
    requires PrefixAt(s, t) && i <= j <= |t|
    ensures s[i..j] == t[i..j]
  {
    assert s[..|t|][i..j] == s[i..j];
  }

  /** Before the end of t, there is a match in t (the final 'i' of t matches
      on its own), and the leftmost match in s is the leftmost match in t. */
  lemma {:induction false} FindPrefix(pat: Pattern, s: string, t: string, from: nat) returns (b: nat, e: nat)
    requires PrefixAt(s, t) && |t| > 0 && t[|t| - 1] == 'i' && from < |t|
    ensures Find(pat, t, from) == Some((b, e))
    ensures Find(pat, s, from) == Some((b, e))
  {
    BareI(pat, t, |t| - 1);
    assert Find(pat, t, from).Some?;
    b, e := Find(pat, t, from).value.0, Find(pat, t, from).value.1;
    FindPrefixSome(pat, s, t, from, b, e);
  }

  lemma {:induction false} FindPrefixSome(pat: Pattern, s: string, t: string, from: nat, b: nat, e: nat)
    requires PrefixAt(s, t) && |t| > 0 && t[|t| - 1] == 'i' && from <= |t|
    requires Find(pat, t, from) == Some((b, e))
    ensures Find(pat, s, from) == Some((b, e))
  {
    forall p | from <= p <= b
      ensures MatchAt(pat, s, p) == MatchAt(pat, t, p)
    {
      MatchAtPrefix(pat, s, t, p);
    }
    FindIs(pat, s, from, b, e);
  }

  /** A match starting inside t ends inside t, and is the same in s. */
  lemma {:induction false} MatchAtPrefix(pat: Pattern, s: string, t: string, p: nat)
    requires PrefixAt(s, t) && |t| > 0 && t[|t| - 1] == 'i' && p < |t|
    ensures MatchAt(pat, s, p) == MatchAt(pat, t, p)
  {
    var n := |t|;
    assert forall j :: 0 <= j < n ==> s[j] == t[j] by {
      assert forall j :: 0 <= j < n ==> s[..n][j] == s[j];
    }
    var q := AfterSign(t, p);
    assert AfterSign(s, p) == q;
    assert q < n;
    var k := RunEnd(t, q);
    assert k < n;
    RunEndIs(s, q, k);
    assert s[q..k] == t[q..k];
  }

  /** u is what s holds from index n on. */
  predicate SuffixAt(s: string, n: nat, u: string) {
    n <= |s| && s[n..] == u
  }

  /** From index n on, replaceAll on s is replaceAll on the suffix u. */
  lemma {:induction false} ReplaceShift(pat: Pattern, s: string, n: nat, u: string, k: nat, m: nat)
    requires SuffixAt(s, n, u) && k <= |u| && m == n + k
    ensures ReplaceAll(pat, s, m) == ReplaceAll(pat, u, k)
    decreases |u| - k
  {
    if Find(pat, u, k).None? {
      ShiftDone(pat, s, n, u, k, m);
    } else {
      var b, e := Find(pat, u, k).value.0, Find(pat, u, k).value.1;
      var mb, me := n + b, n + e;
      ShiftStep(pat, s, n, u, k, b, e, m, mb, me);
      ReplaceShift(pat, s, n, u, e, me);
    }
  }

  /** Where u has no match left, neither has s, and both keep the rest. */
  lemma {:induction false} ShiftDone(pat: Pattern, s: string, n: nat, u: string, k: nat, m: nat)
    requires SuffixAt(s, n, u) && k <= |u| && m == n + k && Find(pat, u, k).None?
    ensures ReplaceAll(pat, s, m) == ReplaceAll(pat, u, k)
  {
    assert ReplaceAll(pat, s, m) == s[m..] by {
      FindShiftNone(pat, s, n, u, k, m);
      ReplaceDone(pat, s, m);
    }
    assert ReplaceAll(pat, u, k) == u[k..] by {
      ReplaceDone(pat, u, k);
    }
    SuffixSlices(s, n, u, k, |u|, m, |s|);
  }

  /** The step of replaceAll on s at m = n + k mirrors the step on u at k:
      both keep the same text before the match and resume after it. */
  lemma {:induction false} ShiftStep(pat: Pattern, s: string, n: nat, u: string, k: nat, b: nat, e: nat, m: nat, mb: nat, me: nat)
    requires SuffixAt(s, n, u) && k <= |u| && Find(pat, u, k) == Some((b, e))
    requires m == n + k && mb == n + b && me == n + e
    ensures k < e <= |u|
    ensures ReplaceAll(pat, s, m) == s[m..mb] + ReplaceAll(pat, s, me)
    ensures ReplaceAll(pat, u, k) == s[m..mb] + ReplaceAll(pat, u, e)
  {
    assert ReplaceAll(pat, s, m) == s[m..mb] + ReplaceAll(pat, s, me) by {
      FindShiftSome(pat, s, n, u, k, b, e, m, mb, me);
      ReplaceStep(pat, s, m, mb, me);
    }
    assert ReplaceAll(pat, u, k) == u[k..b] + ReplaceAll(pat, u, e) by {
      ReplaceStep(pat, u, k, b, e);
    }
    SuffixSlices(s, n, u, k, b, m, mb);
  }

  /** Where u is s from n on, the slice [i, j) of u is the slice
      [mi, mj) = [n + i, n + j) of s. */
  lemma {:induction false} SuffixSlices(s: string, n: nat, u: string, i: nat, j: nat, mi: nat, mj: nat)
    requires SuffixAt(s, n, u) && i <= j <= |u| && mi == n + i && mj == n + j
    ensures s[mi..mj] == u[i..j]
    ensures j == |u| ==> s[mi..] == u[i..]
  {
    assert s[n..][i..j] == s[mi..mj];
    assert s[n..][i..] == s[mi..];
  }

  /** One step of replaceAll: the text before the leftmost match (b, e),
      then the rest after it. */
  lemma {:induction false} ReplaceStep(pat: Pattern, s: string, from: nat, b: nat, e: nat)
    requires from <= |s| && Find(pat, s, from) == Some((b, e))
    ensures from <= b <= e <= |s|
    ensures ReplaceAll(pat, s, from) == s[from..b] + ReplaceAll(pat, s, e)
  {
  }

  /** replaceAll where nothing matches any more keeps the rest. */
  lemma {:induction false} ReplaceDone(pat: Pattern, s: string, from: nat)
    requires from <= |s| && Find(pat, s, from) == None
    ensures ReplaceAll(pat, s, from) == s[from..]
  {
  }

  /** Where the suffix u has no match at or after k, s has none at or after
      n + k. */
  lemma {:induction false} FindShiftNone(pat: Pattern, s: string, n: nat, u: string, k: nat, m: nat)
    requires SuffixAt(s, n, u) && k <= |u| && m == n + k && Find(pat, u, k).None?
    ensures Find(pat, s, m).None?
  {
    NoMatchShift(pat, s, n, u, k, |u| + 1, m, |s| + 1);
    FindNone(pat, s, m);
  }

  /** From index n on, the leftmost match in s is the leftmost match in the
      suffix u, moved right by n. */
  lemma {:induction false} FindShiftSome(pat: Pattern, s: string, n: nat, u: string, k: nat, b: nat, e: nat, m: nat, mb: nat, me: nat)
    requires SuffixAt(s, n, u) && k <= |u| && Find(pat, u, k) == Some((b, e))
    requires m == n + k && mb == n + b && me == n + e
    ensures Find(pat, s, m) == Some((mb, me))
  {
    assert forall p :: m <= p < mb ==> MatchAt(pat, s, p).None? by {
      NoMatchShift(pat, s, n, u, k, b, m, mb);
    }
    assert MatchAt(pat, s, mb) == Some(me) by {
      MatchAtShift(pat, s, n, u, b, mb);
    }
    FindIs(pat, s, m, mb, me);
  }

  /** Where the suffix u has no match in [lo, hi), s has none in
      [mlo, mhi) = [n + lo, n + hi). */
  lemma {:induction false} NoMatchShift(pat: Pattern, s: string, n: nat, u: string, lo: nat, hi: nat, mlo: nat, mhi: nat)
    requires SuffixAt(s, n, u) && lo <= hi <= |u| + 1 && mlo == n + lo && mhi == n + hi
    requires forall j :: lo <= j < hi ==> MatchAt(pat, u, j).None?
    ensures forall p :: mlo <= p < mhi ==> MatchAt(pat, s, p).None?
  {
    forall p | mlo <= p < mhi
      ensures MatchAt(pat, s, p).None?
    {
      MatchAtShift(pat, s, n, u, p - n, p);
    }
  }

  /** A match only looks forward, so a match in the suffix u is the same
      match in s, moved right by n. */
  lemma {:induction false} MatchAtShift(pat: Pattern, s: string, n: nat, u: string, k: nat, mk: nat)
    requires SuffixAt(s, n, u) && k <= |u| && mk == n + k
    ensures MatchAt(pat, u, k).None? ==> MatchAt(pat, s, mk).None?
    ensures MatchAt(pat, u, k).Some? ==> MatchAt(pat, s, mk) == Some(n + MatchAt(pat, u, k).value)
  {
    var q := AfterSign(u, k);
    var mq := n + q;
    assert AfterSign(s, mk) == mq by {
      if k < |u| {
        assert s[mk] == u[k] by { SuffixChar(s, n, u, k, mk); }
      }
    }
    var e := RunEnd(u, q);
    var me := n + e;
    RunShift(s, n, u, q, mq);
    if e < |u| {
      SuffixChar(s, n, u, e, me);
    }
  }

  /** The character of u at j is the character of s at mj = n + j. */
  lemma {:induction false} SuffixChar(s: string, n: nat, u: string, j: nat, mj: nat)
    requires SuffixAt(s, n, u) && j < |u| && mj == n + j
    ensures mj < |s| && s[mj] == u[j]
  {
    assert s[n..][j] == s[mj];
  }

  /** The run of digits and dots at q in u is the run at mq = n + q in s. */
  lemma {:induction false} RunShift(s: string, n: nat, u: string, q: nat, mq: nat)
    requires SuffixAt(s, n, u) && q <= |u| && mq == n + q
    ensures mq <= |s| && RunEnd(s, mq) == n + RunEnd(u, q)
    ensures s[mq..n + RunEnd(u, q)] == u[q..RunEnd(u, q)]
  {
    var e := RunEnd(u, q);
    var me := n + e;
    SuffixSlices(s, n, u, q, e, mq, me);
    assert forall j :: mq <= j < me ==> IsNumberChar(s[j]) by {
      assert forall j :: mq <= j < me ==> s[j] == u[q..e][j - mq];
    }
    if e < |u| {
      SuffixChar(s, n, u, e, me);
    }
    RunEndIs(s, mq, me);
  }

  lemma {:induction false} Regroup(x: string, y: string, z: string)
    ensures (x + y) + z == x + (y + z)
  {
  }

  /** String.replace of every occurrence of c by nothing. */
  function Without(w: string, c: char): (r: string)
    ensures forall k :: 0 <= k < |r| ==> r[k] != c
    ensures (forall k :: 0 <= k < |w| ==> w[k] != c) ==> r == w
    ensures |r| <= |w|
  {
    if |w| == 0 then ""
    else
      assert w == w[..|w| - 1] + [w[|w| - 1]];
      Without(w[..|w| - 1], c) + (if w[|w| - 1] == c then "" else [w[|w| - 1]])
  }

  /** Removing the 'i' from a term leaves the sign and the coefficient. */
  lemma {:induction false} WithoutFinalI(pat: Pattern, w: string)
    requires IsTerm(pat, w)
    ensures Without(w, 'i') == w[..|w| - 1]
  {
    var body := w[..|w| - 1];
    assert forall k :: 0 <= k < |body| ==> body[k] != 'i' by {
      if |body| > 0 && IsSign(body[0]) {
        CoefficientChars(pat, body[1..]);
        assert forall k :: 1 <= k < |body| ==> body[k] == body[1..][k - 1];
      } else {
        CoefficientChars(pat, body);
      }
    }
    assert w[..|w| - 1] == body;
  }
}
