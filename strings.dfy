/**
 * The parts of Go's `strings` package the credential parsers use:
 * `HasPrefix`, `TrimPrefix` and `TrimSpace` (with `unicode.IsSpace`).
 * Strings are sequences of Unicode scalar values, so this models Go's
 * byte strings only when they hold valid UTF-8.
 */
module Strings {

  /**
   * `unicode.IsSpace`: ASCII and Latin-1 spaces plus the White_Space
   * property. In the Latin-1 range these are tab through carriage return,
   * the space, NEL and the no-break space.
   */
  predicate IsSpace(c: char): (b: bool)
    ensures c <= '\U{FF}' ==> (b <==> ('\t' <= c <= '\r' || c == ' ' || c == '\U{85}' || c == '\U{A0}'))
  {
    || c == '\t' || c == '\n' || c == '\U{B}' || c == '\U{C}' || c == '\r' || c == ' '
    || c == '\U{85}' || c == '\U{A0}' || c == '\U{1680}'
    || ('\U{2000}' <= c <= '\U{200A}')
    || c == '\U{2028}' || c == '\U{2029}' || c == '\U{202F}' || c == '\U{205F}' || c == '\U{3000}'
  }

  /** Every character of `s` is a space (true of ""). */
  predicate Blank(s: string) {
    forall k :: 0 <= k < |s| ==> IsSpace(s[k])
  }

  /** Neither the first nor the last character of `s` is a space. */
  predicate Trimmed(s: string) {
    s == [] || (!IsSpace(s[0]) && !IsSpace(s[|s| - 1]))
  }

  /** `strings.HasPrefix`: `s` is `prefix` followed by the rest of `s` (see `PrefixOfConcat` for the converse). */
  predicate HasPrefix(s: string, prefix: string): (b: bool)
    ensures b ==> |prefix| <= |s| && s == prefix + s[|prefix|..]
  {
    |prefix| <= |s| && s[..|prefix|] == prefix
  }

  /** Every string that starts with `prefix` has it as a prefix. */
  lemma PrefixOfConcat(prefix: string, rest: string)
    ensures HasPrefix(prefix + rest, prefix)
  {
    assert (prefix + rest)[..|prefix|] == prefix;
  }

  /** `strings.TrimPrefix`: `s` without `prefix` when it starts with it, else `s`. */
  function TrimPrefix(s: string, prefix: string): (r: string)
    ensures HasPrefix(s, prefix) ==> s == prefix + r
    ensures !HasPrefix(s, prefix) ==> r == s
  {
    if HasPrefix(s, prefix) then s[|prefix|..] else s
  }

  /** Drops the leading spaces: what is left does not start with one. */
  function TrimLeftSpace(s: string): (r: string)
    ensures |r| <= |s|
    ensures r == [] || !IsSpace(r[0])
  {
    if s != [] && IsSpace(s[0]) then TrimLeftSpace(s[1..]) else s
  }

  /** Drops the trailing spaces: what is left is a prefix of `s` that does not end with one. */
  function TrimRightSpace(s: string): (r: string)
    ensures |r| <= |s| && r == s[..|r|]
    ensures r == [] || !IsSpace(r[|r| - 1])
  {
    if s != [] && IsSpace(s[|s| - 1]) then TrimRightSpace(s[..|s| - 1]) else s
  }

  /** What `TrimLeftSpace` drops: `s` is `p + TrimLeftSpace(s)` with `p` blank. */
  lemma {:induction false} TrimLeftSpaceSplit(s: string) returns (p: string)
    ensures Blank(p) && s == p + TrimLeftSpace(s)
  {
    if s != [] && IsSpace(s[0]) {
      var p' := TrimLeftSpaceSplit(s[1..]);
      p := [s[0]] + p';
      BlankConcat([s[0]], p');
      assert s == [s[0]] + s[1..];
    } else {
      p := [];
      assert s == [] + s;
    }
  }

  /** What `TrimRightSpace` drops: `s` is `TrimRightSpace(s) + q` with `q` blank. */
  lemma {:induction false} TrimRightSpaceSplit(s: string) returns (q: string)
    ensures Blank(q) && s == TrimRightSpace(s) + q
  {
    if s != [] && IsSpace(s[|s| - 1]) {
      var init, last := s[..|s| - 1], s[|s| - 1];
      var q' := TrimRightSpaceSplit(init);
      q := q' + [last];
      BlankConcat(q', [last]);
      assert s == init + [last];
      assert init == TrimRightSpace(init) + q';
      assert s == TrimRightSpace(init) + (q' + [last]);
    } else {
      q := [];
      assert s == s + [];
    }
  }

  /**
   * `strings.TrimSpace`: what is left after removing the leading and the
   * trailing spaces; it neither begins nor ends with one. `TrimSpaceParts`
   * gives the spaces removed.
   */
  function TrimSpace(s: string): (r: string)
    ensures Trimmed(r) && |r| <= |s|
  {
    var left := TrimLeftSpace(s);
    var r := TrimRightSpace(left);
    assert r != [] ==> r[0] == left[0];
    r
  }

  /** The spaces `TrimSpace` removes: `s` is `p + TrimSpace(s) + q` with `p` and `q` blank. */
  lemma TrimSpaceParts(s: string) returns (p: string, q: string)
    ensures Blank(p) && Blank(q) && s == p + TrimSpace(s) + q
  {
    var left := TrimLeftSpace(s);
    p := TrimLeftSpaceSplit(s);
    q := TrimRightSpaceSplit(left);
    assert s == p + (TrimRightSpace(left) + q);
  }

  lemma SplitAt(s: string, n: nat)
    requires n <= |s|
    ensures s == s[..n] + s[n..]
  {
  }

  lemma Concat4(a: string, b: string, c: string, d: string)
    ensures a + b + c + d == a + (b + c + d)
  {
  }

  lemma BlankConcat(a: string, b: string)
    requires Blank(a) && Blank(b)
    ensures Blank(a + b)
  {
    assert forall k :: 0 <= k < |a + b| ==> (a + b)[k] == if k < |a| then a[k] else b[k - |a|];
  }

  /** Leading spaces are all removed: `TrimLeftSpace(p + t)` is `TrimLeftSpace(t)` for blank `p`. */
  lemma {:induction false} TrimLeftSkipsBlank(p: string, t: string)
    requires Blank(p)
    ensures TrimLeftSpace(p + t) == TrimLeftSpace(t)
  {
    if p != [] {
      assert (p + t)[0] == p[0] && IsSpace(p[0]);
      assert (p + t)[1..] == p[1..] + t;
      assert Blank(p[1..]) by { forall k | 0 <= k < |p[1..]| ensures IsSpace(p[1..][k]) { assert p[1..][k] == p[k + 1]; } }
      TrimLeftSkipsBlank(p[1..], t);
    } else {
      assert p + t == t;
    }
  }

  /** Trailing spaces are all removed: `TrimRightSpace(t + q)` is `TrimRightSpace(t)` for blank `q`. */
  lemma {:induction false} TrimRightSkipsBlank(t: string, q: string)
    requires Blank(q)
    ensures TrimRightSpace(t + q) == TrimRightSpace(t)
  {
    if q != [] {
      var q' := q[..|q| - 1];
      assert (t + q)[|t + q| - 1] == q[|q| - 1] && IsSpace(q[|q| - 1]);
      assert (t + q)[..|t + q| - 1] == t + q';
      assert Blank(q') by { forall k | 0 <= k < |q'| ensures IsSpace(q'[k]) { assert q'[k] == q[k]; } }
      TrimRightSkipsBlank(t, q');
    } else {
      assert t + q == t;
    }
  }

  /**
   * `TrimSpace` has exactly one answer for a padded string: surrounding
   * `t` (which begins and ends with a non-space) by blanks gives back `t`.
   */
  lemma TrimSpacePadded(p: string, t: string, q: string)
    requires Blank(p) && Blank(q) && Trimmed(t)
    ensures TrimSpace(p + t + q) == t
  {
    assert p + t + q == p + (t + q);
    TrimLeftSkipsBlank(p, t + q);
    if t == [] {
      assert t + q == q && q + [] == q;
      TrimLeftSkipsBlank(q, []);
      assert TrimLeftSpace(q) == TrimLeftSpace([]) == [];
    } else {
      assert TrimLeftSpace(t + q) == t + q;
      TrimRightSkipsBlank(t, q);
      assert TrimRightSpace(t) == t;
    }
  }

  /** Trimming twice is trimming once. */
  lemma TrimSpaceIdempotent(s: string)
    ensures TrimSpace(TrimSpace(s)) == TrimSpace(s)
  {
    var t := TrimSpace(s);
    TrimSpacePadded([], t, []);
    assert [] + t + [] == t;
  }

  /** An all-space string trims to "", and only such a string does. */
  lemma TrimSpaceEmptyIffBlank(s: string)
    ensures TrimSpace(s) == [] <==> Blank(s)
  {
    if Blank(s) {
      TrimSpacePadded(s, [], []);
      assert s + [] + [] == s;
    }
    if TrimSpace(s) == [] {
      var p, q := TrimSpaceParts(s);
      assert s == p + q;
      BlankConcat(p, q);
    }
  }
}
