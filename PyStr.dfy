/** The Python `str` built-ins the quiz parser calls: `strip()`, `in`,
    `split(sep)` and `replace(old, new)`, each for a non-empty separator or
    pattern, which is the only way the parser calls them. `Find` is the
    leftmost scan that `split` and `replace` perform, and `Join` the
    inverse of `split` in which their contracts are stated. */
module PyStr {

  datatype Option<T> = None | Some(value: T)

  /** The ASCII characters Python's `str.isspace` accepts, which `strip()`
      removes: tab, line feed, vertical tab, form feed and carriage return
      (U+0009 to U+000D), the four information separators (U+001C to U+001F)
      and space (U+0020). */
  predicate IsSpace(c: char) {
    ('\t' <= c <= '\r') || ('\U{1C}' <= c <= ' ')
  }

  predicate AllSpace(s: string) {
    forall i :: 0 <= i < |s| ==> IsSpace(s[i])
  }

  /** Neither end of `s` is whitespace: `s` is its own `strip()`. */
  predicate IsStripped(s: string) {
    s == [] || (!IsSpace(s[0]) && !IsSpace(s[|s| - 1]))
  }

  /** The index of the first character at or after `i` that is not
      whitespace, or `|s|` if there is none: where `strip()` starts. */
  function SkipSpace(s: string, i: nat): (n: nat)
    requires i <= |s|
    ensures i <= n <= |s|
    ensures forall k :: i <= k < n ==> IsSpace(s[k])
    ensures n == |s| || !IsSpace(s[n])
    decreases |s| - i
  {
    if i < |s| && IsSpace(s[i]) then SkipSpace(s, i + 1) else i
  }

  /** The index just past the last character before `j` that is not
      whitespace, or `lo` if there is none from `lo` on: where `strip()`
      ends. */
  function SkipSpaceBack(s: string, lo: nat, j: nat): (n: nat)
    requires lo <= j <= |s|
    ensures lo <= n <= j
    ensures forall k :: n <= k < j ==> IsSpace(s[k])
    ensures n == lo || !IsSpace(s[n - 1])
    decreases j
  {
    if lo < j && IsSpace(s[j - 1]) then SkipSpaceBack(s, lo, j - 1) else j
  }

  /** `s.strip()`: `s` without its leading and trailing whitespace. */
  function Strip(s: string): (r: string)
    ensures IsStripped(r)
    ensures r == [] <==> AllSpace(s)
  {
    var i := SkipSpace(s, 0);
    var j := SkipSpaceBack(s, i, |s|);
    assert AllSpace(s) ==> i == |s|;
    assert i == j ==> AllSpace(s);
    s[i..j]
  }

  /** What `strip()` keeps is the infix of `s` between a whitespace prefix
      and a whitespace suffix; `i` is where it starts. */
  lemma StripIsInfix(s: string) returns (i: nat)
    ensures var r := Strip(s);
      i + |r| <= |s| && r == s[i..i + |r|] && AllSpace(s[..i]) && AllSpace(s[i + |r|..])
  {
    i := SkipSpace(s, 0);
    var j := SkipSpaceBack(s, i, |s|);
    assert Strip(s) == s[i..j];
    assert forall k :: 0 <= k < i ==> s[..i][k] == s[k];
    assert forall k :: 0 <= k < |s| - j ==> s[j..][k] == s[j + k];
  }

  /** `strip()` is determined by its shape: whatever whitespace surrounds a
      stripped core, `strip()` returns exactly that core. */
  lemma StripUnique(pre: string, r: string, post: string)
    requires AllSpace(pre) && AllSpace(post) && IsStripped(r)
    ensures Strip(pre + r + post) == r
  {
    var s := pre + r + post;
    if r == [] {
      assert forall k :: 0 <= k < |s| ==> s[k] == if k < |pre| then pre[k] else post[k - |pre|];
    } else {
      var i := SkipSpace(s, 0);
      assert s[|pre|] == r[0];
      assert forall k :: 0 <= k < |pre| ==> s[k] == pre[k];
      assert i == |pre|;
      var j := SkipSpaceBack(s, i, |s|);
      var e := |pre| + |r|;
      assert s[e - 1] == r[|r| - 1];
      assert forall k :: e <= k < |s| ==> s[k] == post[k - e];
      assert j == e;
      assert s[i..j] == r;
    }
  }

  /** A stripped string is its own `strip()`. */
  lemma StripOfStripped(s: string)
    requires IsStripped(s)
    ensures Strip(s) == s
  {
    if s != [] {
      assert SkipSpace(s, 0) == 0;
      assert SkipSpaceBack(s, 0, |s|) == |s|;
      assert s[0..|s|] == s;
    }
  }

  /** `strip()` is idempotent. */
  lemma StripIdempotent(s: string)
    ensures Strip(Strip(s)) == Strip(s)
  {
    StripOfStripped(Strip(s));
  }

  lemma SliceOfSlice(s: string, i: nat, j: nat, a: nat, b: nat)
    requires i <= j <= |s| && a <= b <= j - i
    ensures s[i..j][a..b] == s[i + a..i + b]
  {
    forall t | 0 <= t < b - a ensures s[i..j][a..b][t] == s[i + a..i + b][t] {
      assert s[i..j][a..b][t] == s[i..j][a + t] == s[i + a + t];
    }
  }

  lemma SliceOfConcat(a: string, b: string, i: nat, j: nat)
    requires i <= j <= |a|
    ensures (a + b)[i..j] == a[i..j]
  {
    forall t | 0 <= t < j - i ensures (a + b)[i..j][t] == a[i..j][t] {
      assert (a + b)[i..j][t] == (a + b)[i + t];
    }
  }

  /** `pat` occurs in `s` starting at index `i`. */
  predicate OccursAt(s: string, pat: string, i: nat) {
    i + |pat| <= |s| && s[i..i + |pat|] == pat
  }

  /** Python's `pat in s`. */
  predicate Contains(s: string, pat: string) {
    exists i: nat :: i <= |s| && OccursAt(s, pat, i)
  }

  /** `s.find(pat)`: the index of the leftmost occurrence, if any. */
  function Find(s: string, pat: string): (r: Option<nat>)
    ensures r.Some? ==> OccursAt(s, pat, r.value)
    ensures r.Some? ==> forall j: nat :: j < r.value ==> !OccursAt(s, pat, j)
    ensures r.None? <==> !Contains(s, pat)
    decreases |s|
  {
    if |s| < |pat| then None
    else if s[..|pat|] == pat then Some(0)
    else
      var r := Find(s[1..], pat);
      assert forall j: nat :: OccursAt(s[1..], pat, j) <==> OccursAt(s, pat, j + 1) by {
        forall j: nat ensures OccursAt(s[1..], pat, j) <==> OccursAt(s, pat, j + 1) {
          if j + |pat| <= |s[1..]| {
            assert s[1..][j..j + |pat|] == s[j + 1..j + 1 + |pat|];
          }
        }
      }
      if r.None? then
        assert forall j: nat :: j <= |s| ==> !OccursAt(s, pat, j) by {
          forall j: nat | j <= |s| ensures !OccursAt(s, pat, j) {
            if j > 0 { assert !OccursAt(s[1..], pat, j - 1); }
          }
        }
        None
      else
        assert !OccursAt(s, pat, 0);
        assert forall j: nat :: 0 < j < r.value + 1 ==> !OccursAt(s, pat, j) by {
          forall j: nat | 0 < j < r.value + 1 ensures !OccursAt(s, pat, j) {
            assert !OccursAt(s[1..], pat, j - 1);
          }
        }
        Some(r.value + 1)
  }

  /** Two pieces join around one separator. */
  lemma JoinTwo(a: string, b: string, sep: string)
    ensures Join([a, b], sep) == a + sep + b
  {
    assert [a, b][1..] == [b];
  }

  /** Three pieces join around two separators. */
  lemma JoinThree(a: string, b: string, c: string, sep: string)
    ensures Join([a, b, c], sep) == a + sep + b + sep + c
  {
    assert [a, b, c][1..] == [b, c];
    JoinTwo(b, c, sep);
  }

  /** `sep.join(pieces)`. */
  function Join(pieces: seq<string>, sep: string): string {
    if pieces == [] then ""
    else if |pieces| == 1 then pieces[0]
    else pieces[0] + sep + Join(pieces[1..], sep)
  }

  lemma JoinFirstTwo(ps: seq<string>, sep: string)
    requires |ps| >= 2
    ensures Join(ps, sep) == ps[0] + sep + ps[1] + (if |ps| == 2 then [] else sep + Join(ps[2..], sep))
  {
    assert ps[1..][1..] == ps[2..];
    assert ps[1..][0] == ps[1];
  }

  /** `s.split(sep)` for a non-empty `sep`: the pieces between leftmost
      non-overlapping occurrences of `sep`, scanning from the left. */
  function Split(s: string, sep: string): (r: seq<string>)
    requires sep != []
    ensures |r| >= 1
    ensures |r| == 1 <==> !Contains(s, sep)
    ensures |r| > 1 ==> Find(s, sep) == Some(|r[0]|)
    ensures forall k :: 0 <= k < |r| - 1 ==> Find(Join(r[k..], sep), sep) == Some(|r[k]|)
    ensures Join(r, sep) == s
    ensures forall k :: 0 <= k < |r| ==> !Contains(r[k], sep)
    decreases |s|
  {
    match Find(s, sep)
    case None => [s]
    case Some(i) =>
      var rest := Split(s[i + |sep|..], sep);
      SplitStep(s, sep, i, rest);
      var r := [s[..i]] + rest;
      assert r[0..] == r;
      assert forall k :: 1 <= k < |r| ==> r[k..] == rest[k - 1..];
      r
  }

  /** The piece before the leftmost separator is free of it, and the split
      of the text after it extends to a split of the whole. */
  lemma SplitStep(s: string, sep: string, i: nat, rest: seq<string>)
    requires sep != [] && Find(s, sep) == Some(i)
    requires |rest| >= 1 && Join(rest, sep) == s[i + |sep|..]
    requires forall k :: 0 <= k < |rest| ==> !Contains(rest[k], sep)
    ensures var r := [s[..i]] + rest;
      && |r| >= 2 && Contains(s, sep) && Join(r, sep) == s
      && forall k :: 0 <= k < |r| ==> !Contains(r[k], sep)
  {
    PrefixBeforeFirstIsFree(s, sep, i);
    Around(s, sep, i);
    var r := [s[..i]] + rest;
    assert r[1..] == rest;
    assert Join(r, sep) == s[..i] + sep + Join(rest, sep);
    forall k | 0 <= k < |r| ensures !Contains(r[k], sep) {
      if k > 0 { assert r[k] == rest[k - 1]; }
    }
    assert OccursAt(s, sep, i);
  }

  /** A string is the text before an occurrence, the occurrence, and the text after it. */
  lemma Around(s: string, pat: string, i: nat)
    requires OccursAt(s, pat, i)
    ensures s == s[..i] + pat + s[i + |pat|..]
  {
    assert s == s[..i] + s[i..i + |pat|] + s[i + |pat|..];
  }

  lemma PrefixBeforeFirstIsFree(s: string, sep: string, i: nat)
    requires sep != [] && Find(s, sep) == Some(i)
    ensures !Contains(s[..i], sep)
  {
    forall j: nat | j + |sep| <= i ensures !OccursAt(s[..i], sep, j) {
      SliceOfSlice(s, 0, i, j, j + |sep|);
      assert !OccursAt(s, sep, j);
    }
  }

  /** `s.replace(pat, repl)` for a non-empty `pat`: every leftmost
      non-overlapping occurrence of `pat` replaced by `repl`. */
  function Replace(s: string, pat: string, repl: string): (r: string)
    requires pat != []
    ensures !Contains(s, pat) ==> r == s
    decreases |s|
  {
    match Find(s, pat)
    case None => s
    case Some(i) => s[..i] + repl + Replace(s[i + |pat|..], pat, repl)
  }

  /** `s.replace(pat, repl)` is `repl.join(s.split(pat))`: both scan for the
      same leftmost non-overlapping occurrences. */
  lemma {:induction false} ReplaceIsJoinOfSplit(s: string, pat: string, repl: string)
    requires pat != []
    ensures Replace(s, pat, repl) == Join(Split(s, pat), repl)
    decreases |s|
  {
    match Find(s, pat)
    case None =>
    case Some(i) =>
      ReplaceIsJoinOfSplit(s[i + |pat|..], pat, repl);
  }

  /** A `sep`-free piece followed by `sep` is split exactly there. */
  predicate EndsAtSeparator(p: string, sep: string) {
    Find(p + sep, sep) == Some(|p|)
  }

  /** `find` returns exactly the leftmost occurrence. */
  lemma FindIs(s: string, pat: string, i: nat)
    requires OccursAt(s, pat, i)
    requires forall j: nat :: j < i ==> !OccursAt(s, pat, j)
    ensures Find(s, pat) == Some(i)
  {
    assert Contains(s, pat);
  }

  /** A leftmost occurrence found in a prefix stays leftmost when more text follows. */
  lemma FindExtends(a: string, b: string, pat: string)
    requires Find(a, pat).Some?
    ensures Find(a + b, pat) == Find(a, pat)
  {
    var i := Find(a, pat).value;
    SliceOfConcat(a, b, i, i + |pat|);
    forall j: nat | j < i ensures !OccursAt(a + b, pat, j) {
      SliceOfConcat(a, b, j, j + |pat|);
      assert !OccursAt(a, pat, j);
    }
    FindIs(a + b, pat, i);
  }

  /** A piece that ends at the separator is the first piece of the split. */
  lemma SplitFirst(p: string, sep: string, rest: string)
    requires sep != [] && EndsAtSeparator(p, sep)
    ensures Split(p + sep + rest, sep) == [p] + Split(rest, sep)
  {
    var s := p + sep + rest;
    FindExtends(p + sep, rest, sep);
    assert s[..|p|] == p;
    assert s[|p| + |sep|..] == rest;
  }

  /** `split` undoes `join` when no separator can be found inside or across the pieces. */
  lemma {:induction false} SplitJoin(ps: seq<string>, sep: string)
    requires sep != [] && ps != []
    requires forall k :: 0 <= k < |ps| - 1 ==> EndsAtSeparator(ps[k], sep)
    requires !Contains(ps[|ps| - 1], sep)
    ensures Split(Join(ps, sep), sep) == ps
    decreases |ps|
  {
    if |ps| > 1 {
      var s := Join(ps, sep);
      assert s == ps[0] + sep + Join(ps[1..], sep);
      FindExtends(ps[0] + sep, Join(ps[1..], sep), sep);
      assert s[|ps[0]| + |sep|..] == Join(ps[1..], sep);
      SplitJoin(ps[1..], sep);
    }
  }

  /** An infix of a string free of `pat` is free of `pat` too. */
  lemma InfixKeepsAbsence(s: string, i: nat, r: string, pat: string)
    requires i + |r| <= |s| && r == s[i..i + |r|] && !Contains(s, pat)
    ensures !Contains(r, pat)
  {
    forall k: nat | k + |pat| <= |r| ensures !OccursAt(r, pat, k) {
      SliceOfSlice(s, i, i + |r|, k, k + |pat|);
      assert !OccursAt(s, pat, i + k);
    }
  }

  /** `strip()` never introduces a pattern the string did not contain. */
  lemma StripKeepsAbsence(s: string, pat: string)
    requires !Contains(s, pat)
    ensures !Contains(Strip(s), pat)
  {
    var i := StripIsInfix(s);
    InfixKeepsAbsence(s, i, Strip(s), pat);
  }

  /** A pattern one of whose characters is absent cannot occur. */
  lemma AbsentChar(s: string, pat: string, k: nat)
    requires k < |pat| && pat[k] !in s
    ensures !Contains(s, pat)
  {
    forall i: nat | i + |pat| <= |s| ensures !OccursAt(s, pat, i) {
      assert s[i..i + |pat|][k] == s[i + k];
    }
  }

  /** A piece without the separator's first character ends at the separator. */
  lemma EndsWhereFirstCharAbsent(p: string, sep: string)
    requires sep != [] && sep[0] !in p
    ensures EndsAtSeparator(p, sep)
  {
    var s := p + sep;
    assert s[|p|..|p| + |sep|] == sep;
    forall j: nat | j < |p| ensures !OccursAt(s, sep, j) {
      assert s[j] == p[j];
      if j + |sep| <= |s| { assert s[j..j + |sep|][0] == s[j]; }
    }
    FindIs(s, sep, |p|);
  }

  /** A piece free of a two-character separator ends at that separator,
      unless the separator's two characters are equal and the piece ends
      in that character (as `a\n` does before `\n\n`). */
  lemma TwoCharSeparatorEnds(p: string, sep: string)
    requires |sep| == 2 && !Contains(p, sep)
    requires p == [] || p[|p| - 1] != sep[0] || sep[1] != sep[0]
    ensures EndsAtSeparator(p, sep)
  {
    var s := p + sep;
    assert s[|p|..|p| + |sep|] == sep;
    forall j: nat | j < |p| ensures !OccursAt(s, sep, j) {
      if j + 2 <= |p| {
        SliceOfConcat(p, sep, j, j + 2);
        assert !OccursAt(p, sep, j);
      } else {
        assert s[j] == p[|p| - 1];
        assert s[j..j + 2][0] == s[j];
        assert s[j..j + 2][1] == s[j + 1] == sep[0];
      }
    }
    FindIs(s, sep, |p|);
  }

  /** The first and last characters of a join come from its first and last pieces. */
  lemma {:induction false} JoinEnds(ps: seq<string>, sep: string)
    requires ps != [] && ps[|ps| - 1] != []
    ensures var s := Join(ps, sep); s != [] && s[|s| - 1] == ps[|ps| - 1][|ps[|ps| - 1]| - 1]
    ensures ps[0] != [] ==> Join(ps, sep)[0] == ps[0][0]
    decreases |ps|
  {
    if |ps| > 1 {
      JoinEnds(ps[1..], sep);
    }
  }

  /** Non-empty pieces free of `c`, joined by `c`, never hold two `c` in a row. */
  lemma {:induction false} JoinNoDouble(ps: seq<string>, c: char)
    requires forall k :: 0 <= k < |ps| ==> ps[k] != [] && c !in ps[k]
    ensures !Contains(Join(ps, [c]), [c, c])
    decreases |ps|
  {
    if |ps| == 0 {
    } else if |ps| == 1 {
      AbsentChar(ps[0], [c, c], 0);
    } else {
      var l, r := ps[0], Join(ps[1..], [c]);
      var s := l + [c] + r;
      JoinNoDouble(ps[1..], c);
      JoinEnds(ps[1..], [c]);
      forall i: nat | i + 2 <= |s| ensures !OccursAt(s, [c, c], i) {
        if i < |l| {
          assert s[i..i + 2][0] == s[i] == l[i];
        } else if i == |l| {
          assert s[i..i + 2][1] == s[i + 1] == r[0];
        } else {
          assert s[i..i + 2] == r[i - |l| - 1..i - |l| + 1];
          assert !OccursAt(r, [c, c], i - |l| - 1);
        }
      }
    }
  }
}
