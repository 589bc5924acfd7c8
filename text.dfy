/**
 * String helpers shared by the tabs: Python's whitespace class, `strip`,
 * `split`, `find`, `replace`, ASCII lower-casing and the `\s+` collapse,
 * each written as an explicit scanner with the facts the tabs rely on.
 */
module Text {

  datatype Option<T> = None | Some(value: T)

  /** Python's `str.isspace`, which is also what `\s` matches in a `str`
      regular expression and what `strip()`/`split()` remove. */
  predicate IsSpace(c: char) {
    c in SpaceChars
  }

  const SpaceChars: set<char> := {
    '\t', '\n', '\U{B}', '\U{C}', '\r', '\U{1C}', '\U{1D}', '\U{1E}', '\U{1F}', ' ',
    '\U{85}', '\U{A0}', '\U{1680}', '\U{2000}', '\U{2001}', '\U{2002}', '\U{2003}',
    '\U{2004}', '\U{2005}', '\U{2006}', '\U{2007}', '\U{2008}', '\U{2009}', '\U{200A}',
    '\U{2028}', '\U{2029}', '\U{202F}', '\U{205F}', '\U{3000}'
  }

  predicate AllSpace(s: string) {
    forall i | 0 <= i < |s| :: IsSpace(s[i])
  }

  predicate HasNonSpace(s: string) {
    exists i | 0 <= i < |s| :: !IsSpace(s[i])
  }

  predicate StartsWith(s: string, p: string) {
    |p| <= |s| && s[..|p|] == p
  }

  predicate EndsWith(s: string, p: string) {
    |p| <= |s| && s[|s| - |p|..] == p
  }

  /** `p` occurs in `s` starting at index `k`. */
  predicate OccursAt(s: string, p: string, k: int) {
    0 <= k && k + |p| <= |s| && s[k..k + |p|] == p
  }

  /** Python's `p in s`. */
  predicate Contains(s: string, p: string) {
    exists k | 0 <= k <= |s| :: OccursAt(s, p, k)
  }

  /** Python's `s.find(p, i)`: the first occurrence at or after `i`. */
  function FindFrom(s: string, p: string, i: nat): (r: Option<nat>)
    requires i <= |s|
    ensures r.Some? ==> i <= r.value <= |s| && OccursAt(s, p, r.value)
    ensures r.Some? ==> forall k | i <= k < r.value :: !OccursAt(s, p, k)
    ensures r.None? ==> forall k | i <= k <= |s| :: !OccursAt(s, p, k)
    decreases |s| - i
  {
    if OccursAt(s, p, i) then Some(i)
    else if i == |s| then None
    else FindFrom(s, p, i + 1)
  }

  lemma ContainsFind(s: string, p: string)
    ensures Contains(s, p) <==> FindFrom(s, p, 0).Some?
  {
    if FindFrom(s, p, 0).Some? {
      assert OccursAt(s, p, FindFrom(s, p, 0).value);
    }
  }

  function LowerChar(c: char): char {
    if 'A' <= c <= 'Z' then (c as int + 32) as char else c
  }

  /** Python's `lower()`, restricted to ASCII letters. */
  function Lower(s: string): string {
    seq(|s|, i requires 0 <= i < |s| => LowerChar(s[i]))
  }

  /** Lower-casing twice is lower-casing once. */
  lemma LowerIdempotent(s: string)
    ensures Lower(Lower(s)) == Lower(s)
  {
    assert forall i | 0 <= i < |s| :: Lower(Lower(s))[i] == Lower(s)[i];
  }

  predicate IsQuote(c: char) {
    c == '\'' || c == '"'
  }

  /** Index of the first quote of `s` at or after `i`, or `|s|`. */
  function FirstQuote(s: string, i: nat): (k: nat)
    requires i <= |s|
    ensures i <= k <= |s|
    ensures k < |s| ==> IsQuote(s[k])
    ensures forall j | i <= j < k :: !IsQuote(s[j])
    decreases |s| - i
  {
    if i == |s| || IsQuote(s[i]) then i else FirstQuote(s, i + 1)
  }

  /** Index of the first non-whitespace character of `s` at or after `i`,
      or `|s|`: how far `\s*` reaches from `i`. */
  function SkipSpaces(s: string, i: nat): (k: nat)
    requires i <= |s|
    ensures i <= k <= |s|
    ensures k < |s| ==> !IsSpace(s[k])
    ensures forall j | i <= j < k :: IsSpace(s[j])
    decreases |s| - i
  {
    if i == |s| || !IsSpace(s[i]) then i else SkipSpaces(s, i + 1)
  }

  /** Python's `lstrip()`. */
  function LStrip(s: string): (r: string)
    ensures |r| <= |s| && r == s[|s| - |r|..]
    ensures forall i | 0 <= i < |s| - |r| :: IsSpace(s[i])
    ensures r != [] ==> !IsSpace(r[0])
    decreases |s|
  {
    if s != [] && IsSpace(s[0]) then LStrip(s[1..]) else s
  }

  /** The first character `lstrip()` keeps, seen in the input. */
  lemma LStripFirst(s: string)
    ensures |LStrip(s)| > 0 ==> !IsSpace(s[|s| - |LStrip(s)|])
  {
    var r := LStrip(s);
    if |r| > 0 {
      assert r[0] == s[|s| - |r|];
    }
  }

  /** Python's `rstrip()`. */
  function RStrip(s: string): (r: string)
    ensures |r| <= |s| && r == s[..|r|]
    ensures forall i | |r| <= i < |s| :: IsSpace(s[i])
    ensures r != [] ==> !IsSpace(r[|r| - 1])
    decreases |s|
  {
    if s != [] && IsSpace(s[|s| - 1]) then RStrip(s[..|s| - 1]) else s
  }

  /** Python's `strip()`. */
  function Strip(s: string): string {
    RStrip(LStrip(s))
  }

  /** What the tabs rely on from `strip()`: the result is a slice of the
      input framed by whitespace only, and it neither starts nor ends with
      whitespace. */
  lemma StripSlice(s: string) returns (a: nat, b: nat)
    ensures a <= b <= |s| && Strip(s) == s[a..b]
    ensures forall i | 0 <= i < a :: IsSpace(s[i])
    ensures forall i | b <= i < |s| :: IsSpace(s[i])
    ensures Strip(s) != [] ==> !IsSpace(Strip(s)[0]) && !IsSpace(Strip(s)[|Strip(s)| - 1])
  {
    var l := LStrip(s);
    var m := RStrip(l);
    a := |s| - |l|;
    b := a + |m|;
    PrefixOfSuffix(s, a, |m|);
    forall i | b <= i < |s| ensures IsSpace(s[i]) {
      assert s[i] == l[i - a];
    }
  }

  /** A prefix of a suffix is a slice. */
  lemma PrefixOfSuffix(s: string, a: nat, n: nat)
    requires a + n <= |s|
    ensures s[a..][..n] == s[a..a + n]
  {
  }

  /** `strip()` yields the empty string exactly for all-whitespace input. */
  lemma StripEmpty(s: string)
    ensures Strip(s) == [] <==> !HasNonSpace(s)
  {
    var a, b := StripSlice(s);
    if Strip(s) == [] {
      assert a == b;
    } else {
      assert !IsSpace(s[a]);
    }
  }

  /** A text that `strip()` changes starts or ends with whitespace. */
  lemma StripChanged(s: string)
    ensures Strip(s) != s ==> s != [] && (IsSpace(s[0]) || IsSpace(s[|s| - 1]))
  {
    var a, b := StripSlice(s);
    if a == 0 && b == |s| {
      assert s[a..b] == s;
    }
  }

  /** `strip()` is idempotent. */
  lemma StripIdempotent(s: string)
    ensures Strip(Strip(s)) == Strip(s)
  {
    var t := Strip(s);
    var a, b := StripSlice(s);
    if t != [] {
      assert LStrip(t) == t;
      assert RStrip(t) == t;
    }
  }

  predicate NoAdjacentSpaces(s: string) {
    forall i | 0 <= i < |s| - 1 :: !(IsSpace(s[i]) && IsSpace(s[i + 1]))
  }

  /** `re.sub(r'\s+', ' ', s)`: every maximal run of whitespace becomes one
      blank. */
  function SqueezeSpaces(s: string): (r: string)
    ensures NoAdjacentSpaces(r)
    ensures s == [] <==> r == []
    ensures s != [] && IsSpace(s[0]) ==> r[0] == ' '
    ensures s != [] && !IsSpace(s[0]) ==> r[0] == s[0]
    decreases |s|
  {
    if s == [] then []
    else if IsSpace(s[0]) then " " + SqueezeSpaces(LStrip(s))
    else [s[0]] + SqueezeSpaces(s[1..])
  }

  lemma NoAdjacentSlice(s: string, a: nat, b: nat)
    requires a <= b <= |s| && NoAdjacentSpaces(s)
    ensures NoAdjacentSpaces(s[a..b])
  {
    forall i | 0 <= i < b - a - 1 ensures !(IsSpace(s[a..b][i]) && IsSpace(s[a..b][i + 1])) {
      assert s[a..b][i] == s[a + i] && s[a..b][i + 1] == s[a + i + 1];
    }
  }

  /** `re.sub(r'\s+', ' ', s).strip()`. */
  function NormalizeSpaces(s: string): string {
    Strip(SqueezeSpaces(s))
  }

  /** The normalised text neither starts nor ends with whitespace and never
      holds two whitespace characters in a row. */
  lemma NormalizeSpacesShape(s: string)
    ensures var r := NormalizeSpaces(s);
      NoAdjacentSpaces(r) && (r != [] ==> !IsSpace(r[0]) && !IsSpace(r[|r| - 1]))
  {
    var a, b := StripSlice(SqueezeSpaces(s));
    NoAdjacentSlice(SqueezeSpaces(s), a, b);
  }

  /** Python's `s.replace(p, r)` for a non-empty `p`: every occurrence, left
      to right and without overlap. */
  function Replace(s: string, p: string, r: string): string
    requires |p| > 0
    decreases |s|
  {
    if s == [] then []
    else if StartsWith(s, p) then r + Replace(s[|p|..], p, r)
    else [s[0]] + Replace(s[1..], p, r)
  }

  /** Replacing one character by another keeps the length and changes
      exactly the positions holding that character. */
  lemma {:induction false} ReplaceChar(s: string, a: char, b: char)
    ensures |Replace(s, [a], [b])| == |s|
    ensures forall k | 0 <= k < |s| :: Replace(s, [a], [b])[k] == if s[k] == a then b else s[k]
    decreases |s|
  {
    if s != [] {
      ReplaceChar(s[1..], a, b);
      assert StartsWith(s, [a]) <==> s[0] == a by {
        assert s[..1] == [s[0]];
      }
    }
  }

  /** A string in which a text starting with a non-space character occurs,
      directly or after lower-casing, has a non-space character. */
  lemma ContainsNonSpace(s: string, q: string)
    requires q != [] && !IsSpace(q[0])
    ensures Contains(s, q) ==> HasNonSpace(s)
    ensures Contains(Lower(s), q) ==> HasNonSpace(s)
  {
    if Contains(s, q) {
      var k :| 0 <= k <= |s| && OccursAt(s, q, k);
      assert s[k] == s[k..k + |q|][0] == q[0];
    }
    if Contains(Lower(s), q) {
      var k :| 0 <= k <= |Lower(s)| && OccursAt(Lower(s), q, k);
      assert LowerChar(s[k]) == Lower(s)[k..k + |q|][0] == q[0];
    }
  }

  /** A prefix without the first character of `q` cannot start or hold an
      occurrence of `q`. */
  lemma PrefixAvoids(h: string, t: string, q: string)
    requires q != [] && forall k | 0 <= k < |h| :: h[k] != q[0]
    requires !Contains(t, q)
    ensures !Contains(h + t, q)
  {
    forall k | 0 <= k <= |h + t| ensures !OccursAt(h + t, q, k) {
      if k < |h| {
        assert (h + t)[k] == h[k];
        OccursIndex(h + t, q, k, 0);
      } else {
        assert k + |q| <= |h + t| ==> (h + t)[k..k + |q|] == t[k - |h|..k - |h| + |q|];
        assert OccursAt(h + t, q, k) <==> OccursAt(t, q, k - |h|);
      }
    }
  }

  /** Python's `s.split(sep, 1)` unpacked into two names: `None` when `sep`
      does not occur (the unpacking raises `ValueError`). */
  function SplitOnce(s: string, sep: string): (r: Option<(string, string)>)
    requires |sep| > 0
    ensures r.None? <==> !Contains(s, sep)
    ensures r.Some? ==> s == r.value.0 + sep + r.value.1 && !Contains(r.value.0, sep)
    ensures r.Some? ==> forall k | 0 <= k < |r.value.0| :: !OccursAt(s, sep, k)
  {
    ContainsFind(s, sep);
    match FindFrom(s, sep, 0)
    case None => None
    case Some(i) =>
      SplitAtFirst(s, sep, i);
      Some((s[..i], s[i + |sep|..]))
  }

  /** Cutting at the first occurrence leaves a head without one. */
  lemma SplitAtFirst(s: string, sep: string, i: nat)
    requires |sep| > 0 && FindFrom(s, sep, 0) == Some(i)
    ensures i + |sep| <= |s| && s == s[..i] + sep + s[i + |sep|..]
    ensures !Contains(s[..i], sep)
  {
    CutAt(s, sep, i);
    NoneBefore(s, sep, i);
  }

  /** An occurrence cuts the text into what precedes it, the separator and
      what follows. */
  lemma CutAt(s: string, sep: string, i: nat)
    requires OccursAt(s, sep, i)
    ensures s == s[..i] + sep + s[i + |sep|..]
  {
    assert s == s[..i] + s[i..i + |sep|] + s[i + |sep|..];
  }

  /** A prefix ending before every occurrence contains none. */
  lemma NoneBefore(s: string, sep: string, i: nat)
    requires |sep| > 0 && i <= |s|
    requires forall k | 0 <= k < i :: !OccursAt(s, sep, k)
    ensures !Contains(s[..i], sep)
  {
    forall k | 0 <= k <= i ensures !OccursAt(s[..i], sep, k) {
      if k + |sep| <= i {
        assert !OccursAt(s, sep, k);
        assert s[..i][k..k + |sep|] == s[k..k + |sep|];
      }
    }
  }

  /** `split(sep, 1)` cuts at the first occurrence: when `s` is `a`, `sep`
      and `b` with no earlier occurrence, the two parts are `a` and `b`. */
  lemma SplitOnceAt(s: string, a: string, sep: string, b: string)
    requires |sep| > 0 && s == a + sep + b
    requires forall k | 0 <= k < |a| :: !OccursAt(s, sep, k)
    ensures SplitOnce(s, sep) == Some((a, b))
  {
    assert s[|a|..|a| + |sep|] == sep;
    assert OccursAt(s, sep, |a|);
    var r := SplitOnce(s, sep);
    var x := r.value.0;
    assert s[|x|..|x| + |sep|] == sep;
    assert OccursAt(s, sep, |x|);
    assert |x| == |a|;
    assert x == s[..|a|] == a;
  }

  /** An occurrence of `q` in `a + [c] + b` lies in `a` or in `b` when `q`
      does not contain the separating character `c`. */
  lemma ContainsAcross(a: string, c: char, b: string, q: string)
    requires c !in q
    ensures Contains(a + [c] + b, q) ==> Contains(a, q) || Contains(b, q)
  {
    var s := a + [c] + b;
    if !Contains(a, q) && !Contains(b, q) {
      forall k | 0 <= k <= |s| ensures !OccursAt(s, q, k) {
        if k + |q| <= |a| {
          assert s[k..k + |q|] == a[k..k + |q|];
          assert !OccursAt(a, q, k);
        } else if k > |a| {
          assert k + |q| <= |s| ==> s[k..k + |q|] == b[k - |a| - 1..k - |a| - 1 + |q|];
          assert !OccursAt(b, q, k - |a| - 1);
        } else {
          OccursIndex(s, q, k, |a| - k);
          assert s[|a|] == c;
        }
      }
    }
  }

  /** Length of the leading run of non-whitespace characters. */
  function TokenLength(s: string): (n: nat)
    ensures n <= |s| && (n < |s| ==> IsSpace(s[n]))
    ensures forall i | 0 <= i < n :: !IsSpace(s[i])
    decreases |s|
  {
    if s == [] || IsSpace(s[0]) then 0 else 1 + TokenLength(s[1..])
  }

  /** Python's `s.split()` with no argument. */
  function SplitSpaces(s: string): (parts: seq<string>)
    decreases |s|
  {
    var t := LStrip(s);
    if t == [] then [] else
    var n := TokenLength(t);
    [t[..n]] + SplitSpaces(t[n..])
  }

  /** A string with a non-whitespace character splits into at least one
      part, and the first part occurs in the string. */
  lemma LStripKeepsNonSpace(s: string)
    requires HasNonSpace(s)
    ensures LStrip(s) != []
  {
    var k :| 0 <= k < |s| && !IsSpace(s[k]);
  }

  lemma SplitSpacesHead(s: string)
    requires LStrip(s) != []
    ensures SplitSpaces(s) != [] && SplitSpaces(s)[0] == LStrip(s)[..TokenLength(LStrip(s))]
  {
  }

  lemma OccursContains(s: string, x: string, k: nat)
    requires OccursAt(s, x, k)
    ensures Contains(s, x)
  {
  }

  lemma FirstTokenOccurs(s: string)
    requires LStrip(s) != []
    ensures Contains(s, LStrip(s)[..TokenLength(LStrip(s))])
  {
    var t := LStrip(s);
    SuffixPrefixOccurs(s, |s| - |t|, TokenLength(t));
  }

  /** A prefix of a suffix of `s` occurs in `s`. */
  lemma SuffixPrefixOccurs(s: string, a: nat, n: nat)
    requires a + n <= |s|
    ensures Contains(s, s[a..][..n])
  {
    PrefixOfSuffix(s, a, n);
    OccursContains(s, s[a..][..n], a);
  }

  /** A string with a non-whitespace character splits into at least one
      part, and the first part occurs in the string. */
  lemma SplitSpacesFirst(s: string)
    requires HasNonSpace(s)
    ensures SplitSpaces(s) != [] && Contains(s, SplitSpaces(s)[0])
  {
    LStripKeepsNonSpace(s);
    SplitSpacesHead(s);
    FirstTokenOccurs(s);
  }

  /** `r` cannot combine with its surroundings into an occurrence of `q`:
      neither contains the other, no proper suffix of `r` starts `q` and no
      prefix of `r` ends `q`. */
  predicate Compatible(q: string, r: string) {
    && !Contains(r, q) && !Contains(q, r)
    && (forall j | 0 < j < |r| :: !StartsWith(q, r[j..]))
    && (forall j | 0 < j <= |r| && j < |q| :: !EndsWith(q, r[..j]))
  }

  lemma StartsWithOccurs(s: string, p: string)
    ensures StartsWith(s, p) <==> OccursAt(s, p, 0)
  {
  }

  lemma OccursShift(s: string, p: string, i: nat)
    requires s != []
    ensures OccursAt(s[1..], p, i) <==> OccursAt(s, p, i + 1)
  {
    if 0 <= i && i + |p| <= |s| - 1 {
      assert s[1..][i..i + |p|] == s[i + 1..i + 1 + |p|];
    }
  }

  /** Up to the first occurrence of `p`, `Replace` copies its input. */
  lemma {:induction false} ReplacePrefix(s: string, p: string, r: string, j: nat)
    requires |p| > 0 && j <= |s|
    requires forall i | 0 <= i < j :: !OccursAt(s, p, i)
    ensures Replace(s, p, r) == s[..j] + Replace(s[j..], p, r)
    decreases j
  {
    if j > 0 {
      assert !OccursAt(s, p, 0);
      StartsWithOccurs(s, p);
      assert Replace(s, p, r) == [s[0]] + Replace(s[1..], p, r);
      forall i | 0 <= i < j - 1 ensures !OccursAt(s[1..], p, i) {
        OccursShift(s, p, i);
      }
      ReplacePrefix(s[1..], p, r, j - 1);
      assert s[1..][j - 1..] == s[j..];
      assert [s[0]] + s[1..][..j - 1] == s[..j];
      ConcatAssoc([s[0]], s[1..][..j - 1], Replace(s[j..], p, r));
    }
  }

  /** An occurrence of `q` in `s[..m] + r + tail` starting before `r`. */
  lemma SpliceLeft(s: string, m: nat, r: string, tail: string, q: string, k: nat)
    requires m <= |s| && |q| > 0 && k < m
    ensures OccursAt(s[..m] + r + tail, q, k) ==>
      if k + |q| <= m then OccursAt(s, q, k)
      else if |q| - (m - k) <= |r| then EndsWith(q, r[..|q| - (m - k)])
      else OccursAt(q, r, m - k)
  {
    var out := s[..m] + r + tail;
    if OccursAt(out, q, k) {
      assert forall i | 0 <= i < |q| :: q[i] == out[k + i];
      if k + |q| <= m {
        assert s[k..k + |q|] == out[k..k + |q|];
      } else if |q| - (m - k) <= |r| {
        var j := |q| - (m - k);
        assert q[|q| - j..] == r[..j] by {
          forall i | 0 <= i < j ensures q[|q| - j..][i] == r[..j][i] {
            assert q[|q| - j + i] == out[m + i];
          }
        }
      } else {
        var d := m - k;
        assert q[d..d + |r|] == r by {
          forall i | 0 <= i < |r| ensures q[d..d + |r|][i] == r[i] {
            assert q[d + i] == out[m + i];
          }
        }
      }
    }
  }

  /** An occurrence of `q` in `s[..m] + r + tail` starting inside `r`. */
  lemma SpliceMiddle(s: string, m: nat, r: string, tail: string, q: string, k: nat)
    requires m <= |s| && |q| > 0 && m <= k < m + |r|
    ensures OccursAt(s[..m] + r + tail, q, k) ==>
      if k + |q| <= m + |r| then OccursAt(r, q, k - m)
      else if k == m then OccursAt(q, r, 0)
      else StartsWith(q, r[k - m..])
  {
    var out := s[..m] + r + tail;
    if OccursAt(out, q, k) {
      assert forall i | 0 <= i < |q| :: q[i] == out[k + i];
      var e := k - m;
      if k + |q| <= m + |r| {
        assert r[e..e + |q|] == q by {
          forall i | 0 <= i < |q| ensures r[e..e + |q|][i] == q[i] {
            assert q[i] == out[k + i];
          }
        }
      } else {
        assert q[..|r| - e] == r[e..] by {
          forall i | 0 <= i < |r| - e ensures q[..|r| - e][i] == r[e..][i] {
            assert q[i] == out[k + i];
          }
        }
      }
    }
  }

  /** An occurrence of `q` in `s[..m] + r + tail` starting after `r`. */
  lemma SpliceRight(s: string, m: nat, r: string, tail: string, q: string, k: nat)
    requires m <= |s| && |q| > 0 && m + |r| <= k
    ensures OccursAt(s[..m] + r + tail, q, k) ==> OccursAt(tail, q, k - m - |r|)
  {
    var out := s[..m] + r + tail;
    if OccursAt(out, q, k) {
      var t := k - m - |r|;
      assert tail[t..t + |q|] == q by {
        forall i | 0 <= i < |q| ensures tail[t..t + |q|][i] == q[i] {
          assert out[k..k + |q|][i] == q[i];
        }
      }
    }
  }

  /** One position of `s[..m] + r + tail` where `q` cannot start. */
  lemma NotAtSplice(s: string, m: nat, r: string, tail: string, q: string, k: nat, self: bool, p: string)
    requires m <= |s| && |q| > 0 && Compatible(q, r)
    requires self ==> q == p && forall i | 0 <= i < m :: !OccursAt(s, p, i)
    requires !self ==> !Contains(s, q)
    requires !Contains(tail, q)
    ensures !OccursAt(s[..m] + r + tail, q, k)
  {
    if k < m {
      SpliceLeft(s, m, r, tail, q, k);
    } else if k < m + |r| {
      SpliceMiddle(s, m, r, tail, q, k);
    } else {
      SpliceRight(s, m, r, tail, q, k);
    }
  }

  /** Replacing every `p` by `r` leaves no `q` behind, either because `q` is
      `p` itself or because `q` was absent to begin with, provided `r` is
      compatible with `q`. */
  lemma {:induction false} ReplaceAvoids(s: string, p: string, r: string, q: string, self: bool)
    requires |p| > 0 && |q| > 0 && Compatible(q, r)
    requires self ==> q == p
    requires !self ==> !Contains(s, q)
    ensures !Contains(Replace(s, p, r), q)
    decreases |s|
  {
    match FindFrom(s, p, 0)
    case None =>
      ReplacePrefix(s, p, r, |s|);
      assert Replace(s, p, r) == s;
      if self {
        ContainsFind(s, p);
      }
    case Some(m) =>
      ReplaceAtFirst(s, p, r, m);
      var rest := s[m + |p|..];
      if !self {
        AbsentInSuffix(s, q, m + |p|);
      }
      ReplaceAvoids(rest, p, r, q, self);
      SpliceAvoids(s, m, r, Replace(rest, p, r), q, self, p);
  }

  /** `replace` copies the text before the first occurrence, writes `r`
      in its place and goes on after it. */
  lemma ReplaceAtFirst(s: string, p: string, r: string, m: nat)
    requires |p| > 0 && FindFrom(s, p, 0) == Some(m)
    ensures m + |p| <= |s|
    ensures Replace(s, p, r) == s[..m] + r + Replace(s[m + |p|..], p, r)
  {
    ReplacePrefix(s, p, r, m);
    OccursStarts(s, p, m);
    ReplaceAtStart(s[m..], p, r);
    assert s[m..][|p|..] == s[m + |p|..];
    ConcatAssoc(s[..m], r, Replace(s[m + |p|..], p, r));
  }

  /** Concatenation is associative; stated once so that proofs about
      texts built piece by piece can regroup without unfolding. */
  lemma ConcatAssoc(a: string, b: string, c: string)
    ensures a + (b + c) == a + b + c
  {
  }

  /** An occurrence at `m` starts the text from `m`. */
  lemma OccursStarts(s: string, p: string, m: nat)
    requires OccursAt(s, p, m)
    ensures StartsWith(s[m..], p)
  {
    PrefixOfSuffix(s, m, |p|);
    StartsWithOccurs(s[m..], p);
  }

  /** `replace` on a text that starts with `p`. */
  lemma ReplaceAtStart(t: string, p: string, r: string)
    requires |p| > 0 && StartsWith(t, p)
    ensures |p| <= |t| && Replace(t, p, r) == r + Replace(t[|p|..], p, r)
  {
  }

  /** What does not occur in `s` does not occur in a suffix of it. */
  lemma AbsentInSuffix(s: string, q: string, a: nat)
    requires a <= |s| && !Contains(s, q)
    ensures !Contains(s[a..], q)
  {
    var rest := s[a..];
    forall k | 0 <= k <= |rest| ensures !OccursAt(rest, q, k) {
      if OccursAt(rest, q, k) {
        assert s[a + k..a + k + |q|] == rest[k..k + |q|];
        assert OccursAt(s, q, a + k);
      }
    }
  }

  /** No position of `s[..m] + r + tail` starts a `q`. */
  lemma SpliceAvoids(s: string, m: nat, r: string, tail: string, q: string, self: bool, p: string)
    requires m <= |s| && |q| > 0 && Compatible(q, r)
    requires self ==> q == p && forall i | 0 <= i < m :: !OccursAt(s, p, i)
    requires !self ==> !Contains(s, q)
    requires !Contains(tail, q)
    ensures !Contains(s[..m] + r + tail, q)
  {
    var out := s[..m] + r + tail;
    forall k | 0 <= k <= |out| ensures !OccursAt(out, q, k) {
      NotAtSplice(s, m, r, tail, q, k, self, p);
    }
  }

  /** Characters of an occurrence are characters of the text. */
  lemma OccursIndex(s: string, p: string, k: int, i: nat)
    requires i < |p|
    ensures OccursAt(s, p, k) ==> 0 <= k + i < |s| && s[k + i] == p[i]
  {
    if OccursAt(s, p, k) {
      assert s[k..k + |p|][i] == p[i];
    }
  }

  /** No position `d > 0` of `s` holds `a` followed by `b` (or `a` last). */
  predicate PairFreeFrom(s: string, a: char, b: char) {
    forall d | 0 < d < |s| :: s[d] != a || (d + 1 < |s| && s[d + 1] != b)
  }

  /** A check for `Compatible` that only looks at single characters and
      adjacent pairs: a character `c` of `q` missing from `r`, a position `t`
      where the two differ, and the first pair of each occurring in the
      other only at position 0. */
  lemma CompatibleByPairs(q: string, r: string, c: char, t: nat)
    requires 2 <= |q| && 2 <= |r|
    requires c in q && c !in r
    requires t < |q| && t < |r| && q[t] != r[t]
    requires PairFreeFrom(q, r[0], r[1]) && PairFreeFrom(r, q[0], q[1])
    ensures Compatible(q, r)
  {
    var i :| 0 <= i < |q| && q[i] == c;
    forall k | 0 <= k <= |r| ensures !OccursAt(r, q, k) {
      OccursIndex(r, q, k, i);
    }
    forall d | 0 <= d <= |q| ensures !OccursAt(q, r, d) {
      OccursIndex(q, r, d, 0);
      OccursIndex(q, r, d, 1);
      OccursIndex(q, r, d, t);
    }
    forall j | 0 < j < |r| ensures !StartsWith(q, r[j..]) {
      StartsWithOccurs(q, r[j..]);
      OccursIndex(q, r[j..], 0, 0);
      if j + 1 < |r| {
        OccursIndex(q, r[j..], 0, 1);
      }
    }
    forall j | 0 < j <= |r| && j < |q| ensures !EndsWith(q, r[..j]) {
      assert EndsWith(q, r[..j]) <==> OccursAt(q, r[..j], |q| - j);
      OccursIndex(q, r[..j], |q| - j, 0);
      if 1 < j {
        OccursIndex(q, r[..j], |q| - j, 1);
      }
    }
  }

  /** A check for `Compatible` when `r` starts and ends with characters
      that `q` never uses and `q` uses a character `c` that `r` does not. */
  lemma CompatibleByEnds(q: string, r: string, c: char)
    requires r != [] && r[0] !in q && r[|r| - 1] !in q
    requires c in q && c !in r
    ensures Compatible(q, r)
  {
    var i :| 0 <= i < |q| && q[i] == c;
    forall k | 0 <= k <= |r| ensures !OccursAt(r, q, k) {
      OccursIndex(r, q, k, i);
    }
    forall d | 0 <= d <= |q| ensures !OccursAt(q, r, d) {
      OccursIndex(q, r, d, 0);
    }
    forall j | 0 < j < |r| ensures !StartsWith(q, r[j..]) {
      StartsWithOccurs(q, r[j..]);
      OccursIndex(q, r[j..], 0, |r| - j - 1);
    }
    forall j | 0 < j <= |r| && j < |q| ensures !EndsWith(q, r[..j]) {
      assert EndsWith(q, r[..j]) <==> OccursAt(q, r[..j], |q| - j);
      OccursIndex(q, r[..j], |q| - j, 0);
    }
  }

  /** Text whose only whitespace is single blanks away from both ends is
      left alone by the `\s+` collapse and `strip()`. */
  lemma {:induction false} SqueezeFixed(s: string)
    requires NoAdjacentSpaces(s)
    requires forall i | 0 <= i < |s| :: IsSpace(s[i]) ==> s[i] == ' '
    ensures SqueezeSpaces(s) == s
    decreases |s|
  {
    if s != [] {
      SingleBlanksTail(s);
      SqueezeFixed(s[1..]);
      if IsSpace(s[0]) {
        LStripOneSpace(s);
        assert s == " " + s[1..];
      } else {
        assert s == [s[0]] + s[1..];
      }
    }
  }

  /** Dropping the first character keeps blanks single and plain. */
  lemma SingleBlanksTail(s: string)
    requires s != [] && NoAdjacentSpaces(s)
    requires forall i | 0 <= i < |s| :: IsSpace(s[i]) ==> s[i] == ' '
    ensures NoAdjacentSpaces(s[1..])
    ensures forall i | 0 <= i < |s[1..]| :: IsSpace(s[1..][i]) ==> s[1..][i] == ' '
  {
    forall i | 0 <= i < |s[1..]| - 1 ensures !(IsSpace(s[1..][i]) && IsSpace(s[1..][i + 1])) {
      assert s[1..][i] == s[i + 1] && s[1..][i + 1] == s[i + 2];
    }
    forall i | 0 <= i < |s[1..]| ensures IsSpace(s[1..][i]) ==> s[1..][i] == ' ' {
      assert s[1..][i] == s[i + 1];
    }
  }

  /** A single leading space is all `LStrip` removes when a non-space follows. */
  lemma LStripOneSpace(s: string)
    requires s != [] && IsSpace(s[0]) && NoAdjacentSpaces(s)
    ensures LStrip(s) == s[1..]
  {
    assert LStrip(s) == LStrip(s[1..]);
    if |s| > 1 {
      assert !IsSpace(s[1..][0]) by { assert !(IsSpace(s[0]) && IsSpace(s[1])); }
    }
  }

  lemma NormalizeFixed(s: string)
    requires NoAdjacentSpaces(s)
    requires forall i | 0 <= i < |s| :: IsSpace(s[i]) ==> s[i] == ' '
    requires s != [] ==> !IsSpace(s[0]) && !IsSpace(s[|s| - 1])
    ensures NormalizeSpaces(s) == s
  {
    SqueezeFixed(s);
    assert LStrip(s) == s;
    assert RStrip(s) == s;
  }

  lemma StartsWithIndex(s: string, p: string, i: nat)
    ensures StartsWith(s, p) && i < |p| ==> s[i] == p[i]
  {
    if StartsWith(s, p) && i < |p| {
      assert s[..|p|][i] == p[i];
    }
  }

  lemma StartsWithAppend(s: string, t: string, p: string)
    ensures StartsWith(s, p) ==> StartsWith(s + t, p)
  {
    if StartsWith(s, p) {
      assert (s + t)[..|p|] == s[..|p|];
    }
  }

  /** When `p` cannot overlap itself (its first character does not recur),
      an occurrence at the very end of the text is replaced. */
  lemma {:induction false} ReplaceSuffix(a: string, p: string, r: string)
    requires |p| > 0 && forall i | 0 < i < |p| :: p[i] != p[0]
    ensures Replace(a + p, p, r) == Replace(a, p, r) + r
    decreases |a|
  {
    if a == [] {
      assert [] + p == p;
      assert p[|p|..] == [];
    } else if StartsWith(a + p, p) {
      StartsWithIndex(a + p, p, |a|);
      assert |a| >= |p|;
      assert StartsWith(a, p) by {
        assert a[..|p|] == (a + p)[..|p|];
      }
      assert (a + p)[|p|..] == a[|p|..] + p;
      ReplaceSuffix(a[|p|..], p, r);
    } else {
      StartsWithAppend(a, p, p);
      assert !StartsWith(a, p);
      assert (a + p)[1..] == a[1..] + p;
      ReplaceSuffix(a[1..], p, r);
    }
  }

  predicate NoSpaceIn(s: string) {
    forall i | 0 <= i < |s| :: !IsSpace(s[i])
  }

  /** Two words joined by one blank are already normalised. */
  lemma NormalizeTwoWords(a: string, b: string)
    requires a != [] && b != [] && NoSpaceIn(a) && NoSpaceIn(b)
    ensures NormalizeSpaces(a + " " + b) == a + " " + b
  {
    var s := a + " " + b;
    forall i | 0 <= i < |s| ensures IsSpace(s[i]) ==> i == |a| {
      if i < |a| {
        assert s[i] == a[i];
      } else if i > |a| {
        assert s[i] == b[i - |a| - 1];
      }
    }
    NormalizeFixed(s);
  }

  /** A decimal digit. */
  predicate IsDigit(c: char) {
    '0' <= c <= '9'
  }

  /** Python's `str(n)` for a non-negative integer: decimal digits, with no
      leading zero except for `0` itself. */
  function NatToDecimal(n: nat): (s: string)
    ensures |s| > 0 && forall i | 0 <= i < |s| :: IsDigit(s[i])
    ensures s[0] == '0' ==> n == 0
    decreases n
  {
    var last := [('0' as int + n % 10) as char];
    if n < 10 then last else NatToDecimal(n / 10) + last
  }

  /** The value of a string of decimal digits. */
  function DecimalValue(s: string): nat
    requires forall i | 0 <= i < |s| :: IsDigit(s[i])
  {
    if s == [] then 0
    else
      assert IsDigit(s[|s| - 1]);
      DecimalValue(s[..|s| - 1]) * 10 + (s[|s| - 1] as int - '0' as int)
  }

  /** Reading the digits back gives the number. */
  lemma {:induction false} DecimalRoundTrip(n: nat)
    ensures DecimalValue(NatToDecimal(n)) == n
    decreases n
  {
    var s := NatToDecimal(n);
    if n >= 10 {
      DecimalRoundTrip(n / 10);
      assert s[..|s| - 1] == NatToDecimal(n / 10);
    }
  }

  /** Two numbers with the same decimal text are equal. */
  lemma DecimalInjective(a: nat, b: nat)
    ensures NatToDecimal(a) == NatToDecimal(b) ==> a == b
  {
    DecimalRoundTrip(a);
    DecimalRoundTrip(b);
  }

  /** The sum of a sequence of counts. */
  function Sum(xs: seq<nat>): nat
    decreases |xs|
  {
    if xs == [] then 0 else Sum(xs[..|xs| - 1]) + xs[|xs| - 1]
  }

  lemma SumPrefix(xs: seq<nat>, i: nat)
    requires i < |xs|
    ensures Sum(xs[..i + 1]) == Sum(xs[..i]) + xs[i]
  {
    assert xs[..i + 1][..i] == xs[..i];
  }
}
