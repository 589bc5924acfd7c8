/**
 * The two `os.path` functions the tabs use on file names, `basename` and
 * `splitext`, for both path flavours Python ships: Posix (`/` only) and
 * Windows (`\` and `/`, with an optional `X:` drive prefix).
 */
module Paths {

  datatype Host = Posix | Windows

  predicate IsSep(h: Host, c: char) {
    c == '/' || (h == Windows && c == '\\')
  }

  /** Length of the drive prefix `splitdrive` strips before `split` looks
      for separators: `X:` on Windows, nothing on Posix. */
  function DriveLength(h: Host, p: string): (n: nat)
    ensures n <= |p|
  {
    if h == Windows && |p| >= 2 && p[1] == ':' && !IsSep(h, p[0]) then 2 else 0
  }

  /** Where `split` cuts `p`: just after the last separator at or after
      `d`, or at `d` when there is none. */
  function CutFrom(h: Host, p: string, d: nat, i: nat): (n: nat)
    requires d <= i <= |p|
    ensures d <= n <= i
    ensures forall k | n <= k < i :: !IsSep(h, p[k])
    ensures n > d ==> IsSep(h, p[n - 1])
    decreases i
  {
    if i == d then d
    else if IsSep(h, p[i - 1]) then i
    else CutFrom(h, p, d, i - 1)
  }

  function HeadLength(h: Host, p: string): (n: nat)
    ensures n <= |p|
  {
    CutFrom(h, p, DriveLength(h, p), |p|)
  }

  /** Python's `os.path.basename`. */
  function Basename(h: Host, p: string): (b: string)
  {
    p[HeadLength(h, p)..]
  }

  /** The base name is the part of `p` after its directory: it holds no
      separator, and the character before it is a separator or the end of
      a drive prefix. */
  lemma BasenameShape(h: Host, p: string)
    ensures p == p[..HeadLength(h, p)] + Basename(h, p)
    ensures forall k | 0 <= k < |Basename(h, p)| :: !IsSep(h, Basename(h, p)[k])
    ensures HeadLength(h, p) > 0 ==>
      IsSep(h, p[HeadLength(h, p) - 1]) || HeadLength(h, p) == DriveLength(h, p) == 2
  {
    var n := HeadLength(h, p);
    forall k | 0 <= k < |p| - n ensures !IsSep(h, Basename(h, p)[k]) {
      assert Basename(h, p)[k] == p[n + k];
    }
  }

  /** A name without separators (and, on Windows, without a drive) is its
      own base name. */
  lemma BasenameOfName(h: Host, name: string)
    requires forall k | 0 <= k < |name| :: !IsSep(h, name[k])
    requires DriveLength(h, name) == 0
    ensures Basename(h, name) == name
  {
  }

  /** Index of the last character of `p` before position `i` satisfying
      `IsSep` (`sep`) or equal to `.` (`!sep`), or -1. */
  function LastIndex(h: Host, p: string, i: nat, sep: bool): (k: int)
    requires i <= |p|
    ensures -1 <= k < i
    ensures k >= 0 ==> (if sep then IsSep(h, p[k]) else p[k] == '.')
    ensures forall j | k < j < i :: if sep then !IsSep(h, p[j]) else p[j] != '.'
    decreases i
  {
    if i == 0 then -1
    else if (if sep then IsSep(h, p[i - 1]) else p[i - 1] == '.') then i - 1
    else LastIndex(h, p, i - 1, sep)
  }

  /** Python's `os.path.splitext` (`genericpath._splitext`): the extension
      starts at the last dot after the last separator, unless everything
      between that separator and the dot is dots. */
  function SplitExt(h: Host, p: string): (string, string)
  {
    var s := LastIndex(h, p, |p|, true);
    var d := LastIndex(h, p, |p|, false);
    if d > s && exists j | s + 1 <= j < d :: p[j] != '.' then (p[..d], p[d..])
    else (p, [])
  }

  /** `splitext` cuts `p` in two; a non-empty extension is a dot followed by
      neither dots nor separators, preceded by a file name that is not all
      dots; an empty one means there is no such dot. */
  lemma {:induction false} SplitExtShape(h: Host, p: string)
    ensures SplitExt(h, p).0 + SplitExt(h, p).1 == p
    ensures var ext := SplitExt(h, p).1;
      ext != [] ==> ext[0] == '.' && forall k | 1 <= k < |ext| :: ext[k] != '.' && !IsSep(h, ext[k])
    ensures var (root, ext) := SplitExt(h, p);
      ext != [] ==> exists j | LastIndex(h, p, |p|, true) + 1 <= j < |root| :: root[j] != '.'
    ensures SplitExt(h, p).1 == [] <==>
      forall d | LastIndex(h, p, |p|, true) < d < |p| && p[d] == '.' ::
        forall j | LastIndex(h, p, |p|, true) < j < d :: p[j] == '.'
  {
    var s := LastIndex(h, p, |p|, true);
    var d := LastIndex(h, p, |p|, false);
    var (root, ext) := SplitExt(h, p);
    if ext != [] {
      assert d > s;
      forall k | 1 <= k < |ext| ensures ext[k] != '.' && !IsSep(h, ext[k]) {
        assert ext[k] == p[d + k];
      }
      var j :| s + 1 <= j < d && p[j] != '.';
      assert root[j] == p[j];
      assert !(p[d] == '.' ==> forall j' | s < j' < d :: p[j'] == '.');
    }
  }

  predicate Hit(h: Host, c: char, sep: bool) {
    if sep then IsSep(h, c) else c == '.'
  }

  /** Characters that do not match leave the search result alone. */
  lemma {:induction false} LastIndexSkip(h: Host, p: string, i: nat, j: nat, sep: bool)
    requires i <= j <= |p|
    requires forall k | i <= k < j :: !Hit(h, p[k], sep)
    ensures LastIndex(h, p, j, sep) == LastIndex(h, p, i, sep)
    decreases j
  {
    if j > i {
      assert !Hit(h, p[j - 1], sep);
      LastIndexSkip(h, p, i, j - 1, sep);
    }
  }

  /** The search below `i` only looks at the first `i` characters. */
  lemma {:induction false} LastIndexPrefix(h: Host, p: string, q: string, i: nat, sep: bool)
    requires i <= |p| && i <= |q| && p[..i] == q[..i]
    ensures LastIndex(h, p, i, sep) == LastIndex(h, q, i, sep)
    decreases i
  {
    if i > 0 {
      assert p[i - 1] == p[..i][i - 1] == q[..i][i - 1] == q[i - 1];
      assert p[..i - 1] == p[..i][..i - 1];
      assert q[..i - 1] == q[..i][..i - 1];
      LastIndexPrefix(h, p, q, i - 1, sep);
    }
  }

  /** A suffix of `p` without separators and colons (so it cannot reach back
      into a drive prefix) is a suffix of the base name too. */
  lemma BasenameEnds(h: Host, p: string, x: string)
    requires |x| <= |p| && p[|p| - |x|..] == x
    requires forall k | 0 <= k < |x| :: !IsSep(h, x[k]) && x[k] != ':'
    ensures |x| <= |Basename(h, p)| && Basename(h, p)[|Basename(h, p)| - |x|..] == x
  {
    var n := HeadLength(h, p);
    var d := DriveLength(h, p);
    var m := |p| - |x|;
    assert forall k | m <= k < |p| :: !IsSep(h, p[k]) && p[k] != ':' by {
      forall k | m <= k < |p| ensures !IsSep(h, p[k]) && p[k] != ':' {
        assert p[k] == x[k - m];
      }
    }
    assert n <= m;
    assert Basename(h, p)[|Basename(h, p)| - |x|..] == p[m..];
  }

  /** Inserting a marker without dots or separators just before the
      extension (or at the end, when there is none) extends the root and
      keeps the extension: `splitext(root + marker + ext)`. */
  lemma SplitExtInsert(h: Host, p: string, m: string)
    requires m != [] && m[0] != '.'
    requires forall k | 0 <= k < |m| :: m[k] != '.' && !IsSep(h, m[k])
    ensures var (root, ext) := SplitExt(h, p);
      SplitExt(h, root + m + ext) == (root + m, ext)
  {
    SplitExtShape(h, p);
    if SplitExt(h, p).1 == [] {
      assert SplitExt(h, p).0 == p;
      assert p + m + [] == p + m;
      SplitExtAppend(h, p, m);
    } else {
      SplitExtInsertSome(h, p, m);
    }
  }

  lemma SplitExtAppend(h: Host, p: string, m: string)
    requires forall k | 0 <= k < |m| :: m[k] != '.' && !IsSep(h, m[k])
    requires SplitExt(h, p) == (p, [])
    ensures SplitExt(h, p + m) == (p + m, [])
  {
    var c := p + m;
    var s := LastIndex(h, p, |p|, true);
    var d := LastIndex(h, p, |p|, false);
    assert c[..|p|] == p[..|p|];
    forall k | |p| <= k < |c| ensures !Hit(h, c[k], true) && !Hit(h, c[k], false) {
      assert c[k] == m[k - |p|];
    }
    LastIndexSkip(h, c, |p|, |c|, true);
    LastIndexSkip(h, c, |p|, |c|, false);
    LastIndexPrefix(h, c, p, |p|, true);
    LastIndexPrefix(h, c, p, |p|, false);
    assert forall j | 0 <= j < |p| :: c[j] == p[j];
  }

  /** In `root + m + ext`, with `root + ext` splitting into `root` and a
      non-empty `ext`: the last separator is still the one in `root`, and
      the last dot is the one opening `ext`. */
  lemma InsertSearches(h: Host, root: string, m: string, ext: string, s: int)
    requires ext != [] && ext[0] == '.'
    requires forall k | 1 <= k < |ext| :: ext[k] != '.' && !IsSep(h, ext[k])
    requires forall k | 0 <= k < |m| :: m[k] != '.' && !IsSep(h, m[k])
    requires s == LastIndex(h, root + ext, |root + ext|, true) && s < |root|
    ensures LastIndex(h, root + m + ext, |root + m + ext|, true) == s
    ensures LastIndex(h, root + m + ext, |root + m + ext|, false) == |root| + |m|
  {
    var p, c := root + ext, root + m + ext;
    var d, e := |root|, |root| + |m|;
    assert c[e] == '.';
    forall k | e < k < |c| ensures !Hit(h, c[k], false) {
      assert c[k] == ext[k - e];
    }
    LastIndexSkip(h, c, e + 1, |c|, false);
    forall k | d <= k < |c| ensures !Hit(h, c[k], true) {
      if k < e {
        assert c[k] == m[k - d];
      } else {
        assert c[k] == ext[k - e];
      }
    }
    LastIndexSkip(h, c, d, |c|, true);
    assert c[..d] == p[..d];
    LastIndexPrefix(h, c, p, d, true);
    assert !Hit(h, p[d], true);
    forall k | d <= k < |p| ensures !Hit(h, p[k], true) {
      assert p[k] == ext[k - d];
    }
    LastIndexSkip(h, p, d, |p|, true);
  }

  lemma SplitExtInsertSome(h: Host, p: string, m: string)
    requires m != [] && m[0] != '.'
    requires forall k | 0 <= k < |m| :: m[k] != '.' && !IsSep(h, m[k])
    requires SplitExt(h, p).1 != []
    ensures var (root, ext) := SplitExt(h, p);
      SplitExt(h, root + m + ext) == (root + m, ext)
  {
    SplitExtShape(h, p);
    var (root, ext) := SplitExt(h, p);
    var s := LastIndex(h, p, |p|, true);
    assert root + ext == p;
    assert |root| == LastIndex(h, p, |p|, false) > s;
    InsertSearches(h, root, m, ext, s);
    var c := root + m + ext;
    var e := |root| + |m|;
    assert c[|root|] == m[0];
    assert c[..e] == root + m;
    assert c[e..] == ext;
  }
}
