/**
 * The text-level rules of the "Archive Project" tab: which strings it
 * reports as absolute paths and under which heading, the new size of an
 * image that is too large, the credential stripper it runs over the
 * exported project, and the conversion of CSV layer sources to paths
 * relative to the archive folder.
 */
module ArchiveProject {
  import opened Text
  import opened Paths

  // ---------------------------------------------------------------------
  // Credential stripping (`_clean_credentials_from_content`)
  // ---------------------------------------------------------------------

  /** Index of the first whitespace character of `s` at or after `i`, or
      `|s|`: how far `[^\s]+` reaches from `i`. */
  function NonSpaceEnd(s: string, i: nat): (k: nat)
    requires i <= |s|
    ensures i <= k <= |s|
    ensures k < |s| ==> IsSpace(s[k])
    ensures forall j | i <= j < k :: !IsSpace(s[j])
    decreases |s| - i
  {
    if i == |s| || IsSpace(s[i]) then i else NonSpaceEnd(s, i + 1)
  }

  lemma QuoteNotSpace(c: char)
    ensures IsQuote(c) ==> !IsSpace(c)
  {
  }

  /** End of a credential value starting at `i`: a quoted value
      `['"][^'"]*['"]` when `quoted`, a bare one `[^\s]+` otherwise.  A
      value always starts with a non-whitespace character. */
  function ValueEnd(s: string, i: nat, quoted: bool): (r: Option<nat>)
    requires i <= |s|
    ensures r.Some? ==> i < r.value <= |s| && !IsSpace(s[i])
  {
    QuoteNotSpace(if i < |s| then s[i] else ' ');
    if quoted then
      if i < |s| && IsQuote(s[i]) then
        var c := FirstQuote(s, i + 1);
        if c < |s| then Some(c + 1) else None
      else None
    else
      var e := NonSpaceEnd(s, i);
      if e > i then Some(e) else None
  }

  /** The three ways the tab frames a `KEY=value` pair: with the
      whitespace before it (`\s+KEY V`), with the whitespace after it
      (`KEY V\s+`), or alone (`KEY V`). */
  datatype Shape = Lead | Trail | Bare

  /** End of the match of the pattern for (`key`, `shape`, `quoted`)
      starting at `i`, if one starts there.  Because the key does not
      start with whitespace, the leading `\s+` takes the whole run of
      whitespace and the trailing one all whitespace after the value. */
  function MatchEnd(s: string, i: nat, key: string, shape: Shape, quoted: bool): (r: Option<nat>)
    requires i <= |s|
    ensures r.Some? ==> i < r.value <= |s|
  {
    match shape
    case Lead =>
      if i < |s| && IsSpace(s[i]) then
        var w := SkipSpaces(s, i);
        if OccursAt(s, key, w) then ValueEnd(s, w + |key|, quoted) else None
      else None
    case Trail =>
      if OccursAt(s, key, i) then
        match ValueEnd(s, i + |key|, quoted)
        case Some(e) => if e < |s| && IsSpace(s[e]) then Some(SkipSpaces(s, e)) else None
        case None => None
      else None
    case Bare =>
      if OccursAt(s, key, i) then ValueEnd(s, i + |key|, quoted) else None
  }

  /** `re.sub(pattern, '', s[i..])`: scanning left to right, each match is
      removed and the scan resumes after it; one character is kept where
      no match starts. */
  function Remove(s: string, i: nat, key: string, shape: Shape, quoted: bool): string
    requires i <= |s|
    decreases |s| - i
  {
    if i == |s| then []
    else match MatchEnd(s, i, key, shape, quoted)
      case Some(e) => Remove(s, e, key, shape, quoted)
      case None => [s[i]] + Remove(s, i + 1, key, shape, quoted)
  }

  /** The six substitutions the tab runs for one key, in its order. */
  function StripKey(s: string, key: string): string {
    var s1 := Remove(s, 0, key, Lead, true);
    var s2 := Remove(s1, 0, key, Lead, false);
    var s3 := Remove(s2, 0, key, Trail, true);
    var s4 := Remove(s3, 0, key, Trail, false);
    var s5 := Remove(s4, 0, key, Bare, true);
    Remove(s5, 0, key, Bare, false)
  }

  const UserKey := "user="
  const PasswordKey := "password="

  /** The cleaned project text: user credentials first, then passwords. */
  function CleanCredentials(content: string): string {
    StripKey(StripKey(content, UserKey), PasswordKey)
  }

  /** Start of a `re.findall(r"KEY['\"][^'\"]*['\"]|KEY[^\s]+", ...)`
      match at `i`: the quoted alternative is tried first. */
  function FindEnd(s: string, i: nat, key: string): (r: Option<nat>)
    requires i <= |s|
    ensures r.Some? ==> i < r.value <= |s|
  {
    if OccursAt(s, key, i) then
      match ValueEnd(s, i + |key|, true)
      case Some(e) => Some(e)
      case None => ValueEnd(s, i + |key|, false)
    else None
  }

  /** Number of non-overlapping `findall` matches in `s[i..]`. */
  function CountValues(s: string, i: nat, key: string): nat
    requires i <= |s|
    decreases |s| - i
  {
    if i == |s| then 0
    else match FindEnd(s, i, key)
      case Some(e) => 1 + CountValues(s, e, key)
      case None => CountValues(s, i + 1, key)
  }

  /** The change count: user matches in the input plus password matches
      in the text the user passes left. */
  function CredentialCount(content: string): nat {
    CountValues(content, 0, UserKey) + CountValues(StripKey(content, UserKey), 0, PasswordKey)
  }

  /** `key` at `k` followed by a non-whitespace character: the start of a
      credential value. */
  predicate ValueAt(s: string, k: int, key: string) {
    OccursAt(s, key, k) && k + |key| < |s| && !IsSpace(s[k + |key|])
  }

  predicate NoValue(s: string, key: string) {
    forall k | 0 <= k < |s| :: !ValueAt(s, k, key)
  }

  lemma KeyFacts()
    ensures UserKey != [] && NoSpaceIn(UserKey)
    ensures PasswordKey != [] && NoSpaceIn(PasswordKey)
  {
    WordNoSpace(UserKey);
    WordNoSpace(PasswordKey);
  }

  /** Lower-case letters and `=` are not whitespace. */
  lemma WordNoSpace(s: string)
    requires forall i | 0 <= i < |s| :: 'a' <= s[i] <= 'z' || s[i] == '='
    ensures NoSpaceIn(s)
  {
  }

  /** `findall` finds a match at `i` exactly when a value starts there. */
  lemma FindEndValue(s: string, i: nat, key: string)
    requires i <= |s|
    ensures FindEnd(s, i, key).Some? <==> ValueAt(s, i, key)
  {
    if ValueAt(s, i, key) {
      assert NonSpaceEnd(s, i + |key|) > i + |key|;
    }
  }

  /** The bare unquoted pattern matches at `i` exactly when a value
      starts there. */
  lemma BareMatchValue(s: string, i: nat, key: string)
    requires i <= |s|
    ensures MatchEnd(s, i, key, Bare, false).Some? <==> ValueAt(s, i, key)
  {
    if ValueAt(s, i, key) {
      assert NonSpaceEnd(s, i + |key|) > i + |key|;
    }
  }

  /** The count is zero exactly when no value follows the key anywhere in
      `s[i..]`. */
  lemma {:induction false} CountZero(s: string, i: nat, key: string)
    requires i <= |s|
    ensures CountValues(s, i, key) == 0 <==> forall k | i <= k < |s| :: !ValueAt(s, k, key)
    decreases |s| - i
  {
    if i < |s| {
      FindEndValue(s, i, key);
      if FindEnd(s, i, key).None? {
        CountZero(s, i + 1, key);
      }
    }
  }

  /** Every pattern needs a value after the key. */
  lemma MatchNeedsValue(s: string, i: nat, key: string, shape: Shape, quoted: bool)
    requires i <= |s| && NoValue(s, key)
    ensures MatchEnd(s, i, key, shape, quoted).None?
  {
    if shape == Lead && i < |s| && IsSpace(s[i]) {
      var w := SkipSpaces(s, i);
      if OccursAt(s, key, w) && ValueEnd(s, w + |key|, quoted).Some? {
        assert ValueAt(s, w, key);
      }
    } else if OccursAt(s, key, i) && ValueEnd(s, i + |key|, quoted).Some? {
      assert ValueAt(s, i, key);
    }
  }

  lemma {:induction false} RemoveIdentity(s: string, i: nat, key: string, shape: Shape, quoted: bool)
    requires i <= |s| && NoValue(s, key)
    ensures Remove(s, i, key, shape, quoted) == s[i..]
    decreases |s| - i
  {
    if i < |s| {
      MatchNeedsValue(s, i, key, shape, quoted);
      RemoveIdentity(s, i + 1, key, shape, quoted);
      assert s[i..] == [s[i]] + s[i + 1..];
    }
  }

  /** Text in which the key is never followed by a value passes through
      all six substitutions unchanged. */
  lemma StripKeyIdentity(s: string, key: string)
    requires NoValue(s, key)
    ensures StripKey(s, key) == s
  {
    RemoveIdentity(s, 0, key, Lead, true);
    RemoveIdentity(s, 0, key, Lead, false);
    RemoveIdentity(s, 0, key, Trail, true);
    RemoveIdentity(s, 0, key, Trail, false);
    RemoveIdentity(s, 0, key, Bare, true);
    RemoveIdentity(s, 0, key, Bare, false);
  }

  /** When nothing is counted, nothing is removed. */
  lemma NothingCountedNothingRemoved(content: string)
    requires CredentialCount(content) == 0
    ensures CleanCredentials(content) == content
  {
    CountZero(content, 0, UserKey);
    StripKeyIdentity(content, UserKey);
    CountZero(content, 0, PasswordKey);
    StripKeyIdentity(content, PasswordKey);
  }

  /** The leading run of non-whitespace characters of `r` is a copy of
      `s` from `i`. */
  predicate PrefixCopy(s: string, i: nat, r: string) {
    forall n | 0 <= n <= |r| && NoSpaceIn(r[..n]) :: i + n <= |s| && r[..n] == s[i..i + n]
  }

  /** A value at the start of such an `r` is a value at `i` in `s`. */
  lemma LeadCopy(s: string, i: nat, r: string, key: string)
    requires PrefixCopy(s, i, r) && NoSpaceIn(key)
    ensures ValueAt(r, 0, key) ==> ValueAt(s, i, key)
  {
    if ValueAt(r, 0, key) {
      var n := |key| + 1;
      assert NoSpaceIn(r[..n]) by {
        forall j | 0 <= j < n ensures !IsSpace(r[..n][j]) {
          if j < |key| {
            assert r[..n][j] == r[..|key|][j] == key[j];
          }
        }
      }
      assert r[..n] == s[i..i + n];
      assert s[i..i + |key|] == r[..n][..|key|] == r[..|key|];
      assert s[i + |key|] == r[..n][|key|] == r[|key|];
    }
  }

  /** Keeping `s[i]` in front of a copy of `s[i + 1..]` keeps the copy. */
  lemma KeepPrefix(s: string, i: nat, r: string)
    requires i < |s| && PrefixCopy(s, i + 1, r)
    ensures PrefixCopy(s, i, [s[i]] + r)
  {
    var t := [s[i]] + r;
    forall n | 0 <= n <= |t| && NoSpaceIn(t[..n]) ensures i + n <= |s| && t[..n] == s[i..i + n] {
      if n > 0 {
        var m := n - 1;
        assert NoSpaceIn(r[..m]) by {
          forall j | 0 <= j < m ensures !IsSpace(r[..m][j]) {
            assert r[..m][j] == t[..n][j + 1];
          }
        }
        assert t[..n] == [s[i]] + r[..m];
      }
    }
  }

  /** A value after the first character of `[c] + r` is one in `r`. */
  lemma ShiftValue(c: char, r: string, key: string, k: nat)
    requires 0 < k < |r| + 1
    ensures ValueAt([c] + r, k, key) ==> ValueAt(r, k - 1, key)
  {
    var t := [c] + r;
    if ValueAt(t, k, key) {
      assert t[k..k + |key|] == r[k - 1..k - 1 + |key|];
      assert t[k + |key|] == r[k - 1 + |key|];
    }
  }

  /** The last substitution `re.sub(r"KEY[^\s]+", "", ...)` leaves no
      value after the key: a removal always stops at whitespace or at the
      end, so no key can be joined to a value across it. */
  lemma {:induction false} BareLeavesNoValue(s: string, i: nat, key: string)
    requires i <= |s| && key != [] && NoSpaceIn(key)
    ensures NoValue(Remove(s, i, key, Bare, false), key)
    ensures PrefixCopy(s, i, Remove(s, i, key, Bare, false))
    decreases |s| - i
  {
    if i < |s| {
      match MatchEnd(s, i, key, Bare, false)
      case Some(e) =>
        BareLeavesNoValue(s, e, key);
        if e < |s| {
          BareLeavesNoValue(s, e + 1, key);
        }
        RemovedStep(s, i, e, key);
      case None =>
        BareLeavesNoValue(s, i + 1, key);
        KeptStep(s, i, key);
    }
  }

  /** A removal ending at `e` leaves what the rest leaves after `e`. */
  lemma RemovedStep(s: string, i: nat, e: nat, key: string)
    requires i < |s| && key != [] && NoSpaceIn(key)
    requires MatchEnd(s, i, key, Bare, false) == Some(e)
    requires NoValue(Remove(s, e, key, Bare, false), key)
    requires PrefixCopy(s, e, Remove(s, e, key, Bare, false))
    ensures NoValue(Remove(s, i, key, Bare, false), key)
    ensures PrefixCopy(s, i, Remove(s, i, key, Bare, false))
  {
    var r := Remove(s, i, key, Bare, false);
    if e < |s| {
      assert IsSpace(s[e]);
      assert !OccursAt(s, key, e) by {
        OccursIndex(s, key, e, 0);
      }
      assert r == [s[e]] + Remove(s, e + 1, key, Bare, false);
      forall n | 1 <= n <= |r| ensures !NoSpaceIn(r[..n]) {
        assert r[..n][0] == s[e];
      }
    }
  }

  /** A character no removal starts at is kept in front of the rest. */
  lemma KeptStep(s: string, i: nat, key: string)
    requires i < |s| && key != [] && NoSpaceIn(key)
    requires MatchEnd(s, i, key, Bare, false).None?
    requires NoValue(Remove(s, i + 1, key, Bare, false), key)
    requires PrefixCopy(s, i + 1, Remove(s, i + 1, key, Bare, false))
    ensures NoValue(Remove(s, i, key, Bare, false), key)
    ensures PrefixCopy(s, i, Remove(s, i, key, Bare, false))
  {
    var r := Remove(s, i, key, Bare, false);
    var r' := Remove(s, i + 1, key, Bare, false);
    assert r == [s[i]] + r';
    KeepPrefix(s, i, r');
    BareMatchValue(s, i, key);
    LeadCopy(s, i, r, key);
    forall k | 0 < k < |r| ensures !ValueAt(r, k, key) {
      ShiftValue(s[i], r', key, k);
    }
  }

  /** `_clean_credentials_from_content`: the count of user matches, the six
      user substitutions, the count of password matches, and the six
      password substitutions. */
  method CleanCredentialsFromContent(content: string) returns (cleaned: string, changes: nat)
    ensures cleaned == CleanCredentials(content)
    ensures changes == CredentialCount(content)
    ensures NoValue(cleaned, PasswordKey)
    ensures changes == 0 ==> cleaned == content
  {
    KeyFacts();
    changes := 0;
    cleaned := content;

    changes := changes + CountValues(cleaned, 0, UserKey);
    cleaned := Remove(cleaned, 0, UserKey, Lead, true);
    cleaned := Remove(cleaned, 0, UserKey, Lead, false);
    cleaned := Remove(cleaned, 0, UserKey, Trail, true);
    cleaned := Remove(cleaned, 0, UserKey, Trail, false);
    cleaned := Remove(cleaned, 0, UserKey, Bare, true);
    cleaned := Remove(cleaned, 0, UserKey, Bare, false);

    changes := changes + CountValues(cleaned, 0, PasswordKey);
    cleaned := Remove(cleaned, 0, PasswordKey, Lead, true);
    cleaned := Remove(cleaned, 0, PasswordKey, Lead, false);
    cleaned := Remove(cleaned, 0, PasswordKey, Trail, true);
    cleaned := Remove(cleaned, 0, PasswordKey, Trail, false);
    cleaned := Remove(cleaned, 0, PasswordKey, Bare, true);
    var lastInput := cleaned;
    cleaned := Remove(cleaned, 0, PasswordKey, Bare, false);

    BareLeavesNoValue(lastInput, 0, PasswordKey);
    if changes == 0 {
      NothingCountedNothingRemoved(content);
    }
  }

  // ---------------------------------------------------------------------
  // Absolute-path heuristics (`_is_likely_absolute_path`,
  // `_categorize_path_simple`)
  // ---------------------------------------------------------------------

  /** `re.search(r"X$", s)`: without MULTILINE, `$` matches at the very
      end and also just before a final newline. */
  predicate AtEnd(s: string, x: string) {
    EndsWith(s, x) || EndsWith(s, x + "\n")
  }

  /** One of the eight skip patterns matches, ignoring case. */
  predicate Skipped(path: string) {
    var l := Lower(path);
    || StartsWith(l, "http://") || StartsWith(l, "https://")
    || StartsWith(l, "ftp://")
    || Contains(l, "xmlns")
    || AtEnd(l, ".xsd") || AtEnd(l, ".dtd")
    || StartsWith(l, "qgis.org")
    || Contains(l, "postgresql://")
    || Contains(l, "postgis:")
  }

  /** The heuristic: not skipped, longer than three characters, holding a
      slash or a backslash, and (compared with case) neither starting with
      `www.` nor ending with `.org` or `.com`. */
  predicate IsLikelyAbsolutePath(path: string) {
    && !Skipped(path)
    && |path| > 3
    && ('/' in path || '\\' in path)
    && !StartsWith(path, "www.")
    && !EndsWith(path, ".org") && !EndsWith(path, ".com")
  }

  /** The skip test does not depend on case: a text and its lower-case
      form are skipped alike. */
  lemma SkipIgnoresCase(path: string)
    ensures Skipped(Lower(path)) == Skipped(path)
  {
    LowerIdempotent(path);
  }

  const CsvLabel := "CSV File References"
  const ImageLabel := "Image/Document References"
  const UiLabel := "UI Preferences/Directories"
  const OtherLabel := "Other File Paths"
  const Labels := {CsvLabel, ImageLabel, UiLabel, OtherLabel}

  predicate HasImageExtension(l: string) {
    || Contains(l, ".svg") || Contains(l, ".png") || Contains(l, ".jpg")
    || Contains(l, ".jpeg") || Contains(l, ".tiff") || Contains(l, ".pdf")
  }

  predicate HasUiKeyword(l: string) {
    Contains(l, "browse") || Contains(l, "export") || Contains(l, "layout")
  }

  /** `_categorize_path_simple`. */
  function CategorizePath(path: string): (heading: string)
    ensures heading in Labels
  {
    var l := Lower(path);
    if Contains(l, ".csv") then CsvLabel
    else if HasImageExtension(l) then ImageLabel
    else if HasUiKeyword(l) then UiLabel
    else OtherLabel
  }

  lemma LabelsDistinct()
    ensures CsvLabel != ImageLabel && CsvLabel != UiLabel && CsvLabel != OtherLabel
    ensures ImageLabel != UiLabel && ImageLabel != OtherLabel && UiLabel != OtherLabel
  {
    assert CsvLabel[0] != ImageLabel[0] && CsvLabel[0] != UiLabel[0] && CsvLabel[0] != OtherLabel[0];
    assert ImageLabel[0] != UiLabel[0] && ImageLabel[0] != OtherLabel[0] && UiLabel[0] != OtherLabel[0];
  }

  /** The checks run on the lower-cased path in priority order: a CSV
      reference wins over an image extension, which wins over a UI
      keyword; everything else is "Other". */
  lemma CategoryPriority(path: string)
    ensures var l := Lower(path);
      && (CategorizePath(path) == CsvLabel <==> Contains(l, ".csv"))
      && (CategorizePath(path) == ImageLabel <==> !Contains(l, ".csv") && HasImageExtension(l))
      && (CategorizePath(path) == UiLabel <==>
            !Contains(l, ".csv") && !HasImageExtension(l) && HasUiKeyword(l))
      && (CategorizePath(path) == OtherLabel <==>
            !Contains(l, ".csv") && !HasImageExtension(l) && !HasUiKeyword(l))
  {
    LabelsDistinct();
  }

  /** The label does not depend on case. */
  lemma CategoryIgnoresCase(path: string)
    ensures CategorizePath(Lower(path)) == CategorizePath(path)
  {
    LowerIdempotent(path);
  }

  // ---------------------------------------------------------------------
  // New image size (`_resize_images_in_folder`)
  // ---------------------------------------------------------------------

  /** The size an image of `w` by `h` pixels is saved at: unchanged when
      its long side fits in `m`, otherwise scaled so that the long side is
      `m`.  The source computes the other side as `int(h * m / w)`: a float
      quotient truncated, which for positive sizes is the floor. */
  function NewSize(w: nat, h: nat, m: nat): (nat, nat) {
    if (if w >= h then w else h) > m then
      if w > h then (m, Scale(h, m, w)) else (Scale(w, m, h), m)
    else (w, h)
  }

  /** `int(a * m / b)` for sizes: the quotient rounded down. */
  function Scale(a: nat, m: nat, b: nat): nat
    requires b > 0
  {
    ProductNonNegative(a, m);
    a * m / b
  }

  lemma ProductNonNegative(a: nat, m: nat)
    ensures a * m >= 0
  {
  }

  predicate NeedsResize(w: nat, h: nat, m: nat) {
    (if w >= h then w else h) > m
  }

  /** `q` is the floor of `a * m / b`. */
  predicate IsFloorOf(q: nat, a: nat, m: nat, b: nat) {
    q * b <= a * m < (q + 1) * b
  }

  /** Euclidean division by a positive number: the quotient times the
      divisor lies within one divisor below the dividend. */
  lemma DivisionBounds(p: nat, b: nat)
    requires b > 0
    ensures (p / b) * b <= p < (p / b + 1) * b
  {
    var q, r := p / b, p % b;
    assert p == q * b + r;
    assert (q + 1) * b == q * b + b;
  }

  lemma MulMonotone(x: nat, y: nat, z: nat)
    requires x <= y
    ensures x * z <= y * z
  {
  }

  /** A dividend of at most `c` divisors has a quotient of at most `c`. */
  lemma QuotientAtMost(p: nat, b: nat, c: nat)
    requires b > 0 && p <= c * b
    ensures p / b <= c
  {
    DivisionBounds(p, b);
    assert (c + 1) * b == c * b + b;
    if p / b > c {
      MulMonotone(c + 1, p / b, b);
    }
  }

  lemma FloorScale(a: nat, b: nat, m: nat)
    requires a <= b && b > m
    ensures IsFloorOf(Scale(a, m, b), a, m, b) && Scale(a, m, b) <= a && Scale(a, m, b) <= m
  {
    ProductNonNegative(a, m);
    var p: nat := a * m;
    assert Scale(a, m, b) == p / b;
    DivisionBounds(p, b);
    MulMonotone(m, b, a);
    assert p <= a * b;
    QuotientAtMost(p, b, a);
    MulMonotone(a, b, m);
    assert p <= m * b;
    QuotientAtMost(p, b, m);
  }

  /** The dimension rule: an image whose long side fits is left as it is;
      otherwise the long side becomes `m` and the other side is the floor
      of its proportional size, so neither side grows and both fit in
      `m`; a square becomes `m` by `m`. */
  lemma NewSizeRule(w: nat, h: nat, m: nat)
    ensures !NeedsResize(w, h, m) ==> NewSize(w, h, m) == (w, h)
    ensures NeedsResize(w, h, m) && w > h ==>
      NewSize(w, h, m).0 == m && IsFloorOf(NewSize(w, h, m).1, h, m, w)
    ensures NeedsResize(w, h, m) && w <= h ==>
      NewSize(w, h, m).1 == m && IsFloorOf(NewSize(w, h, m).0, w, m, h)
    ensures NewSize(w, h, m).0 <= w && NewSize(w, h, m).1 <= h
    ensures NeedsResize(w, h, m) ==> NewSize(w, h, m).0 <= m && NewSize(w, h, m).1 <= m
    ensures NeedsResize(w, h, m) && w == h ==> NewSize(w, h, m) == (m, m)
  {
    if NeedsResize(w, h, m) {
      if w > h {
        FloorScale(h, w, m);
      } else {
        FloorScale(w, h, m);
        if w == h {
          SquareScale(w, m);
        }
      }
    }
  }

  /** Scaling a side by `m` over itself gives `m`. */
  lemma SquareScale(w: nat, m: nat)
    requires w > 0
    ensures Scale(w, m, w) == m
  {
    ProductNonNegative(w, m);
    var p: nat := w * m;
    assert Scale(w, m, w) == p / w;
    assert p == m * w + 0;
  }

  /** The extensions `_resize_images_in_folder` picks up, compared on the
      lower-cased file name. */
  predicate IsSupportedImage(name: string) {
    var l := Lower(name);
    || EndsWith(l, ".jpg") || EndsWith(l, ".jpeg") || EndsWith(l, ".png")
    || EndsWith(l, ".tiff") || EndsWith(l, ".tif") || EndsWith(l, ".bmp")
    || EndsWith(l, ".webp")
  }

  /** A file found by the folder walk; `size` is `None` when the image
      library cannot open it (the loop logs the error and goes on). */
  datatype ImageFile = ImageFile(path: string, size: Option<(nat, nat)>)

  function SupportedImages(files: seq<ImageFile>): (r: seq<ImageFile>)
    ensures forall k | 0 <= k < |r| :: IsSupportedImage(r[k].path) && r[k] in files
    decreases |files|
  {
    if files == [] then []
    else
      var init := SupportedImages(files[..|files| - 1]);
      var f := files[|files| - 1];
      if IsSupportedImage(f.path) then init + [f] else init
  }

  /** What one image adds to the saved list: nothing when it does not
      open, else its path and new size. */
  function SavedOne(f: ImageFile, m: nat): seq<(string, nat, nat)> {
    if f.size.Some? then [SavedEntry(f, m)] else []
  }

  /** An image that opens is saved under its own path at the rule's size. */
  function SavedEntry(f: ImageFile, m: nat): (string, nat, nat)
    requires f.size.Some?
  {
    var s := NewSize(f.size.value.0, f.size.value.1, m);
    (f.path, s.0, s.1)
  }

  /** The images saved, in order, with the size each is saved at. */
  function SavedImages(images: seq<ImageFile>, m: nat): (r: seq<(string, nat, nat)>)
    decreases |images|
  {
    if images == [] then []
    else SavedImages(images[..|images| - 1], m) + SavedOne(images[|images| - 1], m)
  }

  predicate Resized(f: ImageFile, m: nat) {
    f.size.Some? && NeedsResize(f.size.value.0, f.size.value.1, m)
  }

  function ResizedCount(images: seq<ImageFile>, m: nat): nat
    decreases |images|
  {
    if images == [] then 0
    else ResizedCount(images[..|images| - 1], m) + (if Resized(images[|images| - 1], m) then 1 else 0)
  }

  lemma SupportedPrefix(files: seq<ImageFile>, i: nat)
    requires i < |files|
    ensures SupportedImages(files[..i + 1]) ==
      SupportedImages(files[..i]) + (if IsSupportedImage(files[i].path) then [files[i]] else [])
  {
    assert files[..i + 1][..i] == files[..i];
  }

  lemma SavedPrefix(images: seq<ImageFile>, j: nat, m: nat)
    requires j < |images|
    ensures SavedImages(images[..j + 1], m) == SavedImages(images[..j], m) + SavedOne(images[j], m)
    ensures ResizedCount(images[..j + 1], m) == ResizedCount(images[..j], m) + (if Resized(images[j], m) then 1 else 0)
  {
    assert images[..j + 1][..j] == images[..j];
  }

  /** Every saved image fits in `m` on both sides once the rule ran over
      an image too large, and the resize count never exceeds the number
      of saved images. */
  lemma {:induction false} SavedImagesFit(images: seq<ImageFile>, m: nat)
    ensures |SavedImages(images, m)| >= ResizedCount(images, m)
    ensures forall k | 0 <= k < |SavedImages(images, m)| ::
      var (_, w, h) := SavedImages(images, m)[k];
      (w <= m && h <= m) || exists f | f in images && f.size.Some? :: (w, h) == f.size.value
    decreases |images|
  {
    if images != [] {
      var init := images[..|images| - 1];
      var f := images[|images| - 1];
      SavedImagesFit(init, m);
      var r := SavedImages(images, m);
      assert r == SavedImages(init, m) + SavedOne(f, m);
      forall k | 0 <= k < |r|
        ensures var (_, w, h) := r[k];
          (w <= m && h <= m) || exists g | g in images && g.size.Some? :: (w, h) == g.size.value
      {
        if k < |SavedImages(init, m)| {
          assert r[k] == SavedImages(init, m)[k];
          var (_, w, h) := r[k];
          if !(w <= m && h <= m) {
            var g :| g in init && g.size.Some? && (w, h) == g.size.value;
            assert g in images;
          }
        } else {
          var (w, h) := f.size.value;
          NewSizeRule(w, h, m);
          if !NeedsResize(w, h, m) {
            assert f in images;
          }
        }
      }
    }
  }

  /** The saved list is made of the images themselves: each entry is an
      image that opened, under its own path at the size the rule gives
      its own dimensions, and every image that opened has its entry. */
  lemma {:induction false} SavedImagesOwnSize(images: seq<ImageFile>, m: nat)
    ensures forall k | 0 <= k < |SavedImages(images, m)| ::
      exists f | f in images && f.size.Some? :: SavedImages(images, m)[k] == SavedEntry(f, m)
    ensures forall f | f in images && f.size.Some? :: SavedEntry(f, m) in SavedImages(images, m)
    decreases |images|
  {
    if images != [] {
      var init := images[..|images| - 1];
      var last := images[|images| - 1];
      SavedImagesOwnSize(init, m);
      var r := SavedImages(images, m);
      var ri := SavedImages(init, m);
      assert r == ri + SavedOne(last, m);
      assert images == init + [last];
      forall k | 0 <= k < |r|
        ensures exists f | f in images && f.size.Some? :: r[k] == SavedEntry(f, m)
      {
        if k < |ri| {
          assert r[k] == ri[k];
          var g :| g in init && g.size.Some? && ri[k] == SavedEntry(g, m);
          assert g in images;
        } else {
          assert r[k] == SavedEntry(last, m);
          assert last in images;
        }
      }
      forall f | f in images && f.size.Some? ensures SavedEntry(f, m) in r {
        if f in init {
          assert SavedEntry(f, m) in ri;
        } else {
          assert f == last;
          assert r[|r| - 1] == SavedEntry(f, m);
        }
      }
    } else {
      assert SavedImages(images, m) == [];
    }
  }

  /** The folder walk's filter: the supported files, in walk order. */
  method CollectImageFiles(files: seq<ImageFile>) returns (imageFiles: seq<ImageFile>)
    ensures imageFiles == SupportedImages(files)
  {
    imageFiles := [];
    var i := 0;
    while i < |files|
      invariant i <= |files|
      invariant imageFiles == SupportedImages(files[..i])
    {
      SupportedPrefix(files, i);
      if IsSupportedImage(files[i].path) {
        imageFiles := imageFiles + [files[i]];
      }
      i := i + 1;
    }
    assert files[..i] == files;
  }

  /** The body of the walk for one file: an image that opens is saved at
      its new size; `count` is one when it had to shrink. */
  method ResizeImage(image: ImageFile, maxLongSide: nat) returns (count: nat, entry: seq<(string, nat, nat)>)
    ensures count == (if Resized(image, maxLongSide) then 1 else 0)
    ensures entry == SavedOne(image, maxLongSide)
  {
    count, entry := 0, [];
    match image.size {
      case None =>
      case Some((width, height)) =>
        var longSide := if width >= height then width else height;
        var newWidth, newHeight := width, height;
        if longSide > maxLongSide {
          if width > height {
            newWidth := maxLongSide;
            newHeight := Scale(height, maxLongSide, width);
          } else {
            newHeight := maxLongSide;
            newWidth := Scale(width, maxLongSide, height);
          }
          count := 1;
        }
        assert (newWidth, newHeight) == NewSize(width, height, maxLongSide);
        entry := [(image.path, newWidth, newHeight)];
    }
  }

  /** `_resize_images_in_folder`: collect the supported files, then save
      each image that opens at its new size, counting the ones resized. */
  method ResizeImagesInFolder(files: seq<ImageFile>, maxLongSide: nat)
    returns (resized: nat, saved: seq<(string, nat, nat)>)
    ensures resized == ResizedCount(SupportedImages(files), maxLongSide)
    ensures saved == SavedImages(SupportedImages(files), maxLongSide)
  {
    var imageFiles := CollectImageFiles(files);
    resized, saved := 0, [];
    if |imageFiles| == 0 {
      return;
    }
    var j := 0;
    while j < |imageFiles|
      invariant j <= |imageFiles|
      invariant resized == ResizedCount(imageFiles[..j], maxLongSide)
      invariant saved == SavedImages(imageFiles[..j], maxLongSide)
    {
      SavedPrefix(imageFiles, j, maxLongSide);
      var count, entry := ResizeImage(imageFiles[j], maxLongSide);
      resized := resized + count;
      saved := saved + entry;
      j := j + 1;
    }
    assert imageFiles[..j] == imageFiles;
  }

  // ---------------------------------------------------------------------
  // CSV layer sources (`_try_convert_csv_paths_to_relative`)
  // ---------------------------------------------------------------------

  /** Index of the first `c` in `s` at or after `i`, or `|s|`. */
  function FirstChar(s: string, i: nat, c: char): (k: nat)
    requires i <= |s|
    ensures i <= k <= |s|
    ensures k < |s| ==> s[k] == c
    ensures forall j | i <= j < k :: s[j] != c
    decreases |s| - i
  {
    if i == |s| || s[i] == c then i else FirstChar(s, i + 1, c)
  }

  predicate IsUpper(c: char) {
    'A' <= c <= 'Z'
  }

  /** `[/\\]`. */
  predicate IsSlash(c: char) {
    c == '/' || c == '\\'
  }

  const LayerSourceOpen := "<Option name=\"LayerSource\""
  const ValueFileUri := "value=\"file:///"

  /** End (the index of the closing quote) of the group
      `[A-Z]:[/\\][^"]*\.csv[^"]*` starting at `p` and followed by `"`.
      Neither `[^"]*` can cross a quote, so the group runs to the first
      quote and only has to hold `.csv` after its first three characters. */
  function CsvGroupEnd(s: string, p: nat): (r: Option<nat>)
    requires p <= |s|
    ensures r.Some? ==> p + 3 <= r.value < |s|
  {
    if p + 3 <= |s| && IsUpper(s[p]) && s[p + 1] == ':' && IsSlash(s[p + 2]) then
      var q := FirstChar(s, p + 3, '"');
      if q < |s| && Contains(s[p + 3..q], ".csv") then Some(q) else None
    else None
  }

  predicate TailAt(s: string, j: nat) {
    j <= |s| && OccursAt(s, ValueFileUri, j) && CsvGroupEnd(s, j + |ValueFileUri|).Some?
  }

  /** The latest `k` in `a..j` with `p(k)`, searching down from `j`. */
  function LastWhere(p: nat -> bool, a: nat, j: nat): (r: Option<nat>)
    requires a <= j
    ensures r.Some? ==> a <= r.value <= j && p(r.value)
    decreases j - a
  {
    if p(j) then Some(j)
    else if j == a then None
    else LastWhere(p, a, j - 1)
  }

  /** What `LastWhere` finds is the latest such `k`, and it finds nothing
      only when there is none. */
  lemma {:induction false} LastWhereLatest(p: nat -> bool, a: nat, j: nat)
    requires a <= j
    ensures LastWhere(p, a, j).Some? ==> forall k | LastWhere(p, a, j).value < k <= j :: !p(k)
    ensures LastWhere(p, a, j).None? ==> forall k | a <= k <= j :: !p(k)
    decreases j - a
  {
    if !p(j) && j != a {
      LastWhereLatest(p, a, j - 1);
    }
  }

  /** The greedy `[^>]*`: the latest start in `a..j` from which the rest
      of the pattern matches. */
  function LastTail(s: string, a: nat, j: nat): (r: Option<nat>)
    requires a <= j <= |s|
    ensures r.Some? ==> a <= r.value <= j && TailAt(s, r.value)
  {
    LastWhere((k: nat) => TailAt(s, k), a, j)
  }

  /** The start `LastTail` picks is the latest one, and there is none when
      it finds nothing. */
  lemma LastTailLatest(s: string, a: nat, j: nat)
    requires a <= j <= |s|
    ensures LastTail(s, a, j).Some? ==> forall k | LastTail(s, a, j).value < k <= j :: !TailAt(s, k)
    ensures LastTail(s, a, j).None? ==> forall k | a <= k <= j :: !TailAt(s, k)
  {
    var p := (k: nat) => TailAt(s, k);
    LastWhereLatest(p, a, j);
    assert forall k: nat :: p(k) == TailAt(s, k);
  }

  /** The group `(p, q)` of a match of
      `<Option name="LayerSource"[^>]*value="file:///(...)"` at `i`. */
  function CsvMatchAt(s: string, i: nat): (r: Option<(nat, nat)>)
    requires i <= |s|
    ensures r.Some? ==> i < r.value.0 && r.value.0 + 3 <= r.value.1 < |s|
    ensures r.Some? ==> CsvGroupEnd(s, r.value.0) == Some(r.value.1)
  {
    if OccursAt(s, LayerSourceOpen, i) then
      var a := i + |LayerSourceOpen|;
      var g := FirstChar(s, a, '>');
      match LastTail(s, a, g)
      case Some(j) =>
        var p := j + |ValueFileUri|;
        Some((p, CsvGroupEnd(s, p).value))
      case None => None
    else None
  }

  /** `re.findall` of the CSV pattern over `s[i..]`: the captured paths. */
  function CsvPaths(s: string, i: nat): seq<string>
    requires i <= |s|
    decreases |s| - i
  {
    if i == |s| then []
    else match CsvMatchAt(s, i)
      case Some((p, q)) => [s[p..q]] + CsvPaths(s, q + 1)
      case None => CsvPaths(s, i + 1)
  }

  /** What every captured path looks like: a drive letter, a colon and a
      slash, `.csv` somewhere after them, and no quote. */
  predicate CsvShaped(path: string) {
    && |path| >= 3 && IsUpper(path[0]) && path[1] == ':' && IsSlash(path[2])
    && Contains(path[3..], ".csv")
    && forall k | 0 <= k < |path| :: path[k] != '"'
  }

  lemma GroupShaped(s: string, p: nat)
    requires p <= |s| && CsvGroupEnd(s, p).Some?
    ensures CsvShaped(s[p..CsvGroupEnd(s, p).value])
  {
    var q := CsvGroupEnd(s, p).value;
    var path := s[p..q];
    assert path[3..] == s[p + 3..q];
    forall k | 0 <= k < |path| ensures path[k] != '"' {
      assert path[k] == s[p + k];
    }
  }

  lemma {:induction false} CsvPathsShaped(s: string, i: nat)
    requires i <= |s|
    ensures forall k | 0 <= k < |CsvPaths(s, i)| :: CsvShaped(CsvPaths(s, i)[k])
    decreases |s| - i
  {
    if i < |s| {
      match CsvMatchAt(s, i)
      case Some((p, q)) =>
        GroupShaped(s, p);
        CsvPathsShaped(s, q + 1);
      case None =>
        CsvPathsShaped(s, i + 1);
    }
  }

  /** `path.split('?')[0]` and the query part the tab keeps:
      `"?" + path.split('?', 1)[1]` when the path holds a `?`, else empty. */
  function QuerySplit(path: string): (r: (string, string))
    ensures r.0 + r.1 == path
    ensures forall k | 0 <= k < |r.0| :: r.0[k] != '?'
    ensures r.1 == [] || r.1[0] == '?'
  {
    match SplitOnce(path, "?")
    case None =>
      assert forall k | 0 <= k < |path| :: path[k] != '?' by {
        forall k | 0 <= k < |path| ensures path[k] != '?' {
          assert !OccursAt(path, "?", k);
          assert path[k..k + 1] == [path[k]];
        }
      }
      (path, [])
    case Some((a, b)) =>
      assert forall k | 0 <= k < |a| :: a[k] != '?' by {
        forall k | 0 <= k < |a| ensures a[k] != '?' {
          assert !OccursAt(a, "?", k);
          assert a[k..k + 1] == [a[k]];
        }
      }
      assert a + ("?" + b) == a + "?" + b;
      (a, "?" + b)
  }

  /** `os.path.basename(csv_path.split('?')[0])`. */
  function CsvFileName(h: Host, path: string): string {
    Basename(h, QuerySplit(path).0)
  }

  /** The relative source `file:///./<file name><query>`. */
  function CsvSource(h: Host, path: string): string {
    "file:///./" + CsvFileName(h, path) + QuerySplit(path).1
  }

  /** The new source points into the archive folder (`file:///./`), names
      a file without directory part, and keeps everything of the old path
      from its first `?` on. */
  lemma CsvSourceShape(h: Host, path: string)
    ensures var src := CsvSource(h, path);
      var name := CsvFileName(h, path);
      && StartsWith(src, "file:///./")
      && (forall k | 0 <= k < |name| :: !IsSep(h, name[k]))
      && EndsWith(path, QuerySplit(path).1)
      && src == "file:///./" + name + QuerySplit(path).1
  {
    BasenameShape(h, QuerySplit(path).0);
    var src := CsvSource(h, path);
    assert src[..10] == "file:///./";
    var (before, query) := QuerySplit(path);
    assert path[|path| - |query|..] == query;
  }

  /** One captured path handled: when its file is present, every
      occurrence of `file:///<path>` is replaced by the relative source. */
  function ConvertOne(h: Host, c: string, path: string, present: set<string>): string {
    if CsvFileName(h, path) in present then Replace(c, "file:///" + path, CsvSource(h, path)) else c
  }

  /** The text after the loop has handled `paths`. */
  function Converted(h: Host, content: string, paths: seq<string>, present: set<string>): string
    decreases |paths|
  {
    if paths == [] then content
    else ConvertOne(h, Converted(h, content, paths[..|paths| - 1], present), paths[|paths| - 1], present)
  }

  /** How many of `paths` name a file present in the output folder. */
  function ConvertedCount(h: Host, paths: seq<string>, present: set<string>): nat
    decreases |paths|
  {
    if paths == [] then 0
    else
      var n := ConvertedCount(h, paths[..|paths| - 1], present);
      if CsvFileName(h, paths[|paths| - 1]) in present then n + 1 else n
  }

  lemma ConvertedPrefix(h: Host, content: string, paths: seq<string>, i: nat, present: set<string>)
    requires i < |paths|
    ensures Converted(h, content, paths[..i + 1], present) ==
      ConvertOne(h, Converted(h, content, paths[..i], present), paths[i], present)
    ensures ConvertedCount(h, paths[..i + 1], present) ==
      ConvertedCount(h, paths[..i], present) + (if CsvFileName(h, paths[i]) in present then 1 else 0)
  {
    assert paths[..i + 1][..i] == paths[..i];
  }

  /** What the conversion loop has produced once it has handled the first
      `i` captured paths. */
  predicate ConvertLoop(h: Host, content: string, paths: seq<string>, i: nat, present: set<string>,
                        updated: string, conversions: nat)
    requires i <= |paths|
  {
    updated == Converted(h, content, paths[..i], present) &&
    conversions == ConvertedCount(h, paths[..i], present)
  }

  /** One turn of the conversion loop keeps the text and the count in
      step with `Converted` and `ConvertedCount`. */
  lemma ConvertedStep(h: Host, content: string, paths: seq<string>, i: nat, present: set<string>,
                      before: string, after: string, countBefore: nat, countAfter: nat)
    requires i < |paths|
    requires ConvertLoop(h, content, paths, i, present, before, countBefore)
    requires after == ConvertOne(h, before, paths[i], present)
    requires countAfter == countBefore + (if CsvFileName(h, paths[i]) in present then 1 else 0)
    ensures ConvertLoop(h, content, paths, i + 1, present, after, countAfter)
  {
    ConvertedPrefix(h, content, paths, i, present);
  }

  /** The count is zero exactly when none of the file names is present,
      and then the text is left as it was. */
  lemma {:induction false} ConvertedCountZero(h: Host, content: string, paths: seq<string>, present: set<string>)
    ensures ConvertedCount(h, paths, present) == 0 <==>
      forall k | 0 <= k < |paths| :: CsvFileName(h, paths[k]) !in present
    ensures ConvertedCount(h, paths, present) == 0 ==> Converted(h, content, paths, present) == content
    ensures ConvertedCount(h, paths, present) <= |paths|
    decreases |paths|
  {
    if paths != [] {
      var init := paths[..|paths| - 1];
      ConvertedCountZero(h, content, init, present);
      assert forall k | 0 <= k < |init| :: init[k] == paths[k];
    }
  }

  /** The conversion loop of `_try_convert_csv_paths_to_relative` over
      the captured paths. */
  method ConvertMatches(h: Host, content: string, matches: seq<string>, present: set<string>)
    returns (updated: string, conversions: nat)
    ensures updated == Converted(h, content, matches, present)
    ensures conversions == ConvertedCount(h, matches, present)
  {
    updated := content;
    conversions := 0;
    var i := 0;
    while i < |matches|
      invariant i <= |matches|
      invariant ConvertLoop(h, content, matches, i, present, updated, conversions)
    {
      var csvPath := matches[i];
      ghost var before, countBefore := updated, conversions;
      if CsvFileName(h, csvPath) in present {
        updated := Replace(updated, "file:///" + csvPath, CsvSource(h, csvPath));
        conversions := conversions + 1;
      }
      ConvertedStep(h, content, matches, i, present, before, updated, countBefore, conversions);
      i := i + 1;
    }
    assert matches[..i] == matches;
  }

  /** `_try_convert_csv_paths_to_relative`: `present` is the set of file
      names that exist in the output folder.  The file is rewritten (the
      `Some` text) only when a conversion was made. */
  method TryConvertCsvPaths(h: Host, content: string, present: set<string>)
    returns (conversions: nat, written: Option<string>)
    ensures conversions == ConvertedCount(h, CsvPaths(content, 0), present)
    ensures written.Some? <==> conversions > 0
    ensures written.Some? ==> written.value == Converted(h, content, CsvPaths(content, 0), present)
  {
    var matches := CsvPaths(content, 0);
    if |matches| == 0 {
      return 0, None;
    }
    var updated;
    updated, conversions := ConvertMatches(h, content, matches, present);
    written := if conversions > 0 then Some(updated) else None;
  }

  // ---------------------------------------------------------------------
  // Remaining absolute paths (`_detect_remaining_absolute_paths`)
  // ---------------------------------------------------------------------

  /** `[^"\s<>]`. */
  predicate PathChar(c: char) {
    c != '"' && c != '<' && c != '>' && !IsSpace(c)
  }

  function PathRunEnd(s: string, i: nat): (k: nat)
    requires i <= |s|
    ensures i <= k <= |s|
    ensures k < |s| ==> !PathChar(s[k])
    ensures forall j | i <= j < k :: PathChar(s[j])
    decreases |s| - i
  {
    if i == |s| || !PathChar(s[i]) then i else PathRunEnd(s, i + 1)
  }

  /** The two patterns: `[A-Z]:[/\\][^"\s<>]*` and the same after
      `file:///`. */
  datatype PathPattern = WindowsPath | FileUri

  const FilePrefix := "file:///"

  /** `[A-Z]:[/\\][^"\s<>]*` at `i`. */
  function DriveMatchEnd(s: string, i: nat): (r: Option<nat>)
    requires i <= |s|
    ensures r.Some? ==> i < r.value <= |s|
  {
    if i + 3 <= |s| && IsUpper(s[i]) && s[i + 1] == ':' && IsSlash(s[i + 2]) then
      Some(PathRunEnd(s, i + 3))
    else None
  }

  function PathMatchEnd(s: string, i: nat, pattern: PathPattern): (r: Option<nat>)
    requires i <= |s|
    ensures r.Some? ==> i < r.value <= |s|
  {
    match pattern
    case WindowsPath => DriveMatchEnd(s, i)
    case FileUri =>
      if OccursAt(s, FilePrefix, i) then DriveMatchEnd(s, i + |FilePrefix|) else None
  }

  /** `re.findall(pattern, s[i..])`. */
  function FindPaths(s: string, i: nat, pattern: PathPattern): seq<string>
    requires i <= |s|
    decreases |s| - i
  {
    if i == |s| then []
    else match PathMatchEnd(s, i, pattern)
      case Some(e) => [s[i..e]] + FindPaths(s, e, pattern)
      case None => FindPaths(s, i + 1, pattern)
  }

  /** A Windows path match: drive letter, colon, slash, then path
      characters. */
  predicate DrivePath(m: string) {
    |m| >= 3 && IsUpper(m[0]) && m[1] == ':' && IsSlash(m[2])
  }

  predicate PathShaped(m: string, pattern: PathPattern) {
    match pattern
    case WindowsPath => DrivePath(m)
    case FileUri => StartsWith(m, FilePrefix) && DrivePath(m[|FilePrefix|..])
  }

  lemma MatchShaped(s: string, i: nat, pattern: PathPattern)
    requires i <= |s| && PathMatchEnd(s, i, pattern).Some?
    ensures PathShaped(s[i..PathMatchEnd(s, i, pattern).value], pattern)
  {
    var m := s[i..PathMatchEnd(s, i, pattern).value];
    if pattern == FileUri {
      assert m[..|FilePrefix|] == s[i..i + |FilePrefix|];
      assert m[|FilePrefix|..] == s[i + |FilePrefix|..PathMatchEnd(s, i, pattern).value];
    }
  }

  lemma {:induction false} FoundPathsShaped(s: string, i: nat, pattern: PathPattern)
    requires i <= |s|
    ensures forall k | 0 <= k < |FindPaths(s, i, pattern)| :: PathShaped(FindPaths(s, i, pattern)[k], pattern)
    decreases |s| - i
  {
    if i < |s| {
      match PathMatchEnd(s, i, pattern)
      case Some(e) =>
        MatchShaped(s, i, pattern);
        FoundPathsShaped(s, e, pattern);
      case None =>
        FoundPathsShaped(s, i + 1, pattern);
    }
  }

  /** For the strings the two patterns find, the heuristic reduces to the
      skip patterns and the two domain endings: a match always holds a
      slash and never starts with `www.`, and a `file:///` match is always
      long enough. */
  lemma FoundPathLikely(m: string, pattern: PathPattern)
    requires PathShaped(m, pattern)
    ensures IsLikelyAbsolutePath(m) <==>
      && (pattern == WindowsPath ==> |m| > 3)
      && !Skipped(m) && !EndsWith(m, ".org") && !EndsWith(m, ".com")
  {
    StartsWithIndex(m, "www.", 0);
    if pattern == WindowsPath {
      assert m[2] in m;
    } else {
      StartsWithIndex(m, FilePrefix, 0);
      StartsWithIndex(m, FilePrefix, 7);
      assert m[7] in m;
    }
  }

  /** `found` groups exactly the strings of `ms` that `keep` accepts by
      their heading `cat`; every heading present is one of `labels` and
      holds at least one string. */
  ghost predicate Grouped(found: map<string, set<string>>, ms: seq<string>,
                          keep: string -> bool, cat: string -> string, labels: set<string>) {
    && (forall heading | heading in found :: heading in labels && found[heading] != {})
    && (forall heading, p | heading in found ::
          p in found[heading] <==> p in ms && keep(p) && cat(p) == heading)
    && (forall p | p in ms && keep(p) :: cat(p) in found)
  }

  /** The report of `_detect_remaining_absolute_paths`: the likely absolute
      paths among `ms`, grouped by `_categorize_path_simple`. */
  ghost predicate Reported(found: map<string, set<string>>, ms: seq<string>) {
    Grouped(found, ms, IsLikelyAbsolutePath, CategorizePath, Labels)
  }

  /** One string handled: added to the set of its heading, which is
      created when missing. */
  function Record(found: map<string, set<string>>, m: string,
                  keep: string -> bool, cat: string -> string): map<string, set<string>> {
    if keep(m) then
      var t := cat(m);
      found[t := (if t in found then found[t] else {}) + {m}]
    else found
  }

  lemma RecordKeeps(found: map<string, set<string>>, ms: seq<string>, m: string,
                    keep: string -> bool, cat: string -> string, labels: set<string>)
    requires forall p :: cat(p) in labels
    requires Grouped(found, ms, keep, cat, labels)
    ensures Grouped(Record(found, m, keep, cat), ms + [m], keep, cat, labels)
  {
    var ms' := ms + [m];
    var f := Record(found, m, keep, cat);
    assert forall p :: p in ms' <==> p in ms || p == m;
    if keep(m) {
      var t := cat(m);
      forall heading, p | heading in f
        ensures p in f[heading] <==> p in ms' && keep(p) && cat(p) == heading
      {
        if heading != t {
          assert f[heading] == found[heading];
        }
      }
    }
  }

  /** `found.setdefault(heading, set()).add(m)`, written as the tab does:
      create the set when the heading is missing, then add. */
  method AddToHeading(found: map<string, set<string>>, heading: string, m: string)
    returns (r: map<string, set<string>>)
    ensures r == found[heading := (if heading in found then found[heading] else {}) + {m}]
  {
    r := found;
    if heading !in r {
      r := r[heading := {}];
    }
    r := r[heading := r[heading] + {m}];
  }

  /** One turn of that loop: file `m` under its heading when it is kept. */
  method RecordMatch(found: map<string, set<string>>, ghost ms: seq<string>, m: string,
                     keep: string -> bool, cat: string -> string, ghost labels: set<string>)
    returns (r: map<string, set<string>>)
    requires forall p :: cat(p) in labels
    requires Grouped(found, ms, keep, cat, labels)
    ensures r == Record(found, m, keep, cat)
    ensures Grouped(r, ms + [m], keep, cat, labels)
  {
    RecordKeeps(found, ms, m, keep, cat, labels);
    r := found;
    if keep(m) {
      var pathType := cat(m);
      r := AddToHeading(found, pathType, m);
    }
  }

  /** The loop of `_detect_remaining_absolute_paths` over the matches,
      for a heuristic `keep` and a classifier `cat` into `labels`. */
  method ReportMatches(matches: seq<string>, keep: string -> bool, cat: string -> string,
                       ghost labels: set<string>)
    returns (found: map<string, set<string>>)
    requires forall p :: cat(p) in labels
    ensures Grouped(found, matches, keep, cat, labels)
  {
    found := map[];
    var i := 0;
    while i < |matches|
      invariant i <= |matches|
      invariant Grouped(found, matches[..i], keep, cat, labels)
    {
      assert matches[..i + 1] == matches[..i] + [matches[i]];
      found := RecordMatch(found, matches[..i], matches[i], keep, cat, labels);
      i := i + 1;
    }
    assert matches[..i] == matches;
  }

  /** `_detect_remaining_absolute_paths` on the file's text: Windows paths
      first, then `file:///` URIs, each kept when the heuristic accepts it
      and filed under its heading. */
  method DetectRemainingAbsolutePaths(content: string) returns (found: map<string, set<string>>)
    ensures Reported(found, FindPaths(content, 0, WindowsPath) + FindPaths(content, 0, FileUri))
  {
    var windowsMatches := FindPaths(content, 0, WindowsPath);
    var uriMatches := FindPaths(content, 0, FileUri);
    found := ReportMatches(windowsMatches + uriMatches, IsLikelyAbsolutePath, CategorizePath, Labels);
  }
}
