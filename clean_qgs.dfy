/**
 * The credential cleaner of the "Clean QGS" tab: which `<datasource>`
 * bodies hold PostgreSQL credentials, how one body is cleaned, the
 * document-wide rewrite with its change count and preview pairs, and the
 * names of the files it reads and writes.
 */
module CleanQgs {
  import opened Text
  import opened Paths

  /** The tab's two check boxes, "remove user" and "remove password";
      both start checked. */
  datatype Options = Options(removeUser: bool, removePassword: bool)

  const DefaultOptions := Options(true, true)

  /** The body names a database and carries a credential the options ask
      to remove. */
  predicate HasPostgresCredentials(o: Options, d: string) {
    && Contains(d, "dbname=")
    && ((Contains(d, "user=") && o.removeUser) || (Contains(d, "password=") && o.removePassword))
  }

  /** `s[..n]` is whitespace (its first `w` characters), then `key`, an
      opening quote, non-quotes and a closing quote: a match of the
      pattern `\s*KEY['"][^'"]*['"]` at the start of `s`. */
  predicate QuotedPairMatch(s: string, key: string, n: nat, w: nat) {
    && w + |key| + 2 <= n <= |s|
    && (forall i | 0 <= i < w :: IsSpace(s[i]))
    && OccursAt(s, key, w)
    && IsQuote(s[w + |key|]) && IsQuote(s[n - 1])
    && (forall j | w + |key| < j < n - 1 :: !IsQuote(s[j]))
  }

  /** Length of the match of `\s*KEY['"][^'"]*['"]` at the start of `s`,
      if there is one. */
  function QuotedPairAt(s: string, key: string): (r: Option<nat>)
    requires key != []
    ensures r.Some? ==> |key| + 2 <= r.value <= |s|
  {
    var w := SkipSpaces(s, 0);
    if OccursAt(s, key, w) && w + |key| < |s| && IsQuote(s[w + |key|]) then
      var close := FirstQuote(s, w + |key| + 1);
      if close < |s| then Some(close + 1) else None
    else None
  }

  lemma ScanNeedsKey(s: string, key: string)
    requires key != []
    ensures QuotedPairAt(s, key).Some? ==> OccursAt(s, key, SkipSpaces(s, 0))
  {
  }

  /** The first quote at or after `i` is the quote at `c` when none lies
      in between. */
  lemma FirstQuoteIs(t: string, i: nat, c: nat)
    requires i <= c < |t| && IsQuote(t[c])
    requires forall j | i <= j < c :: !IsQuote(t[j])
    ensures FirstQuote(t, i) == c
  {
  }

  /** A match's whitespace is the whole leading run, since the key does
      not start with whitespace. */
  lemma MatchSpaceRun(s: string, key: string, n: nat, w: nat)
    requires key != [] && !IsSpace(key[0]) && QuotedPairMatch(s, key, n, w)
    ensures w == SkipSpaces(s, 0)
  {
    assert s[w..w + |key|][0] == s[w];
  }

  /** The scanner's result once the key and the opening quote are found. */
  lemma QuotedPairAtValue(s: string, key: string, w: nat)
    requires key != [] && w == SkipSpaces(s, 0)
    requires OccursAt(s, key, w) && w + |key| < |s| && IsQuote(s[w + |key|])
    ensures QuotedPairAt(s, key).Some? <==> FirstQuote(s, w + |key| + 1) < |s|
    ensures QuotedPairAt(s, key).Some? ==> QuotedPairAt(s, key).value == FirstQuote(s, w + |key| + 1) + 1
  {
  }

  /** The scanner agrees with the pattern: a prefix of `s` matches it
      exactly when it is the prefix the scanner reports.  Since the key
      does not start with whitespace, `\s*` can only take the whole
      leading run, and `[^'"]*` can only stop at the first quote, so the
      match is unique. */
  lemma QuotedPairAtMatches(s: string, key: string, n: nat, w: nat)
    requires key != [] && !IsSpace(key[0])
    ensures QuotedPairMatch(s, key, n, w) <==>
      QuotedPairAt(s, key).Some? && QuotedPairAt(s, key).value == n && w == SkipSpaces(s, 0)
  {
    if QuotedPairMatch(s, key, n, w) {
      MatchSpaceRun(s, key, n, w);
      FirstQuoteIs(s, w + |key| + 1, n - 1);
      QuotedPairAtValue(s, key, w);
    }
  }

  /** `re.sub(r"\s*KEY['\"][^'\"]*['\"]", "", s)`: matches are removed
      left to right; where none starts, one character is kept. */
  function RemoveQuotedPairs(s: string, key: string): (r: string)
    requires key != [] && !IsSpace(key[0])
    decreases |s|
  {
    if s == [] then []
    else match QuotedPairAt(s, key)
      case Some(n) => RemoveQuotedPairs(s[n..], key)
      case None => [s[0]] + RemoveQuotedPairs(s[1..], key)
  }

  /** The key is never immediately followed by a quote. */
  predicate OnlyUnquoted(s: string, key: string) {
    forall k | 0 <= k && k + |key| < |s| :: OccursAt(s, key, k) ==> !IsQuote(s[k + |key|])
  }

  lemma UnquotedNoMatch(s: string, key: string)
    requires key != [] && OnlyUnquoted(s, key)
    ensures QuotedPairAt(s, key).None?
  {
  }

  lemma OnlyUnquotedTail(s: string, key: string)
    requires s != [] && OnlyUnquoted(s, key)
    ensures OnlyUnquoted(s[1..], key)
  {
    forall k | 0 <= k && k + |key| < |s[1..]| && OccursAt(s[1..], key, k)
      ensures !IsQuote(s[1..][k + |key|])
    {
      OccursShift(s, key, k);
      assert s[1..][k + |key|] == s[k + 1 + |key|];
    }
  }

  /** Only quoted values are removed: a text in which the key is never
      followed by a quote comes back unchanged. */
  lemma {:induction false} RemoveKeepsUnquoted(s: string, key: string)
    requires key != [] && !IsSpace(key[0])
    requires OnlyUnquoted(s, key)
    ensures RemoveQuotedPairs(s, key) == s
    decreases |s|
  {
    if s != [] {
      UnquotedNoMatch(s, key);
      OnlyUnquotedTail(s, key);
      RemoveKeepsUnquoted(s[1..], key);
      assert s == [s[0]] + s[1..];
    }
  }

  /** `_clean_single_datasource` as a value: the selected removals, then
      the whitespace collapse and `strip()`. */
  /** The two removal passes, each only when its check box is set. */
  function RemoveCredentials(o: Options, d: string): string {
    var afterUser := if o.removeUser then RemoveQuotedPairs(d, "user=") else d;
    if o.removePassword then RemoveQuotedPairs(afterUser, "password=") else afterUser
  }

  function CleanedDatasource(o: Options, d: string): string {
    NormalizeSpaces(RemoveCredentials(o, d))
  }

  /** The cleaned text is whitespace-normalised whatever the options. */
  lemma CleanedShape(o: Options, d: string)
    ensures var c := CleanedDatasource(o, d);
      NoAdjacentSpaces(c) && (c != [] ==> !IsSpace(c[0]) && !IsSpace(c[|c| - 1]))
  {
    NormalizeSpacesShape(RemoveCredentials(o, d));
  }

  /** `_clean_single_datasource`, rebinding `cleaned` step by step. */
  method CleanSingleDatasource(o: Options, datasource: string) returns (cleaned: string)
    ensures cleaned == CleanedDatasource(o, datasource)
    ensures NoAdjacentSpaces(cleaned)
    ensures cleaned != [] ==> !IsSpace(cleaned[0]) && !IsSpace(cleaned[|cleaned| - 1])
    ensures !o.removeUser && !o.removePassword ==> cleaned == NormalizeSpaces(datasource)
  {
    KeysDistinct();
    cleaned := datasource;
    if o.removeUser {
      cleaned := RemoveQuotedPairs(cleaned, "user=");
    }
    if o.removePassword {
      cleaned := RemoveQuotedPairs(cleaned, "password=");
    }
    cleaned := NormalizeSpaces(cleaned);
    CleanedShape(o, datasource);
  }

  /** A match found in a prefix is found whatever follows it, and the
      pass resumes after it. */
  lemma RemoveLeadingMatch(x: string, y: string, key: string, w: nat)
    requires key != [] && !IsSpace(key[0])
    requires QuotedPairMatch(x, key, |x|, w)
    ensures RemoveQuotedPairs(x + y, key) == RemoveQuotedPairs(y, key)
  {
    var s := x + y;
    assert s[w..w + |key|] == x[w..w + |key|];
    assert QuotedPairMatch(s, key, |x|, w);
    QuotedPairAtMatches(s, key, |x|, w);
    assert s[|x|..] == y;
  }

  /** No match can start before index `n`: wherever the key occurs there,
      it is not followed by a quote. */
  predicate NoMatchBefore(s: string, key: string, n: nat) {
    forall k | 0 <= k < n && k + |key| < |s| :: OccursAt(s, key, k) ==> !IsQuote(s[k + |key|])
  }

  lemma NoMatchBeforeTail(s: string, key: string, n: nat)
    requires s != [] && 1 <= n && NoMatchBefore(s, key, n)
    ensures NoMatchBefore(s[1..], key, n - 1)
  {
    forall k | 0 <= k < n - 1 && k + |key| < |s[1..]| && OccursAt(s[1..], key, k)
      ensures !IsQuote(s[1..][k + |key|])
    {
      OccursShift(s, key, k);
      assert s[1..][k + |key|] == s[k + 1 + |key|];
    }
  }

  /** The scanner finds nothing when the leading whitespace ends before
      index `n` and no match starts before it. */
  lemma NoMatchNone(s: string, key: string, n: nat)
    requires key != [] && NoMatchBefore(s, key, n)
    requires SkipSpaces(s, 0) < n
    ensures QuotedPairAt(s, key).None?
  {
  }

  /** The first `n` characters of `s`, in which no match starts and
      which do not end in whitespace, are copied through. */
  lemma {:induction false} RemoveUnmatchedPrefix(s: string, key: string, n: nat)
    requires key != [] && !IsSpace(key[0])
    requires n <= |s| && NoMatchBefore(s, key, n)
    requires n > 0 ==> !IsSpace(s[n - 1])
    ensures RemoveQuotedPairs(s, key) == s[..n] + RemoveQuotedPairs(s[n..], key)
    decreases n
  {
    if n > 0 {
      NoMatchNone(s, key, n);
      NoMatchBeforeTail(s, key, n);
      if n > 1 {
        assert s[1..][n - 2] == s[n - 1];
      }
      RemoveUnmatchedPrefix(s[1..], key, n - 1);
      assert s[1..][n - 1..] == s[n..];
      assert [s[0]] + s[1..][..n - 1] == s[..n];
      ConcatAssoc([s[0]], s[1..][..n - 1], RemoveQuotedPairs(s[n..], key));
    } else {
      assert s[..0] + RemoveQuotedPairs(s[0..], key) == RemoveQuotedPairs(s, key) by {
        assert s[0..] == s;
      }
    }
  }

  /** A stretch in which no match starts, not ending in whitespace, is
      copied through, whatever follows it. */
  lemma RemoveAppendUnmatched(a: string, b: string, key: string)
    requires key != [] && !IsSpace(key[0])
    requires NoMatchBefore(a + b, key, |a|)
    requires a != [] ==> !IsSpace(a[|a| - 1])
    ensures RemoveQuotedPairs(a + b, key) == a + RemoveQuotedPairs(b, key)
  {
    var s := a + b;
    if a != [] {
      assert s[|a| - 1] == a[|a| - 1];
    }
    RemoveUnmatchedPrefix(s, key, |a|);
    assert s[..|a|] == a && s[|a|..] == b;
  }

  /** Text in which the key is never followed by a quote, then a space:
      no match starts in the text, since the key holds no space. */
  lemma KeptNoMatch(kept: string, b: string, key: string)
    requires ' ' !in key && OnlyUnquoted(kept, key)
    requires b != [] && b[0] == ' '
    ensures NoMatchBefore(kept + b, key, |kept|)
  {
    var s := kept + b;
    forall k | 0 <= k < |kept| && k + |key| < |s| && OccursAt(s, key, k)
      ensures !IsQuote(s[k + |key|])
    {
      if k + |key| < |kept| {
        assert s[k..k + |key|] == kept[k..k + |key|];
        assert OccursAt(kept, key, k);
        assert s[k + |key|] == kept[k + |key|];
      } else if k + |key| > |kept| {
        OccursIndex(s, key, k, |kept| - k);
        assert false;
      }
    }
  }

  /** The text ` KEY'v'` that `RemoveQuotedPairs` takes out as one match. */
  function QuotedPair(key: string, v: string): (t: string)
    ensures |t| == |key| + |v| + 3
    ensures t[|t| - 1] == '\''
  {
    " " + key + "'" + v + "'"
  }

  /** A quoted `KEY'value'` followed by more text is removed together
      with the whitespace before it. */
  lemma RemoveQuotedPrefix(key: string, v: string, y: string)
    requires key != [] && !IsSpace(key[0])
    requires forall i | 0 <= i < |v| :: !IsQuote(v[i])
    ensures RemoveQuotedPairs(QuotedPair(key, v) + y, key) == RemoveQuotedPairs(y, key)
  {
    var x := QuotedPair(key, v);
    assert x[1..1 + |key|] == key;
    forall j | 1 + |key| < j < |x| - 1 ensures !IsQuote(x[j]) {
      assert x[j] == v[j - |key| - 2];
    }
    assert QuotedPairMatch(x, key, |x|, 1);
    RemoveLeadingMatch(x, y, key, 1);
  }

  /** A quoted pair between a stretch in which no match starts and a text
      in which the key is never followed by a quote is dropped, and only
      it. */
  lemma RemoveOnePair(kept: string, key: string, v: string, rest: string)
    requires key != [] && !IsSpace(key[0]) && ' ' !in key
    requires kept != [] ==> !IsSpace(kept[|kept| - 1])
    requires OnlyUnquoted(kept, key)
    requires forall i | 0 <= i < |v| :: !IsQuote(v[i])
    requires OnlyUnquoted(rest, key)
    ensures RemoveQuotedPairs(kept + QuotedPair(key, v) + rest, key) == kept + rest
  {
    var b := QuotedPair(key, v) + rest;
    calc {
      RemoveQuotedPairs(kept + QuotedPair(key, v) + rest, key);
    == { ConcatAssoc(kept, QuotedPair(key, v), rest); }
      RemoveQuotedPairs(kept + b, key);
    == { KeptNoMatch(kept, b, key); RemoveAppendUnmatched(kept, b, key); }
      kept + RemoveQuotedPairs(b, key);
    == { RemoveQuotedPrefix(key, v, rest); }
      kept + RemoveQuotedPairs(rest, key);
    == { RemoveKeepsUnquoted(rest, key); }
      kept + rest;
    }
  }

  /** The two keys start with a character that is neither whitespace nor
      a quote, and hold no space. */
  lemma KeysDistinct()
    ensures "user=" != [] && "password=" != []
    ensures !IsSpace("user="[0]) && !IsSpace("password="[0])
    ensures ' ' !in "user=" && ' ' !in "password="
  {
  }

  /** In ` password='v'` the user key is followed by a quote only where
      `v` ends in it. */
  lemma PasswordPairUnquoted(v: string)
    requires forall i | 0 <= i < |v| :: !IsQuote(v[i])
    requires !EndsWith(v, "user=")
    ensures OnlyUnquoted(QuotedPair("password=", v), "user=")
  {
    var s := QuotedPair("password=", v);
    var key := "user=";
    forall k | 0 <= k && k + |key| < |s| && OccursAt(s, key, k)
      ensures !IsQuote(s[k + |key|])
    {
      if IsQuote(s[k + |key|]) {
        if k + |key| == 10 {
          OccursIndex(s, key, k, 0);
          assert false;
        } else if k + |key| == |s| - 1 {
          if k >= 11 {
            assert false;
          } else {
            OccursIndex(s, key, k, 10 - k);
            assert false;
          }
        } else {
          assert false;
        }
      }
    }
  }

  /** A datasource followed by a quoted user and a quoted password loses
      both when both options are on; the rest is whitespace-normalised. */
  lemma CleanBothCredentials(kept: string, user: string, password: string)
    requires kept != [] ==> !IsSpace(kept[|kept| - 1])
    requires OnlyUnquoted(kept, "user=") && OnlyUnquoted(kept, "password=")
    requires forall i | 0 <= i < |user| :: !IsQuote(user[i])
    requires forall i | 0 <= i < |password| :: !IsQuote(password[i])
    requires !EndsWith(password, "user=")
    ensures CleanedDatasource(DefaultOptions,
      kept + QuotedPair("user=", user) + QuotedPair("password=", password)) == NormalizeSpaces(kept)
    ensures NormalizeSpaces(kept) == kept ==>
      CleanedDatasource(DefaultOptions,
        kept + QuotedPair("user=", user) + QuotedPair("password=", password)) == kept
  {
    KeysDistinct();
    PasswordPairUnquoted(password);
    RemoveOnePair(kept, "user=", user, QuotedPair("password=", password));
    RemoveOnePair(kept, "password=", password, []);
    assert kept + QuotedPair("password=", password) + [] == kept + QuotedPair("password=", password);
    assert kept + [] == kept;
  }

  // ---------------------------------------------------------------------
  // The document pass: `re.finditer(r'<datasource>(.*?)</datasource>')`
  // and the `re.sub` with the same pattern.

  const OpenTag := "<datasource>"
  const CloseTag := "</datasource>"

  /** A document cut at its datasource blocks: text between blocks, and
      block bodies (the text between the tags). */
  datatype Piece = Plain(text: string) | Block(body: string)

  function PieceText(p: Piece, open: string, close: string): string {
    match p
    case Plain(t) => t
    case Block(b) => open + b + close
  }

  /** The text a sequence of pieces stands for. */
  function Render(ps: seq<Piece>, open: string, close: string): string
    decreases |ps|
  {
    if ps == [] then [] else Render(ps[..|ps| - 1], open, close) + PieceText(ps[|ps| - 1], open, close)
  }

  lemma RenderLast(ps: seq<Piece>, open: string, close: string)
    requires ps != []
    ensures Render(ps, open, close) == Render(ps[..|ps| - 1], open, close) + PieceText(ps[|ps| - 1], open, close)
  {
  }

  lemma {:induction false} RenderAppend(xs: seq<Piece>, ys: seq<Piece>, open: string, close: string)
    ensures Render(xs + ys, open, close) == Render(xs, open, close) + Render(ys, open, close)
    decreases |ys|
  {
    if ys == [] {
      assert xs + ys == xs;
    } else {
      var ys', y := ys[..|ys| - 1], ys[|ys| - 1];
      var zs := xs + ys;
      assert zs[..|zs| - 1] == xs + ys';
      assert zs[|zs| - 1] == y;
      RenderLast(zs, open, close);
      RenderLast(ys, open, close);
      RenderAppend(xs, ys', open, close);
      ConcatAssoc(Render(xs, open, close), Render(ys', open, close), PieceText(y, open, close));
    }
  }

  /** The matches of `OPEN(.*?)CLOSE` from left to right: a block starts at
      the first opening tag and ends at the first closing tag after it;
      when no closing tag follows, nothing more matches. */
  function Split(c: string, open: string, close: string): (ps: seq<Piece>)
    requires open != [] && close != []
    decreases |c|, 1
  {
    if c == [] then []
    else
      var i := FindFrom(c, open, 0);
      if i.None? then [Plain(c)]
      else
        var j := FindFrom(c, close, i.value + |open|);
        if j.None? then [Plain(c)]
        else SplitAt(c, open, close, i.value, j.value)
  }

  /** The text before the match, the match's body, and the matches of the
      rest, for a match whose tags sit at `i` and `j`. */
  function SplitAt(c: string, open: string, close: string, i: nat, j: nat): (ps: seq<Piece>)
    requires open != [] && close != [] && i + |open| <= j && j + |close| <= |c|
    decreases |c|, 0
  {
    [Plain(c[..i]), Block(c[i + |open|..j])] + Split(c[j + |close|..], open, close)
  }

  /** Without a complete match, the document is one plain piece. */
  lemma SplitNoMatch(c: string, open: string, close: string)
    requires open != [] && close != [] && c != []
    requires FindFrom(c, open, 0).None? || FindFrom(c, close, FindFrom(c, open, 0).value + |open|).None?
    ensures Split(c, open, close) == [Plain(c)]
  {
  }

  /** With a first match whose tags sit at `i` and `j`. */
  lemma SplitMatch(c: string, open: string, close: string, i: nat, j: nat)
    requires open != [] && close != [] && c != []
    requires FindFrom(c, open, 0).Some? && FindFrom(c, open, 0).value == i
    requires FindFrom(c, close, i + |open|).Some? && FindFrom(c, close, i + |open|).value == j
    ensures i + |open| <= j && j + |close| <= |c|
    ensures Split(c, open, close) == SplitAt(c, open, close, i, j)
  {
  }

  lemma RenderPair(a: string, b: string, open: string, close: string)
    ensures Render([Plain(a), Block(b)], open, close) == a + (open + b + close)
  {
    assert [Plain(a), Block(b)][..1] == [Plain(a)];
    assert [Plain(a)][..0] == [];
    assert Render([Plain(a)], open, close) == [] + a;
    assert [] + a == a;
  }

  lemma RenderSingle(c: string, open: string, close: string)
    ensures Render([Plain(c)], open, close) == c
  {
    assert [Plain(c)][..0] == [];
    assert [] + c == c;
  }

  /** A text cut around an opening tag at `i` and a closing tag at `j`. */
  lemma CutAtTags(c: string, open: string, close: string, i: nat, j: nat)
    requires OccursAt(c, open, i) && OccursAt(c, close, j) && i + |open| <= j
    ensures c == c[..i] + (open + c[i + |open|..j] + close) + c[j + |close|..]
  {
    assert c == c[..i] + c[i..i + |open|] + c[i + |open|..j] + c[j..j + |close|] + c[j + |close|..];
  }

  lemma RenderSplitAt(c: string, open: string, close: string, i: nat, j: nat)
    requires open != [] && close != [] && i + |open| <= j && j + |close| <= |c|
    requires OccursAt(c, open, i) && OccursAt(c, close, j)
    requires Render(Split(c[j + |close|..], open, close), open, close) == c[j + |close|..]
    ensures Render(SplitAt(c, open, close, i, j), open, close) == c
  {
    var head := [Plain(c[..i]), Block(c[i + |open|..j])];
    assert SplitAt(c, open, close, i, j) == head + Split(c[j + |close|..], open, close);
    RenderAppend(head, Split(c[j + |close|..], open, close), open, close);
    RenderPair(c[..i], c[i + |open|..j], open, close);
    CutAtTags(c, open, close, i, j);
  }

  lemma RenderNoMatch(c: string, open: string, close: string)
    requires open != [] && close != [] && c != []
    requires FindFrom(c, open, 0).None? || FindFrom(c, close, FindFrom(c, open, 0).value + |open|).None?
    ensures Render(Split(c, open, close), open, close) == c
  {
    SplitNoMatch(c, open, close);
    RenderSingle(c, open, close);
  }

  lemma RenderMatch(c: string, open: string, close: string, i: nat, j: nat)
    requires open != [] && close != [] && c != []
    requires FindFrom(c, open, 0).Some? && FindFrom(c, open, 0).value == i
    requires FindFrom(c, close, i + |open|).Some? && FindFrom(c, close, i + |open|).value == j
    requires j + |close| <= |c|
    requires Render(Split(c[j + |close|..], open, close), open, close) == c[j + |close|..]
    ensures Render(Split(c, open, close), open, close) == c
  {
    SplitMatch(c, open, close, i, j);
    RenderSplitAt(c, open, close, i, j);
  }

  /** Putting the pieces back together gives the document. */
  lemma {:induction false} SplitRender(c: string, open: string, close: string)
    requires open != [] && close != []
    ensures Render(Split(c, open, close), open, close) == c
    decreases |c|
  {
    if c != [] {
      if FindFrom(c, open, 0).None? {
        RenderNoMatch(c, open, close);
      } else {
        var i := FindFrom(c, open, 0).value;
        if FindFrom(c, close, i + |open|).None? {
          RenderNoMatch(c, open, close);
        } else {
          var j := FindFrom(c, close, i + |open|).value;
          SplitRender(c[j + |close|..], open, close);
          RenderMatch(c, open, close, i, j);
        }
      }
    }
  }

  /** A block body is a stretch in which no closing tag starts. */
  lemma NoCloseInBody(c: string, close: string, from: nat, j: nat)
    requires close != [] && from <= j <= |c|
    requires forall k | from <= k < j :: !OccursAt(c, close, k)
    ensures !Contains(c[from..j], close)
  {
    forall k | 0 <= k <= j - from ensures !OccursAt(c[from..j], close, k) {
      if OccursAt(c[from..j], close, k) {
        assert c[from + k..from + k + |close|] == close by {
          forall i | 0 <= i < |close| ensures c[from + k + i] == close[i] {
            assert c[from..j][k..k + |close|][i] == close[i];
          }
        }
        assert OccursAt(c, close, from + k);
      }
    }
  }

  lemma BodiesClosedMatch(c: string, open: string, close: string, i: nat, j: nat)
    requires open != [] && close != [] && c != []
    requires FindFrom(c, open, 0).Some? && FindFrom(c, open, 0).value == i
    requires FindFrom(c, close, i + |open|).Some? && FindFrom(c, close, i + |open|).value == j
    requires j + |close| <= |c|
    requires forall p | p in Split(c[j + |close|..], open, close) && p.Block? :: !Contains(p.body, close)
    ensures forall p | p in Split(c, open, close) && p.Block? :: !Contains(p.body, close)
  {
    SplitMatch(c, open, close, i, j);
    NoCloseInBody(c, close, i + |open|, j);
    var head := [Plain(c[..i]), Block(c[i + |open|..j])];
    assert SplitAt(c, open, close, i, j) == head + Split(c[j + |close|..], open, close);
  }

  /** The match is lazy: no block body holds a closing tag. */
  lemma {:induction false} SplitBodiesClosed(c: string, open: string, close: string)
    requires open != [] && close != []
    ensures forall p | p in Split(c, open, close) && p.Block? :: !Contains(p.body, close)
    decreases |c|
  {
    if c != [] {
      if FindFrom(c, open, 0).None? {
        SplitNoMatch(c, open, close);
      } else {
        var i := FindFrom(c, open, 0).value;
        if FindFrom(c, close, i + |open|).None? {
          SplitNoMatch(c, open, close);
        } else {
          var j := FindFrom(c, close, i + |open|).value;
          SplitBodiesClosed(c[j + |close|..], open, close);
          BodiesClosedMatch(c, open, close, i, j);
        }
      }
    }
  }

  /** The body as the tab handles it: `match.group(1).strip()`, cleaned
      when it holds credentials. */
  predicate BlockChanges(o: Options, b: string) {
    var d := Strip(b);
    HasPostgresCredentials(o, d) && CleanedDatasource(o, d) != d
  }

  /** `replace_datasource`: a block whose stripped body holds credentials
      and changes under cleaning is rebuilt around the cleaned body; every
      other match is returned as it was. */
  function RewritePiece(o: Options, p: Piece): Piece {
    if p.Block? && BlockChanges(o, p.body) then Block(CleanedDatasource(o, Strip(p.body))) else p
  }

  function RewriteAll(o: Options, ps: seq<Piece>): (qs: seq<Piece>)
    ensures |qs| == |ps|
  {
    seq(|ps|, i requires 0 <= i < |ps| => RewritePiece(o, ps[i]))
  }

  lemma RewriteAllAppend(o: Options, ps: seq<Piece>, p: Piece)
    ensures RewriteAll(o, ps + [p]) == RewriteAll(o, ps) + [RewritePiece(o, p)]
  {
  }

  /** The before/after pair a piece contributes to the preview. */
  function PieceChange(o: Options, p: Piece): seq<(string, string)> {
    if p.Block? && BlockChanges(o, p.body) then [(Strip(p.body), CleanedDatasource(o, Strip(p.body)))] else []
  }

  function Changes(o: Options, ps: seq<Piece>): seq<(string, string)>
    decreases |ps|
  {
    if ps == [] then [] else Changes(o, ps[..|ps| - 1]) + PieceChange(o, ps[|ps| - 1])
  }

  /** One more piece of the preview. */
  lemma ChangesStep(o: Options, ps: seq<Piece>, i: nat)
    requires i < |ps|
    ensures Changes(o, ps[..i + 1]) == Changes(o, ps[..i]) + PieceChange(o, ps[i])
  {
    assert ps[..i + 1][..i] == ps[..i];
  }

  /** 1 for a block the rewrite changes, 0 for any other piece. */
  function ChangeFlag(o: Options, p: Piece): nat {
    if p.Block? && BlockChanges(o, p.body) then 1 else 0
  }

  lemma FlagIsBit(o: Options, p: Piece)
    ensures ChangeFlag(o, p) == 0 || ChangeFlag(o, p) == 1
  {
  }

  function Flags(o: Options, ps: seq<Piece>): (fs: seq<nat>)
    ensures |fs| == |ps|
  {
    seq(|ps|, k requires 0 <= k < |ps| => ChangeFlag(o, ps[k]))
  }

  /** The number of blocks the rewrite changes. */
  function ChangeCount(o: Options, ps: seq<Piece>): nat {
    Sum(Flags(o, ps))
  }

  lemma CountLast(o: Options, ps: seq<Piece>)
    requires ps != []
    ensures ChangeCount(o, ps) == ChangeCount(o, ps[..|ps| - 1]) + ChangeFlag(o, ps[|ps| - 1])
  {
    assert Flags(o, ps)[..|ps| - 1] == Flags(o, ps[..|ps| - 1]);
  }

  /** The count is the length of the preview. */
  lemma {:induction false} ChangeCountIsPreviewLength(o: Options, ps: seq<Piece>)
    ensures ChangeCount(o, ps) == |Changes(o, ps)|
    decreases |ps|
  {
    if ps != [] {
      ChangeCountIsPreviewLength(o, ps[..|ps| - 1]);
      CountLast(o, ps);
    }
  }

  /** One more piece of the rewritten document. */
  lemma RenderPrefix(qs: seq<Piece>, i: nat, open: string, close: string)
    requires i < |qs|
    ensures Render(qs[..i + 1], open, close) == Render(qs[..i], open, close) + PieceText(qs[i], open, close)
  {
    RenderLast(qs[..i + 1], open, close);
    assert qs[..i + 1][..i] == qs[..i];
  }

  /** `_find_datasource_changes`: one pass over the matches, appending a
      pair for every block that cleaning changes. */
  method FindDatasourceChanges(o: Options, content: string) returns (changes: seq<(string, string)>)
    ensures changes == Changes(o, Split(content, OpenTag, CloseTag))
  {
    var pieces := Split(content, OpenTag, CloseTag);
    changes := [];
    var i := 0;
    while i < |pieces|
      invariant i <= |pieces|
      invariant changes == Changes(o, pieces[..i])
    {
      ChangesStep(o, pieces, i);
      if pieces[i].Block? {
        var original := Strip(pieces[i].body);
        if HasPostgresCredentials(o, original) {
          var cleaned := CleanSingleDatasource(o, original);
          if cleaned != original {
            changes := changes + [(original, cleaned)];
          }
        }
      }
      i := i + 1;
    }
    assert pieces[..i] == pieces;
  }

  /** `replace_datasource`, the callback `_clean_datasources` hands to
      `re.sub`: the text that replaces one match, and whether it counts as
      a change. */
  method ReplaceDatasource(o: Options, p: Piece) returns (replacement: string, changed: bool)
    ensures replacement == PieceText(RewritePiece(o, p), OpenTag, CloseTag)
    ensures changed <==> ChangeFlag(o, p) == 1
    ensures !changed ==> replacement == PieceText(p, OpenTag, CloseTag)
  {
    replacement, changed := PieceText(p, OpenTag, CloseTag), false;
    if p.Block? {
      var original := Strip(p.body);
      if HasPostgresCredentials(o, original) {
        var cleaned := CleanSingleDatasource(o, original);
        if cleaned != original {
          changed := true;
          replacement := OpenTag + cleaned + CloseTag;
          assert RewritePiece(o, p) == Block(cleaned);
        } else {
          assert RewritePiece(o, p) == p;
        }
      } else {
        assert RewritePiece(o, p) == p;
      }
    }
  }

  /** What the cleaning loop has produced once it has handled the first
      `i` pieces. */
  predicate CleanLoop(rewritten: seq<Piece>, flags: seq<nat>, i: nat, cleaned: string, count: nat)
    requires i <= |rewritten| && i <= |flags|
  {
    cleaned == Render(rewritten[..i], OpenTag, CloseTag) && count == Sum(flags[..i])
  }

  /** One turn of the cleaning loop keeps the text and the count in step
      with the rewritten pieces and their change flags. */
  lemma CleanStep(o: Options, pieces: seq<Piece>, i: nat, cleaned: string, count: nat,
                  replacement: string, changed: bool)
    requires i < |pieces|
    requires CleanLoop(RewriteAll(o, pieces), Flags(o, pieces), i, cleaned, count)
    requires replacement == PieceText(RewritePiece(o, pieces[i]), OpenTag, CloseTag)
    requires changed <==> ChangeFlag(o, pieces[i]) == 1
    ensures CleanLoop(RewriteAll(o, pieces), Flags(o, pieces), i + 1, cleaned + replacement,
                      if changed then count + 1 else count)
  {
    var rewritten, flags := RewriteAll(o, pieces), Flags(o, pieces);
    assert rewritten[i] == RewritePiece(o, pieces[i]) && flags[i] == ChangeFlag(o, pieces[i]);
    FlagIsBit(o, pieces[i]);
    LoopAdvance(rewritten, flags, i, cleaned, count);
  }

  /** The step on the pieces and flags themselves: append the next
      piece's text and add the next flag. */
  lemma LoopAdvance(rewritten: seq<Piece>, flags: seq<nat>, i: nat, cleaned: string, count: nat)
    requires i < |rewritten| && i < |flags|
    requires CleanLoop(rewritten, flags, i, cleaned, count)
    ensures CleanLoop(rewritten, flags, i + 1, cleaned + PieceText(rewritten[i], OpenTag, CloseTag), count + flags[i])
  {
    RenderPrefix(rewritten, i, OpenTag, CloseTag);
    SumPrefix(flags, i);
  }

  /** `_clean_datasources`: the rewritten document and the number of blocks
      rewritten, counted as the rewrite goes. */
  method CleanDatasources(o: Options, content: string) returns (cleaned: string, count: nat)
    ensures cleaned == Render(RewriteAll(o, Split(content, OpenTag, CloseTag)), OpenTag, CloseTag)
    ensures count == ChangeCount(o, Split(content, OpenTag, CloseTag))
  {
    var pieces := Split(content, OpenTag, CloseTag);
    cleaned, count := CleanPieces(o, pieces);
  }

  /** The substitution loop of `re.sub` over the pieces of the file. */
  method CleanPieces(o: Options, pieces: seq<Piece>) returns (cleaned: string, count: nat)
    ensures cleaned == Render(RewriteAll(o, pieces), OpenTag, CloseTag)
    ensures count == ChangeCount(o, pieces)
  {
    ghost var rewritten, flags := RewriteAll(o, pieces), Flags(o, pieces);
    cleaned, count := [], 0;
    var i := 0;
    while i < |pieces|
      invariant i <= |pieces|
      invariant CleanLoop(rewritten, flags, i, cleaned, count)
    {
      cleaned, count := SubstituteMatch(o, pieces, i, cleaned, count);
      i := i + 1;
    }
    assert rewritten[..i] == rewritten;
    assert flags[..i] == flags;
  }

  /** One match handled: the callback's text is appended and the counter,
      which the callback advances on a change, follows. */
  method SubstituteMatch(o: Options, pieces: seq<Piece>, i: nat, cleaned: string, count: nat)
    returns (cleaned': string, count': nat)
    requires i < |pieces|
    requires CleanLoop(RewriteAll(o, pieces), Flags(o, pieces), i, cleaned, count)
    ensures CleanLoop(RewriteAll(o, pieces), Flags(o, pieces), i + 1, cleaned', count')
  {
    var replacement, changed := ReplaceDatasource(o, pieces[i]);
    CleanStep(o, pieces, i, cleaned, count, replacement, changed);
    cleaned' := cleaned + replacement;
    count' := if changed then count + 1 else count;
  }

  // ---------------------------------------------------------------------
  // What the two passes promise.

  /** `dbname=`, `user=` and `password=` are looked for with Python's `in`,
      which is `find(...) != -1`. */
  lemma CredentialsByFind(o: Options, d: string)
    ensures HasPostgresCredentials(o, d) <==>
      FindFrom(d, "dbname=", 0).Some? &&
      ((FindFrom(d, "user=", 0).Some? && o.removeUser) || (FindFrom(d, "password=", 0).Some? && o.removePassword))
  {
    ContainsFind(d, "dbname=");
    ContainsFind(d, "user=");
    ContainsFind(d, "password=");
  }

  lemma BodyChanges(o: Options, b: string)
    ensures BlockChanges(o, b) ==> CleanedDatasource(o, Strip(b)) != b
  {
    CleanedShape(o, Strip(b));
    StripChanged(b);
  }

  /** A counted block really changes: its cleaned body differs from the
      body between the tags, not just from the stripped body. */
  lemma CountedBlockChanges(o: Options, p: Piece)
    ensures ChangeFlag(o, p) == 1 ==> RewritePiece(o, p) != p
  {
    if p.Block? {
      BodyChanges(o, p.body);
    }
  }

  /** The rewrite touches exactly the pieces it counts: everything else,
      text between blocks included, comes through unchanged. */
  lemma RewriteTouchesCounted(o: Options, ps: seq<Piece>, i: nat)
    requires i < |ps|
    ensures RewriteAll(o, ps)[i] != ps[i] <==> ChangeFlag(o, ps[i]) == 1
    ensures ChangeFlag(o, ps[i]) == 1 ==>
      RewriteAll(o, ps)[i] == Block(CleanedDatasource(o, Strip(ps[i].body)))
  {
    CountedBlockChanges(o, ps[i]);
  }

  /** With nothing counted, nothing is rewritten. */
  lemma {:induction false} NothingCountedNothingRewritten(o: Options, ps: seq<Piece>)
    requires ChangeCount(o, ps) == 0
    ensures RewriteAll(o, ps) == ps
    decreases |ps|
  {
    if ps != [] {
      var init := ps[..|ps| - 1];
      CountLast(o, ps);
      NothingCountedNothingRewritten(o, init);
      RewriteAllAppend(o, init, ps[|ps| - 1]);
      assert ps == init + [ps[|ps| - 1]];
    }
  }

  /** A document in which no block is counted is written back unchanged. */
  lemma NoCountKeepsDocument(o: Options, c: string, open: string, close: string)
    requires open != [] && close != []
    requires ChangeCount(o, Split(c, open, close)) == 0
    ensures Render(RewriteAll(o, Split(c, open, close)), open, close) == c
  {
    NothingCountedNothingRewritten(o, Split(c, open, close));
    SplitRender(c, open, close);
  }

  /** What a preview pair is: a stripped body that holds credentials,
      and its cleaning, which differs from it and is whitespace-normalised. */
  predicate IsCleaning(o: Options, pair: (string, string)) {
    && HasPostgresCredentials(o, pair.0)
    && pair.1 == CleanedDatasource(o, pair.0)
    && pair.0 != pair.1
    && Strip(pair.0) == pair.0
    && NoAdjacentSpaces(pair.1)
  }

  lemma PieceChangeMeaning(o: Options, p: Piece)
    ensures PieceChange(o, p) == [] || (|PieceChange(o, p)| == 1 && IsCleaning(o, PieceChange(o, p)[0]))
  {
    if p.Block? && BlockChanges(o, p.body) {
      StripIdempotent(p.body);
      CleanedShape(o, Strip(p.body));
    }
  }

  /** Every preview pair is a cleaning. */
  lemma {:induction false} ChangesMeaning(o: Options, ps: seq<Piece>)
    ensures forall pair | pair in Changes(o, ps) :: IsCleaning(o, pair)
    decreases |ps|
  {
    if ps != [] {
      var init, p := ps[..|ps| - 1], ps[|ps| - 1];
      ChangesMeaning(o, init);
      PieceChangeMeaning(o, p);
      if PieceChange(o, p) != [] {
        assert Changes(o, ps) == Changes(o, init) + [PieceChange(o, p)[0]];
      }
    }
  }

  /** With both check boxes cleared, no block holds credentials to remove,
      so the document is written back unchanged and the preview is empty. */
  lemma {:induction false} OptionsOffNothingCounted(ps: seq<Piece>)
    ensures ChangeCount(Options(false, false), ps) == 0
    ensures Changes(Options(false, false), ps) == []
    decreases |ps|
  {
    if ps != [] {
      OptionsOffNothingCounted(ps[..|ps| - 1]);
      CountLast(Options(false, false), ps);
    }
  }

  // ---------------------------------------------------------------------
  // Files: `_read_qgs_file`, `_write_qgs_file` and the naming in
  // `clean_file`. The file system is a map from paths to contents.

  /** What a path holds: `.qgs` text, a zip archive of named entries (a
      `.qgz`), or bytes that are neither UTF-8 text nor a zip archive. */
  datatype FileData = QgsText(content: string) | Archive(entries: seq<(string, string)>) | Unreadable

  type Disk = map<string, FileData>

  /** The first entry, at or after `i`, whose name ends with `suffix`:
      `[f for f in namelist() if f.endswith(suffix)][0]`. */
  function FirstEntryEnding(entries: seq<(string, string)>, suffix: string, i: nat): (r: Option<nat>)
    requires i <= |entries|
    ensures r.Some? ==> i <= r.value < |entries| && EndsWith(entries[r.value].0, suffix)
    ensures r.Some? ==> forall k | i <= k < r.value :: !EndsWith(entries[k].0, suffix)
    ensures r.None? ==> forall k | i <= k < |entries| :: !EndsWith(entries[k].0, suffix)
    decreases |entries| - i
  {
    if i == |entries| then None
    else if EndsWith(entries[i].0, suffix) then Some(i)
    else FirstEntryEnding(entries, suffix, i + 1)
  }

  /** `_read_qgs_file`: a `.qgz` path is opened as an archive and yields
      its first `.qgs` entry; any other path is read as text. `None`
      stands for the exception the method reports. */
  function ReadQgs(disk: Disk, path: string): (r: Option<string>)
    ensures r.Some? ==> path in disk
    ensures EndsWith(path, ".qgz") && path in disk && disk[path].Archive? ==>
      (r.Some? <==> exists k | 0 <= k < |disk[path].entries| :: EndsWith(disk[path].entries[k].0, ".qgs"))
    ensures EndsWith(path, ".qgz") && path in disk && disk[path].Archive? && r.Some? ==>
      var k := FirstEntryEnding(disk[path].entries, ".qgs", 0);
      k.Some? && r.value == disk[path].entries[k.value].1
    ensures EndsWith(path, ".qgz") && !(path in disk && disk[path].Archive?) ==> r.None?
    ensures !EndsWith(path, ".qgz") ==>
      (r.Some? <==> path in disk && disk[path].QgsText?) && (r.Some? ==> r.value == disk[path].content)
  {
    if EndsWith(path, ".qgz") then
      if path in disk && disk[path].Archive? then
        match FirstEntryEnding(disk[path].entries, ".qgs", 0)
        case None => None
        case Some(k) => Some(disk[path].entries[k].1)
      else None
    else if path in disk && disk[path].QgsText? then Some(disk[path].content)
    else None
  }

  /** The name of the single entry written into a `.qgz`:
      `basename(output).replace('.qgz', '.qgs')`. */
  function EntryName(h: Host, output: string): string {
    Replace(Basename(h, output), ".qgz", ".qgs")
  }

  /** `_write_qgs_file`: the output path now holds the content, as text
      or as a one-entry archive. The temporary file it goes through is
      deleted again and does not appear. */
  function WriteQgs(h: Host, disk: Disk, output: string, content: string, isQgz: bool): (d: Disk)
    ensures output in d && forall q | q in disk && q != output :: q in d && d[q] == disk[q]
    ensures forall q | q in d :: q in disk || q == output
  {
    disk[output := if isQgz then Archive([(EntryName(h, output), content)]) else QgsText(content)]
  }

  /** `os.path.splitext` of the input, with `_cleaned` before the
      extension. */
  function CleanedPath(h: Host, path: string): string {
    var (root, ext) := SplitExt(h, path);
    root + "_cleaned" + ext
  }

  lemma NameFacts()
    ensures ".qgz" != [] && forall i | 0 < i < |".qgz"| :: ".qgz"[i] != ".qgz"[0]
    ensures forall k | 0 <= k < |".qgz"| :: ".qgz"[k] != '/' && ".qgz"[k] != '\\' && ".qgz"[k] != ':'
    ensures "_cleaned" != [] && "_cleaned"[0] != '.' && |"_cleaned"| >= |".qgz"|
    ensures forall k | 0 <= k < |"_cleaned"| :: "_cleaned"[k] != '.' && "_cleaned"[k] != '/' && "_cleaned"[k] != '\\'
    ensures ".qgz"[0] == '.'
  {
  }

  /** A suffix `x` (without separators and colons, and whose first
      character does not recur) of the output path survives into the
      entry name as `y`. */
  lemma EntryNameEnds(h: Host, output: string, x: string, y: string)
    requires x != [] && forall i | 0 < i < |x| :: x[i] != x[0]
    requires forall k | 0 <= k < |x| :: !IsSep(h, x[k]) && x[k] != ':'
    requires EndsWith(output, x)
    ensures EndsWith(Replace(Basename(h, output), x, y), y)
  {
    var b := Basename(h, output);
    BasenameEnds(h, output, x);
    var a := b[..|b| - |x|];
    assert b == a + x;
    ReplaceSuffix(a, x, y);
  }

  /** Reading back what was written gives the content, when the archive
      flag is the output's own `.qgz` suffix. */
  lemma WriteThenRead(h: Host, disk: Disk, output: string, content: string)
    ensures ReadQgs(WriteQgs(h, disk, output, content, EndsWith(output, ".qgz")), output) == Some(content)
  {
    if EndsWith(output, ".qgz") {
      NameFacts();
      EntryNameEnds(h, output, ".qgz", ".qgs");
      var d := WriteQgs(h, disk, output, content, true);
      assert d[output].entries == [(EntryName(h, output), content)];
      assert FirstEntryEnding(d[output].entries, ".qgs", 0) == Some(0);
    }
  }

  /** A marker at least as long as `x`, not containing `x`'s first
      character, cannot produce an `x` suffix that was not there. */
  lemma MarkerKeepsSuffix(root: string, m: string, ext: string, x: string)
    requires x != [] && |m| >= |x|
    requires forall k | 0 <= k < |m| :: m[k] != x[0]
    ensures EndsWith(root + m + ext, x) ==> EndsWith(root + ext, x)
  {
    var c, p := root + m + ext, root + ext;
    if |ext| < |x| {
      assert c[|c| - |x|] == m[|m| - |x| + |ext|];
      assert c[|c| - |x|..][0] != x[0];
    } else if EndsWith(c, x) {
      assert c[|c| - |x|..] == ext[|ext| - |x|..] == p[|p| - |x|..];
    }
  }

  /** The cleaned name splits into the input's root with `_cleaned` and
      the input's extension; it differs from the input, so the original
      file is never overwritten; and it is a `.qgz` name when the input's
      extension is `.qgz`, and never when the input is not named `.qgz`. */
  lemma CleanedPathShape(h: Host, path: string)
    ensures SplitExt(h, CleanedPath(h, path)) == (SplitExt(h, path).0 + "_cleaned", SplitExt(h, path).1)
    ensures CleanedPath(h, path) != path
    ensures SplitExt(h, path).1 == ".qgz" ==> EndsWith(CleanedPath(h, path), ".qgz")
    ensures !EndsWith(path, ".qgz") ==> !EndsWith(CleanedPath(h, path), ".qgz")
  {
    NameFacts();
    SplitExtShape(h, path);
    SplitExtInsert(h, path, "_cleaned");
    var (root, ext) := SplitExt(h, path);
    assert root + ext == path;
    MarkerKeepsSuffix(root, "_cleaned", ext, ".qgz");
  }

  /** How `clean_file` ends: no path typed, no such file, nothing readable
      (an error or an empty project), no credentials to clean, or a cleaned
      copy written to `path` with `count` blocks rewritten. */
  datatype CleanOutcome = NoPath | Missing | NotRead | NothingToClean | Cleaned(path: string, count: nat)

  /** The project text `clean_file` and `preview_changes` go on with:
      something readable and non-empty. */
  predicate Readable(disk: Disk, path: string) {
    ReadQgs(disk, path).Some? && ReadQgs(disk, path).value != []
  }

  /** `clean_file`: read, rewrite, and write a `_cleaned` copy next to the
      original, unless nothing changes. */
  method CleanFile(h: Host, o: Options, disk: Disk, text: string) returns (outcome: CleanOutcome, disk': Disk)
    ensures var path := Strip(text);
      && (outcome == NoPath <==> path == [])
      && (outcome == Missing <==> path != [] && path !in disk)
      && (outcome == NotRead <==> path != [] && path in disk && !Readable(disk, path))
    ensures !outcome.Cleaned? ==> disk' == disk
    ensures outcome.Cleaned? || outcome == NothingToClean ==>
      var path := Strip(text);
      Readable(disk, path) &&
      var pieces := Split(ReadQgs(disk, path).value, OpenTag, CloseTag);
      (outcome == NothingToClean <==> ChangeCount(o, pieces) == 0) &&
      (outcome.Cleaned? ==>
        && outcome.count == ChangeCount(o, pieces) == |Changes(o, pieces)|
        && outcome.path == CleanedPath(h, path)
        && disk' == WriteQgs(h, disk, outcome.path, Render(RewriteAll(o, pieces), OpenTag, CloseTag), EndsWith(path, ".qgz")))
  {
    disk' := disk;
    var path := Strip(text);
    if path == [] {
      return NoPath, disk';
    }
    if path !in disk {
      return Missing, disk';
    }
    var content := ReadQgs(disk, path);
    if content.None? || content.value == [] {
      return NotRead, disk';
    }
    var cleaned, count := CleanDatasources(o, content.value);
    if count == 0 {
      return NothingToClean, disk';
    }
    ChangeCountIsPreviewLength(o, Split(content.value, OpenTag, CloseTag));
    var cleanedPath := CleanedPath(h, path);
    disk' := WriteQgs(h, disk, cleanedPath, cleaned, EndsWith(path, ".qgz"));
    outcome := Cleaned(cleanedPath, count);
  }

  /** A cleaned copy leaves the original as it was and reads back as the
      rewritten document, unless the input is a `.qgz` name whose
      extension `splitext` does not see (a name made only of dots before
      `qgz`). */
  lemma CleanedCopyReadsBack(h: Host, disk: Disk, path: string, cleaned: string)
    requires SplitExt(h, path).1 == ".qgz" || !EndsWith(path, ".qgz")
    ensures var d := WriteQgs(h, disk, CleanedPath(h, path), cleaned, EndsWith(path, ".qgz"));
      && (path in disk ==> path in d && d[path] == disk[path])
      && ReadQgs(d, CleanedPath(h, path)) == Some(cleaned)
  {
    var out := CleanedPath(h, path);
    CleanedPathShape(h, path);
    if SplitExt(h, path).1 == ".qgz" {
      assert EndsWith(path, ".qgz") by {
        SplitExtShape(h, path);
        var (root, ext) := SplitExt(h, path);
        assert path[|path| - 4..] == ext;
      }
    }
    assert EndsWith(path, ".qgz") == EndsWith(out, ".qgz");
    WriteThenRead(h, disk, out, cleaned);
  }

  /** `preview_changes`: the before/after pairs for a readable project,
      `None` when there is nothing to preview. */
  method PreviewChanges(o: Options, disk: Disk, text: string) returns (changes: Option<seq<(string, string)>>)
    ensures changes.Some? <==> Strip(text) != [] && Readable(disk, Strip(text))
    ensures changes.Some? ==>
      changes.value == Changes(o, Split(ReadQgs(disk, Strip(text)).value, OpenTag, CloseTag))
  {
    var path := Strip(text);
    if path == [] {
      return None;
    }
    var content := ReadQgs(disk, path);
    if content.None? || content.value == [] {
      return None;
    }
    var found := FindDatasourceChanges(o, content.value);
    changes := Some(found);
  }
}
