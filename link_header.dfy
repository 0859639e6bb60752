/**
 * `getLinks`: the script's hand-rolled reader of the `link:` header
 * (GitHub's pagination links, a subset of the syntax of section 3 of
 * RFC 8288, Web Linking).
 *
 * It takes the whole response-header block from the first `link:` on,
 * splits it at single spaces and walks the tokens two at a time from
 * position 1: the token at an odd position i is read as a URL, the one at
 * i + 1 as its metadata. When the metadata mentions `rel`, the relation is
 * the first `"…"` run of non-whitespace in it and the URL the first `<…>`
 * run in the URL token; both are stored with their delimiters removed, a
 * later pair overwriting an earlier one with the same relation.
 *
 * `String.prototype.match` gives `null` when its pattern does not occur.
 * The `length == 0` guards that follow were meant to skip such a pair, but
 * evaluating them on `null` throws a TypeError, so their `continue` never
 * runs. The model returns `Threw(i)` for it.
 */
module LinkHeader {
  import opened Optional
  import opened JsString

  /** The result of `getLinks`: the map it returns, or the token position whose pair made it throw. */
  datatype LinkResult = Parsed(links: map<string, string>) | Threw(at: nat)

  /** What one (URL token, metadata token) pair contributes. */
  datatype PairResult = Skipped | Entry(rel: string, url: string) | NullMatch

  /**
   * `s[p..q + 1]` is a match of the regular expression `open[\S]+close`:
   * `open` at p, `close` at q, at least one character between them and no
   * whitespace in between.
   */
  predicate DelimitedAt(s: string, open: char, close: char, p: int, q: int) {
    0 <= p && p + 2 <= q < |s| && s[p] == open && s[q] == close
    && forall k :: p < k < q ==> !IsWhitespace(s[k])
  }

  /** The end of the run of non-whitespace characters that starts at `i`. */
  function RunEnd(s: string, i: nat): (j: nat)
    requires i <= |s|
    ensures i <= j <= |s|
    decreases |s| - i
  {
    if i == |s| || IsWhitespace(s[i]) then i else RunEnd(s, i + 1)
  }

  lemma {:induction false} RunEndIsRun(s: string, i: nat)
    requires i <= |s|
    ensures forall k :: i <= k < RunEnd(s, i) ==> !IsWhitespace(s[k])
    ensures RunEnd(s, i) < |s| ==> IsWhitespace(s[RunEnd(s, i)])
    decreases |s| - i
  {
    if i < |s| && !IsWhitespace(s[i]) {
      RunEndIsRun(s, i + 1);
    }
  }

  /** The last position in [lo, hi) that holds `c`, if any. */
  function LastIn(s: string, c: char, lo: nat, hi: nat): (r: Option<nat>)
    requires hi <= |s|
    ensures r.Some? ==> lo <= r.value < hi
    decreases hi
  {
    if hi <= lo then None
    else if s[hi - 1] == c then Some(hi - 1)
    else LastIn(s, c, lo, hi - 1)
  }

  lemma {:induction false} LastInIsLast(s: string, c: char, lo: nat, hi: nat)
    requires hi <= |s|
    ensures var r := LastIn(s, c, lo, hi);
      r.None? <==> forall k :: lo <= k < hi ==> s[k] != c
    ensures var r := LastIn(s, c, lo, hi);
      r.Some? ==> s[r.value] == c && forall k :: r.value < k < hi ==> s[k] != c
    decreases hi
  {
    if lo < hi && s[hi - 1] != c {
      LastInIsLast(s, c, lo, hi - 1);
    }
  }

  /** The leftmost match at or after `from`; among matches starting there, the longest (the `+` is greedy). */
  function MatchFrom(s: string, open: char, close: char, from: nat): (r: Option<(nat, nat)>)
    requires from <= |s|
    ensures r.Some? ==> from <= r.value.0 && r.value.0 + 2 <= r.value.1 < |s|
    decreases |s| - from
  {
    if from == |s| then None
    else if s[from] == open then
      match LastIn(s, close, from + 2, RunEnd(s, from + 1))
      case Some(q) => Some((from, q))
      case None => MatchFrom(s, open, close, from + 1)
    else MatchFrom(s, open, close, from + 1)
  }

  lemma {:induction false} MatchFromLeftmostLongest(s: string, open: char, close: char, from: nat)
    requires from <= |s|
    requires !IsWhitespace(close)
    ensures var r := MatchFrom(s, open, close, from);
      r.None? <==> forall p, q :: from <= p ==> !DelimitedAt(s, open, close, p, q)
    ensures var r := MatchFrom(s, open, close, from);
      r.Some? ==> DelimitedAt(s, open, close, r.value.0, r.value.1)
    ensures var r := MatchFrom(s, open, close, from);
      r.Some? ==> forall p, q :: from <= p < r.value.0 ==> !DelimitedAt(s, open, close, p, q)
    ensures var r := MatchFrom(s, open, close, from);
      r.Some? ==> forall q :: r.value.1 < q ==> !DelimitedAt(s, open, close, r.value.0, q)
    decreases |s| - from
  {
    if from < |s| {
      MatchFromLeftmostLongest(s, open, close, from + 1);
      if s[from] == open {
        var j := RunEnd(s, from + 1);
        RunEndIsRun(s, from + 1);
        LastInIsLast(s, close, from + 2, j);
        match LastIn(s, close, from + 2, j)
        case Some(q) =>
          assert DelimitedAt(s, open, close, from, q);
          forall q' | q < q'
            ensures !DelimitedAt(s, open, close, from, q')
          {
            if j < q' < |s| {
              assert IsWhitespace(s[j]);
            }
          }
        case None =>
          forall q | true
            ensures !DelimitedAt(s, open, close, from, q)
          {
            if j < q < |s| {
              assert IsWhitespace(s[j]);
            }
          }
      }
    }
  }

  /**
   * `s.match(/open[\S]+close/)`: the positions of the opening and closing
   * delimiter of the match, or `None` for JavaScript's `null`.
   */
  function Match(s: string, open: char, close: char): (r: Option<(nat, nat)>)
    ensures r.Some? ==> r.value.0 + 2 <= r.value.1 < |s|
  {
    MatchFrom(s, open, close, 0)
  }

  /**
   * The match is the leftmost one, and of those starting there the longest;
   * there is none exactly when no run `open[\S]+close` occurs.
   */
  lemma MatchLeftmostLongest(s: string, open: char, close: char)
    requires !IsWhitespace(close)
    ensures Match(s, open, close).None? <==> forall p, q :: !DelimitedAt(s, open, close, p, q)
    ensures var r := Match(s, open, close);
      r.Some? ==> DelimitedAt(s, open, close, r.value.0, r.value.1)
    ensures var r := Match(s, open, close);
      r.Some? ==> forall p, q :: p < r.value.0 ==> !DelimitedAt(s, open, close, p, q)
    ensures var r := Match(s, open, close);
      r.Some? ==> forall q :: r.value.1 < q ==> !DelimitedAt(s, open, close, r.value.0, q)
  {
    MatchFromLeftmostLongest(s, open, close, 0);
  }

  /** `s.match(/open[\S]+close/)[0]`: the text of the match, delimiters included. */
  function MatchText(s: string, open: char, close: char): (m: Option<string>)
    ensures m.Some? ==> |m.value| >= 3
  {
    match Match(s, open, close)
    case None => None
    case Some((p, q)) => Some(s[p..q + 1])
  }

  /** `m.substring(1, m.length - 1)` on a matched text `m`: the text without its two delimiters. */
  function Unwrap(m: string): string
    requires |m| >= 2
  {
    m[1..|m| - 1]
  }

  /** The body of one iteration of the loop: the pair is the URL token `url` and the metadata token `meta`. */
  function ReadPair(url: string, meta: string): (r: PairResult)
  {
    if IndexOf(meta, "rel") == -1 then Skipped
    else
      var quoted := MatchText(meta, '"', '"');
      if quoted.None? then NullMatch
      else
        var bracketed := MatchText(url, '<', '>');
        if bracketed.None? then NullMatch
        else Entry(Unwrap(quoted.value), Unwrap(bracketed.value))
  }

  /**
   * A pair whose metadata mentions `rel` throws exactly when its metadata
   * has no `"…"` run or its URL token has no `<…>` run.
   */
  lemma ReadPairThrows(url: string, meta: string)
    ensures ReadPair(url, meta).NullMatch? <==>
      ((exists j :: OccursAt(meta, "rel", j))
       && ((forall p, q :: !DelimitedAt(meta, '"', '"', p, q)) || (forall p, q :: !DelimitedAt(url, '<', '>', p, q))))
  {
    IndexOfFirst(meta, "rel");
    MatchLeftmostLongest(meta, '"', '"');
    MatchLeftmostLongest(url, '<', '>');
  }

  /** A pair is skipped exactly when its metadata token does not contain `rel`. */
  lemma ReadPairSkipped(url: string, meta: string)
    ensures ReadPair(url, meta).Skipped? <==> forall j :: !OccursAt(meta, "rel", j)
  {
    IndexOfFirst(meta, "rel");
  }

  /**
   * The text of a match is the opening delimiter, a non-empty run without
   * whitespace, and the closing delimiter; there is none exactly when no
   * such run occurs.
   */
  lemma MatchTextShape(s: string, open: char, close: char)
    requires !IsWhitespace(close)
    ensures MatchText(s, open, close).None? <==> forall p, q :: !DelimitedAt(s, open, close, p, q)
    ensures var m := MatchText(s, open, close);
      m.Some? ==> m.value == [open] + Unwrap(m.value) + [close]
    ensures var m := MatchText(s, open, close);
      m.Some? ==> |Unwrap(m.value)| >= 1 && forall k :: 0 <= k < |Unwrap(m.value)| ==> !IsWhitespace(Unwrap(m.value)[k])
  {
    MatchLeftmostLongest(s, open, close);
    match Match(s, open, close) {
      case None =>
      case Some((p, q)) =>
        assert Unwrap(s[p..q + 1]) == s[p + 1..q];
        assert s[p..q + 1] == [open] + s[p + 1..q] + [close];
    }
  }

  /**
   * An emitted pair: its metadata contains `rel`, the relation is the inside
   * of the `"…"` match of the metadata and the URL the inside of the `<…>`
   * match of the URL token; neither is empty or holds whitespace.
   */
  lemma ReadPairEntry(url: string, meta: string)
    requires ReadPair(url, meta).Entry?
    ensures exists j :: OccursAt(meta, "rel", j)
    ensures MatchText(meta, '"', '"') == Some(['"'] + ReadPair(url, meta).rel + ['"'])
    ensures MatchText(url, '<', '>') == Some(['<'] + ReadPair(url, meta).url + ['>'])
    ensures var e := ReadPair(url, meta);
      |e.rel| >= 1 && forall k :: 0 <= k < |e.rel| ==> !IsWhitespace(e.rel[k])
    ensures var e := ReadPair(url, meta);
      |e.url| >= 1 && forall k :: 0 <= k < |e.url| ==> !IsWhitespace(e.url[k])
  {
    IndexOfFirst(meta, "rel");
    MatchTextShape(meta, '"', '"');
    MatchTextShape(url, '<', '>');
  }

  /** `headers.substring(headers.indexOf('link:')).split(' ')`. */
  function Tokens(headers: string): (t: seq<string>)
    ensures |t| >= 1
  {
    Split(Substring(headers, IndexOf(headers, "link:")), ' ')
  }

  /** How many times the `for (i = 1; i < length - 1; i += 2)` loop runs over `tokens`. */
  function PairCount(tokens: seq<string>): nat {
    if |tokens| == 0 then 0 else (|tokens| - 1) / 2
  }

  /** What the first `n` pairs, at token positions (1, 2), (3, 4), …, each yield. */
  function ReadPairs(tokens: seq<string>, n: nat): (rs: seq<PairResult>)
    requires 2 * n < |tokens|
    ensures |rs| == n
  {
    seq(n, k requires 0 <= k < n => ReadPair(tokens[2 * k + 1], tokens[2 * k + 2]))
  }

  /** What one pair, read at token position `i`, does to the map built so far. */
  function Step(links: map<string, string>, i: nat, pair: PairResult): LinkResult {
    match pair
    case Skipped => Parsed(links)
    case NullMatch => Threw(i)
    case Entry(rel, url) => Parsed(links[rel := url])
  }

  /**
   * The rest of the loop, from pair `k` on, with the map built so far being
   * `links`: entries are stored in order, so a later relation overwrites an
   * earlier one, and the first `NullMatch` ends it with the position of its
   * URL token.
   */
  function Rest(links: map<string, string>, pairs: seq<PairResult>, k: nat): LinkResult
    requires k <= |pairs|
    decreases |pairs| - k
  {
    if k == |pairs| then Parsed(links)
    else
      match Step(links, 2 * k + 1, pairs[k])
      case Threw(at) => Threw(at)
      case Parsed(next) => Rest(next, pairs, k + 1)
  }

  /** The outcome of the whole loop over an already split token list. */
  function ParseTokens(tokens: seq<string>): LinkResult {
    if |tokens| == 0 then Parsed(map[]) else Rest(map[], ReadPairs(tokens, PairCount(tokens)), 0)
  }

  /** `getLinks(headers)`, as a value. */
  function ParseLinks(headers: string): LinkResult {
    ParseTokens(Tokens(headers))
  }

  /** One pass of the loop body: the `rel` test and the two regular-expression matches. */
  method ReadPairAt(url: string, meta: string) returns (pair: PairResult)
    ensures pair == ReadPair(url, meta)
  {
    var relPos := IndexOf(meta, "rel");
    if relPos == -1 {
      return Skipped;
    }
    var quoted := MatchText(meta, '"', '"');
    if quoted.None? {
      return NullMatch;
    }
    var bracketed := MatchText(url, '<', '>');
    if bracketed.None? {
      return NullMatch;
    }
    return Entry(Unwrap(quoted.value), Unwrap(bracketed.value));
  }

  /** `getLinks` as the script writes it: find `link:`, split at spaces, walk the pairs. */
  method GetLinks(headers: string) returns (r: LinkResult)
    ensures r == ParseLinks(headers)
  {
    var start := IndexOf(headers, "link:");
    var linkStrings := Split(Substring(headers, start), ' ');
    r := WalkPairs(linkStrings);
  }

  /** The loop of `getLinks`: stride 2 from position 1, filling `links` in place. */
  method WalkPairs(linkStrings: seq<string>) returns (r: LinkResult)
    ensures r == ParseTokens(linkStrings)
  {
    if |linkStrings| == 0 {
      return Parsed(map[]);
    }
    var links: map<string, string> := map[];
    ghost var all := ReadPairs(linkStrings, PairCount(linkStrings));
    var i := 1;
    ghost var n: nat := 0;
    while i < |linkStrings| - 1
      invariant i == 2 * n + 1 && n <= |all|
      invariant Rest(links, all, n) == ParseTokens(linkStrings)
      decreases |linkStrings| - i
    {
      var pair := ReadPairAt(linkStrings[i], linkStrings[i + 1]);
      assert all[n] == pair;
      match pair {
        case Skipped =>
        case NullMatch =>
          // `type.length` or `link.length` on `null`: a TypeError leaves the function.
          return Threw(i);
        case Entry(rel, link) =>
          links := links[rel := link];
      }
      i, n := i + 2, n + 1;
    }
    return Parsed(links);
  }

  /**
   * The rest of the loop throws exactly when some pair from `k` on has a
   * `null` match, and it throws at the URL token of the first such pair.
   */
  lemma {:induction false} RestThrew(links: map<string, string>, pairs: seq<PairResult>, k: nat)
    requires k <= |pairs|
    ensures Rest(links, pairs, k).Threw? <==> exists n :: k <= n < |pairs| && pairs[n].NullMatch?
    ensures Rest(links, pairs, k).Threw? ==>
      exists n :: k <= n < |pairs| && Rest(links, pairs, k).at == 2 * n + 1 && pairs[n].NullMatch?
        && forall m :: k <= m < n ==> !pairs[m].NullMatch?
    decreases |pairs| - k
  {
    if k < |pairs| {
      if pairs[k].NullMatch? {
        assert Rest(links, pairs, k) == Threw(2 * k + 1);
      } else {
        var next := Step(links, 2 * k + 1, pairs[k]).links;
        assert Rest(links, pairs, k) == Rest(next, pairs, k + 1);
        RestThrew(next, pairs, k + 1);
        if Rest(next, pairs, k + 1).Threw? {
          var n :| k + 1 <= n < |pairs| && Rest(next, pairs, k + 1).at == 2 * n + 1 && pairs[n].NullMatch?
            && forall m :: k + 1 <= m < n ==> !pairs[m].NullMatch?;
          assert forall m :: k <= m < n ==> !pairs[m].NullMatch?;
        }
      }
    }
  }

  /** The pair at index `n` stores the relation `rel`. */
  predicate Emits(pairs: seq<PairResult>, n: int, rel: string) {
    0 <= n < |pairs| && pairs[n].Entry? && pairs[n].rel == rel
  }

  /**
   * When the rest of the loop does not throw, a relation is a key of the
   * final map exactly when it was one already or a pair from `k` on stores it.
   */
  lemma {:induction false} RestKeys(links: map<string, string>, pairs: seq<PairResult>, k: nat)
    requires k <= |pairs| && Rest(links, pairs, k).Parsed?
    ensures forall rel :: rel in Rest(links, pairs, k).links <==> rel in links || exists n :: k <= n && Emits(pairs, n, rel)
    decreases |pairs| - k
  {
    if k < |pairs| {
      var next := Step(links, 2 * k + 1, pairs[k]).links;
      RestKeys(next, pairs, k + 1);
      assert Rest(links, pairs, k) == Rest(next, pairs, k + 1);
      var result := Rest(links, pairs, k).links;
      forall rel
        ensures rel in result <==> rel in links || exists n :: k <= n && Emits(pairs, n, rel)
      {
        if exists n :: k <= n && Emits(pairs, n, rel) {
          var n :| k <= n && Emits(pairs, n, rel);
          if n == k {
            assert rel in next;
          }
        }
        if rel in next && rel !in links {
          assert Emits(pairs, k, rel);
        }
      }
    }
  }

  /**
   * Each value of the final map is the URL of a pair from `k` on that
   * stores its relation, or is the value the map held, untouched by every
   * pair from `k` on.
   */
  lemma {:induction false} RestOrigin(links: map<string, string>, pairs: seq<PairResult>, k: nat)
    requires k <= |pairs| && Rest(links, pairs, k).Parsed?
    ensures forall rel :: rel in Rest(links, pairs, k).links ==>
      (rel in links && Rest(links, pairs, k).links[rel] == links[rel] && forall n :: k <= n ==> !Emits(pairs, n, rel))
      || exists n :: k <= n < |pairs| && pairs[n] == Entry(rel, Rest(links, pairs, k).links[rel])
    decreases |pairs| - k
  {
    if k < |pairs| {
      var next := Step(links, 2 * k + 1, pairs[k]).links;
      RestOrigin(next, pairs, k + 1);
      var result := Rest(links, pairs, k).links;
      assert result == Rest(next, pairs, k + 1).links;
      forall rel | rel in result
        ensures (rel in links && result[rel] == links[rel] && forall n :: k <= n ==> !Emits(pairs, n, rel))
          || exists n :: k <= n < |pairs| && pairs[n] == Entry(rel, result[rel])
      {
        if pairs[k].Entry? && pairs[k].rel == rel {
          assert Emits(pairs, k, rel);
        } else {
          assert !Emits(pairs, k, rel);
        }
      }
    }
  }

  /** The final value of a relation is the URL of the last pair from `k` on that stores it. */
  lemma {:induction false} RestLastWins(links: map<string, string>, pairs: seq<PairResult>, k: nat)
    requires k <= |pairs| && Rest(links, pairs, k).Parsed?
    ensures forall n :: k <= n < |pairs| && pairs[n].Entry? && (forall m :: n < m ==> !Emits(pairs, m, pairs[n].rel))
               ==> pairs[n].rel in Rest(links, pairs, k).links && Rest(links, pairs, k).links[pairs[n].rel] == pairs[n].url
    decreases |pairs| - k
  {
    if k < |pairs| {
      var next := Step(links, 2 * k + 1, pairs[k]).links;
      RestLastWins(next, pairs, k + 1);
      var result := Rest(links, pairs, k).links;
      assert result == Rest(next, pairs, k + 1).links;
      forall n | k <= n < |pairs| && pairs[n].Entry? && (forall m :: n < m ==> !Emits(pairs, m, pairs[n].rel))
        ensures pairs[n].rel in result && result[pairs[n].rel] == pairs[n].url
      {
        if n == k {
          LastWinsHere(links, pairs, k);
        }
      }
    }
  }

  /** The step case of `RestLastWins` for the pair at `k` itself. */
  lemma LastWinsHere(links: map<string, string>, pairs: seq<PairResult>, k: nat)
    requires k < |pairs| && Rest(links, pairs, k).Parsed? && pairs[k].Entry?
    requires forall m :: k < m ==> !Emits(pairs, m, pairs[k].rel)
    ensures pairs[k].rel in Rest(links, pairs, k).links && Rest(links, pairs, k).links[pairs[k].rel] == pairs[k].url
  {
    var r, u := pairs[k].rel, pairs[k].url;
    var next := links[r := u];
    assert Rest(links, pairs, k) == Rest(next, pairs, k + 1);
    RestOrigin(next, pairs, k + 1);
    RestKeys(next, pairs, k + 1);
    var result := Rest(next, pairs, k + 1).links;
    assert forall n :: k + 1 <= n < |pairs| && pairs[n] == Entry(r, result[r]) ==> Emits(pairs, n, r);
  }

  /**
   * After a call that did not throw, a relation is a key of the map exactly
   * when some pair stores it, and its value is the URL of the last pair
   * that stores it.
   */
  lemma ParsedEntries(tokens: seq<string>)
    requires |tokens| > 0 && ParseTokens(tokens).Parsed?
    ensures var pairs := ReadPairs(tokens, PairCount(tokens));
      forall rel :: rel in ParseTokens(tokens).links <==> exists n :: Emits(pairs, n, rel)
    ensures var pairs := ReadPairs(tokens, PairCount(tokens));
      forall n :: 0 <= n < |pairs| && pairs[n].Entry? && (forall m :: n < m ==> !Emits(pairs, m, pairs[n].rel))
        ==> pairs[n].rel in ParseTokens(tokens).links && ParseTokens(tokens).links[pairs[n].rel] == pairs[n].url
    ensures var pairs := ReadPairs(tokens, PairCount(tokens));
      forall rel :: rel in ParseTokens(tokens).links ==>
        exists n :: 0 <= n < |pairs| && pairs[n] == Entry(rel, ParseTokens(tokens).links[rel])
  {
    var pairs := ReadPairs(tokens, PairCount(tokens));
    RestKeys(map[], pairs, 0);
    RestLastWins(map[], pairs, 0);
    RestOrigin(map[], pairs, 0);
  }

  /** The call throws exactly when some pair has a `null` match, and then at the URL token of the first one. */
  lemma ParseThrew(tokens: seq<string>)
    requires |tokens| > 0
    ensures var pairs := ReadPairs(tokens, PairCount(tokens));
      ParseTokens(tokens).Threw? <==> exists n :: 0 <= n < |pairs| && pairs[n].NullMatch?
    ensures var pairs := ReadPairs(tokens, PairCount(tokens));
      ParseTokens(tokens).Threw? ==>
        exists n :: 0 <= n < |pairs| && ParseTokens(tokens).at == 2 * n + 1 && pairs[n].NullMatch?
          && forall m :: 0 <= m < n ==> !pairs[m].NullMatch?
  {
    RestThrew(map[], ReadPairs(tokens, PairCount(tokens)), 0);
  }

  /**
   * The token before the first space, `link:` or whatever precedes it, is
   * never read: the loop starts at position 1.
   */
  lemma ReadPairsIgnoreFirst(a: string, b: string, rest: seq<string>, n: nat)
    requires 2 * n < |rest| + 1
    ensures ReadPairs([a] + rest, n) == ReadPairs([b] + rest, n)
  {
    var x, y := [a] + rest, [b] + rest;
    forall k | 0 <= k < n
      ensures ReadPairs(x, n)[k] == ReadPairs(y, n)[k]
    {
      assert x[2 * k + 1] == y[2 * k + 1] && x[2 * k + 2] == y[2 * k + 2];
    }
  }

  lemma FirstTokenIgnored(a: string, b: string, rest: seq<string>)
    ensures ParseTokens([a] + rest) == ParseTokens([b] + rest)
  {
    ReadPairsIgnoreFirst(a, b, rest, PairCount([a] + rest));
  }

  /** Without a `link:` in the headers, `indexOf` gives -1 and the whole header block is split. */
  lemma NoLinkHeader(headers: string)
    requires forall j :: !OccursAt(headers, "link:", j)
    ensures ParseLinks(headers) == ParseTokens(Split(headers, ' '))
  {
    IndexOfFirst(headers, "link:");
  }

  /** What an emitted pair of the loop holds, from `ReadPairEntry`. */
  lemma ReadPairsEntry(tokens: seq<string>, m: nat, n: nat)
    requires n < m && 2 * m < |tokens| && ReadPairs(tokens, m)[n].Entry?
    ensures var e := ReadPairs(tokens, m)[n];
      |e.rel| >= 1 && |e.url| >= 1 && ' ' !in e.url
  {
    ReadPairEntry(tokens[2 * n + 1], tokens[2 * n + 2]);
    assert IsWhitespace(' ');
  }

  /** Every relation and every URL in a parsed map is non-empty, and no URL holds a space. */
  lemma ParsedNonEmpty(tokens: seq<string>)
    requires ParseTokens(tokens).Parsed?
    ensures var links := ParseTokens(tokens).links;
      forall rel :: rel in links ==> |rel| >= 1 && |links[rel]| >= 1 && ' ' !in links[rel]
  {
    if |tokens| > 0 {
      var pairs := ReadPairs(tokens, PairCount(tokens));
      var links := ParseTokens(tokens).links;
      ParsedEntries(tokens);
      forall rel | rel in links
        ensures |rel| >= 1 && |links[rel]| >= 1 && ' ' !in links[rel]
      {
        var n :| 0 <= n < |pairs| && pairs[n] == Entry(rel, links[rel]);
        ReadPairsEntry(tokens, |pairs|, n);
      }
    }
  }

  /** When the first pair throws, the call throws there, whatever the later tokens are. */
  lemma FirstPairThrows(tokens: seq<string>)
    requires |tokens| >= 3 && ReadPair(tokens[1], tokens[2]) == NullMatch
    ensures ParseTokens(tokens) == Threw(1)
  {
    var pairs := ReadPairs(tokens, PairCount(tokens));
    assert pairs[0] == NullMatch;
  }

  /** Metadata that mentions `rel` but holds no double quote makes the pair throw. */
  lemma UnquotedRel(url: string, meta: string, j: int)
    requires OccursAt(meta, "rel", j) && '"' !in meta
    ensures ReadPair(url, meta) == NullMatch
  {
    ReadPairThrows(url, meta);
    forall p, q ensures !DelimitedAt(meta, '"', '"', p, q) {
      if 0 <= p < |meta| {
        assert meta[p] in meta;
      }
    }
  }

  /** `rel=next` without quotes: `match` gives `null` and the call throws at the URL token. */
  lemma UnquotedRelThrows()
    ensures ParseTokens(["link:", "<p2>;", "rel=next"]) == Threw(1)
  {
    assert "rel=next"[0..3] == "rel";
    UnquotedRel("<p2>;", "rel=next", 0);
    var tokens := ["link:", "<p2>;", "rel=next"];
    assert tokens[1] == "<p2>;" && tokens[2] == "rel=next";
    FirstPairThrows(tokens);
  }

  // The format GitHub writes: `link: <url>; rel="next", <url>; rel="last"`.

  predicate Plain(s: string) {
    |s| >= 1 && forall k :: 0 <= k < |s| ==> !IsWhitespace(s[k])
  }

  function UrlToken(url: string): string {
    ['<'] + url + ['>', ';']
  }

  function RelToken(rel: string, more: bool): string {
    "rel=\"" + rel + "\"" + (if more then "," else "")
  }

  lemma UrlTokenRead(url: string)
    requires Plain(url)
    ensures MatchText(UrlToken(url), '<', '>') == Some(['<'] + url + ['>'])
  {
    var t := UrlToken(url);
    var q := |url| + 1;
    assert DelimitedAt(t, '<', '>', 0, q) by {
      forall k | 0 < k < q ensures !IsWhitespace(t[k]) {
        assert t[k] == url[k - 1];
      }
    }
    MatchLeftmostLongest(t, '<', '>');
    var m := Match(t, '<', '>').value;
    assert m.0 == 0;
    assert t[0..q + 1] == ['<'] + url + ['>'];
  }

  lemma RelTokenRead(rel: string, more: bool)
    requires Plain(rel)
    ensures IndexOf(RelToken(rel, more), "rel") == 0
    ensures MatchText(RelToken(rel, more), '"', '"') == Some(['"'] + rel + ['"'])
  {
    var t := RelToken(rel, more);
    assert t[0..3] == "rel";
    IndexOfFirst(t, "rel");
    var q := |rel| + 5;
    assert DelimitedAt(t, '"', '"', 4, q) by {
      forall k | 4 < k < q ensures !IsWhitespace(t[k]) {
        assert t[k] == rel[k - 5];
      }
    }
    MatchLeftmostLongest(t, '"', '"');
    var m := Match(t, '"', '"').value;
    assert t[0] == 'r' && t[1] == 'e' && t[2] == 'l' && t[3] == '=';
    assert m.0 == 4;
    assert t[4..q + 1] == ['"'] + rel + ['"'];
  }

  lemma ReadPairRendered(url: string, rel: string, more: bool)
    requires Plain(url) && Plain(rel)
    ensures ReadPair(UrlToken(url), RelToken(rel, more)) == Entry(rel, url)
  {
    UrlTokenRead(url);
    RelTokenRead(rel, more);
    assert Unwrap(['"'] + rel + ['"']) == rel;
    assert Unwrap(['<'] + url + ['>']) == url;
  }

  datatype Link = Link(url: string, rel: string)

  /** The tokens of `<u1>; rel="r1", <u2>; rel="r2", …`: a comma after every link but the last. */
  function LinkTokens(links: seq<Link>): (t: seq<string>)
    ensures |t| == 2 * |links|
  {
    if links == [] then []
    else [UrlToken(links[0].url), RelToken(links[0].rel, |links| > 1)] + LinkTokens(links[1..])
  }

  /** The tokens of the whole header, `link:` first. */
  function HeaderTokens(links: seq<Link>): (t: seq<string>)
    ensures |t| == 2 * |links| + 1
  {
    ["link:"] + LinkTokens(links)
  }

  /** A `link` header with the links in order, as GitHub writes it. */
  function Render(links: seq<Link>): string {
    Join(HeaderTokens(links), " ")
  }

  /** The map that storing the links in order, a later one overwriting an earlier, builds. */
  function MapOf(links: seq<Link>): map<string, string> {
    if links == [] then map[]
    else MapOf(links[..|links| - 1])[links[|links| - 1].rel := links[|links| - 1].url]
  }

  lemma {:induction false} RestAll(links: seq<Link>, pairs: seq<PairResult>, k: nat)
    requires |pairs| == |links| && k <= |pairs|
    requires forall j :: 0 <= j < |pairs| ==> pairs[j] == Entry(links[j].rel, links[j].url)
    ensures Rest(MapOf(links[..k]), pairs, k) == Parsed(MapOf(links))
    decreases |pairs| - k
  {
    if k == |pairs| {
      assert links[..k] == links;
    } else {
      RestAll(links, pairs, k + 1);
      assert links[..k + 1][..k] == links[..k];
    }
  }

  predicate PlainLinks(links: seq<Link>) {
    forall j :: 0 <= j < |links| ==> Plain(links[j].url) && Plain(links[j].rel)
  }

  lemma HeaderTokensNoSpace(links: seq<Link>)
    requires PlainLinks(links)
    ensures forall i :: 0 <= i < |HeaderTokens(links)| ==> ' ' !in HeaderTokens(links)[i]
  {
    assert IsWhitespace(' ');
    forall i | 1 <= i < |HeaderTokens(links)|
      ensures ' ' !in HeaderTokens(links)[i]
    {
      var j := (i - 1) / 2;
      HeaderTokenAt(links, j);
      assert ' ' !in links[j].url && ' ' !in links[j].rel;
    }
  }

  /** The tokens `getLinks` reads from a rendered header are the header's tokens. */
  lemma RenderTokens(links: seq<Link>)
    requires PlainLinks(links)
    ensures Tokens(Render(links)) == HeaderTokens(links)
  {
    var tokens := HeaderTokens(links);
    var h := Render(links);
    HeaderTokensNoSpace(links);
    SplitJoin(tokens, ' ');
    JoinHead(tokens, " ");
    assert h[0..5] == "link:";
    IndexOfFirst(h, "link:");
  }

  /** The tokens at positions 2j and 2j + 1 are those of link j. */
  lemma {:induction false} LinkTokensAt(links: seq<Link>, j: nat)
    requires j < |links|
    ensures LinkTokens(links)[2 * j] == UrlToken(links[j].url)
    ensures LinkTokens(links)[2 * j + 1] == RelToken(links[j].rel, j + 1 < |links|)
  {
    if j > 0 {
      LinkTokensAt(links[1..], j - 1);
    }
  }

  lemma HeaderTokenAt(links: seq<Link>, j: nat)
    requires j < |links|
    ensures HeaderTokens(links)[2 * j + 1] == UrlToken(links[j].url)
    ensures HeaderTokens(links)[2 * j + 2] == RelToken(links[j].rel, j + 1 < |links|)
  {
    LinkTokensAt(links, j);
  }

  /** Every pair of a rendered header stores its link. */
  lemma HeaderPairs(links: seq<Link>)
    requires PlainLinks(links)
    ensures var pairs := ReadPairs(HeaderTokens(links), |links|);
      forall j :: 0 <= j < |links| ==> pairs[j] == Entry(links[j].rel, links[j].url)
  {
    var tokens := HeaderTokens(links);
    forall j | 0 <= j < |links|
      ensures ReadPairs(tokens, |links|)[j] == Entry(links[j].rel, links[j].url)
    {
      HeaderTokenAt(links, j);
      ReadPairRendered(links[j].url, links[j].rel, j + 1 < |links|);
    }
  }

  lemma ParseHeaderTokens(links: seq<Link>)
    requires PlainLinks(links)
    ensures ParseTokens(HeaderTokens(links)) == Parsed(MapOf(links))
  {
    var tokens := HeaderTokens(links);
    assert PairCount(tokens) == |links|;
    HeaderPairs(links);
    RestAll(links, ReadPairs(tokens, |links|), 0);
    assert links[..0] == [];
  }

  lemma RenderRoundTrip(links: seq<Link>)
    requires PlainLinks(links)
    ensures ParseLinks(Render(links)) == Parsed(MapOf(links))
  {
    RenderTokens(links);
    ParseHeaderTokens(links);
  }

  /**
   * Headers without `link:` can still give links: the whole block is split,
   * its first token is skipped like `link:` would be, and GitHub-format
   * links after it are read as usual.
   */
  lemma NoLinkStillParses(links: seq<Link>, a: string)
    requires PlainLinks(links) && ' ' !in a
    requires forall j :: !OccursAt(Join([a] + LinkTokens(links), " "), "link:", j)
    ensures ParseLinks(Join([a] + LinkTokens(links), " ")) == Parsed(MapOf(links))
  {
    var tokens := [a] + LinkTokens(links);
    HeaderTokensNoSpace(links);
    forall i | 0 <= i < |tokens|
      ensures ' ' !in tokens[i]
    {
      if i > 0 {
        assert tokens[i] == HeaderTokens(links)[i];
      }
    }
    SplitJoin(tokens, ' ');
    NoLinkHeader(Join(tokens, " "));
    FirstTokenIgnored(a, "link:", LinkTokens(links));
    ParseHeaderTokens(links);
  }
}
