/**
 * The query normaliser and the empty-query short-circuit of search
 * (app/services/searcher.py).
 *
 * A free-text query becomes a prefix query for the full-text engine: a query
 * holding a quote character is passed through as native engine syntax;
 * otherwise it is split on whitespace and every token gets one trailing `*`
 * unless it already ends in one. An empty result means "no query", and
 * search then answers with no rows without touching the index.
 */
module Searcher {

  /** The characters Python's `str.split()` with no argument splits on. */
  predicate IsSpace(c: char)
  {
    var n := c as int;
    || 9 <= n <= 13 || 28 <= n <= 32
    || n == 0x85 || n == 0xA0 || n == 0x1680
    || 0x2000 <= n <= 0x200A
    || n == 0x2028 || n == 0x2029 || n == 0x202F || n == 0x205F || n == 0x3000
  }

  predicate AllSpace(s: string)
  {
    forall i :: 0 <= i < |s| ==> IsSpace(s[i])
  }

  /** A token of `str.split()`: non-empty and free of whitespace. */
  predicate IsWord(t: string)
  {
    |t| > 0 && forall i :: 0 <= i < |t| ==> !IsSpace(t[i])
  }

  predicate HasQuote(q: string)
  {
    '"' in q || '\'' in q
  }

  /** Length of the leading run of non-whitespace characters. */
  function WordLen(s: string): (n: nat)
    ensures n <= |s|
    ensures forall i :: 0 <= i < n ==> !IsSpace(s[i])
    ensures n < |s| ==> IsSpace(s[n])
  {
    if s == [] || IsSpace(s[0]) then 0 else 1 + WordLen(s[1..])
  }

  /** `str.split()`: the maximal runs of non-whitespace, in order. */
  function Split(s: string): (r: seq<string>)
    ensures forall k :: 0 <= k < |r| ==> IsWord(r[k])
    decreases |s|
  {
    if s == [] then []
    else if IsSpace(s[0]) then Split(s[1..])
    else
      var n := WordLen(s);
      [s[..n]] + Split(s[n..])
  }

  /** The comprehension `[t for t in tokens if t]`. */
  function DropEmpty(ts: seq<string>): (r: seq<string>)
    ensures forall k :: 0 <= k < |r| ==> r[k] != []
  {
    if ts == [] then []
    else if ts[0] == [] then DropEmpty(ts[1..])
    else [ts[0]] + DropEmpty(ts[1..])
  }

  /** Prefix expansion of one token. */
  function Expand(t: string): string
  {
    if |t| > 0 && t[|t| - 1] == '*' then t else t + "*"
  }

  /** Prefix expansion of every token. */
  function ExpandAll(ts: seq<string>): (r: seq<string>)
    ensures |r| == |ts|
    ensures forall k :: 0 <= k < |ts| ==> r[k] == Expand(ts[k])
  {
    if ts == [] then [] else ExpandAll(ts[..|ts| - 1]) + [Expand(ts[|ts| - 1])]
  }

  /** `" ".join(ts)`. */
  function Join(ts: seq<string>): string
  {
    if |ts| == 0 then ""
    else if |ts| == 1 then ts[0]
    else ts[0] + " " + Join(ts[1..])
  }

  /** What `_normalize_query` returns for `query`. */
  function NormalizedQuery(query: string): string
  {
    if HasQuote(query) then query
    else
      var tokens := DropEmpty(Split(query));
      if tokens == [] then "" else Join(ExpandAll(tokens))
  }

  /** `_normalize_query`: the token loop appends each expanded token in turn. */
  method NormalizeByLoop(query: string) returns (r: string)
    ensures r == NormalizedQuery(query)
  {
    if '"' in query || '\'' in query {
      return query;
    }
    var tokens := DropEmpty(Split(query));
    if tokens == [] {
      return "";
    }
    var normalized: seq<string> := [];
    for i := 0 to |tokens|
      invariant normalized == ExpandAll(tokens[..i])
    {
      var token := tokens[i];
      if |token| > 0 && token[|token| - 1] == '*' {
        normalized := normalized + [token];
      } else {
        normalized := normalized + [token + "*"];
      }
      assert tokens[..i + 1][..i] == tokens[..i];
    }
    assert tokens[..|tokens|] == tokens;
    r := Join(normalized);
  }

  /** One row of a search answer; the bm25 score is not modelled. */
  datatype Hit = Hit(docId: nat, htmlPath: string, pdfPath: string, snippet: string)

  /**
   * `search`: `engine` stands for the full-text query against the index,
   * given the normalised query, `limit` and `offset`; `queried` tells
   * whether it was consulted.
   */
  method Search(query: string, limit: int, offset: int, engine: (string, int, int) -> seq<Hit>)
    returns (hits: seq<Hit>, queried: bool)
    ensures queried <==> !AllSpace(query)
    ensures !queried ==> hits == []
    ensures queried ==> hits == engine(NormalizedQuery(query), limit, offset)
  {
    var ftsQuery := NormalizeByLoop(query);
    BlankIffEmpty(query);
    if ftsQuery == "" {
      return [], false;
    }
    hits := engine(ftsQuery, limit, offset);
    queried := true;
  }

  // ----- lemmas -----

  /** A query holding a quote character is returned unchanged. */
  lemma QuotedPassThrough(query: string)
    requires HasQuote(query)
    ensures NormalizedQuery(query) == query
  {
  }

  lemma {:induction false} SplitEmptyIff(s: string)
    ensures Split(s) == [] <==> AllSpace(s)
    decreases |s|
  {
    if s != [] {
      SplitEmptyIff(s[1..]);
      if IsSpace(s[0]) {
        assert AllSpace(s) <==> AllSpace(s[1..]) by {
          forall i | 0 <= i < |s[1..]| ensures s[1..][i] == s[i + 1] {}
        }
      }
    }
  }

  lemma {:induction false} DropEmptyOfNonEmpty(ts: seq<string>)
    requires forall k :: 0 <= k < |ts| ==> ts[k] != []
    ensures DropEmpty(ts) == ts
  {
    if ts != [] {
      DropEmptyOfNonEmpty(ts[1..]);
    }
  }

  /** Every token of `str.split()` survives the empty-token filter. */
  lemma TokensAreSplit(query: string)
    ensures DropEmpty(Split(query)) == Split(query)
  {
    DropEmptyOfNonEmpty(Split(query));
  }

  lemma {:induction false} JoinNonEmpty(ts: seq<string>)
    requires |ts| > 0 && forall k :: 0 <= k < |ts| ==> ts[k] != []
    ensures Join(ts) != []
  {
    if |ts| > 1 {
      JoinNonEmpty(ts[1..]);
    }
  }

  /**
   * The normalised query is empty exactly when the query is empty or all
   * whitespace.
   */
  lemma BlankIffEmpty(query: string)
    ensures NormalizedQuery(query) == "" <==> AllSpace(query)
  {
    if HasQuote(query) {
      var i :| 0 <= i < |query| && (query[i] == '"' || query[i] == '\'');
      assert !IsSpace(query[i]);
    } else {
      TokensAreSplit(query);
      SplitEmptyIff(query);
      var ts := Split(query);
      if ts != [] {
        var e := ExpandAll(ts);
        assert forall k :: 0 <= k < |e| ==> e[k] != [];
        JoinNonEmpty(e);
      }
    }
  }

  lemma {:induction false} WordLenPrefix(w: string, s: string)
    requires forall i :: 0 <= i < |w| ==> !IsSpace(w[i])
    requires s == [] || IsSpace(s[0])
    ensures WordLen(w + s) == |w|
  {
    if w == [] {
      assert w + s == s;
    } else {
      assert (w + s)[1..] == w[1..] + s;
      WordLenPrefix(w[1..], s);
    }
  }

  /** Splitting a word followed by whitespace (or nothing) gives the word first. */
  lemma SplitWord(w: string, s: string)
    requires IsWord(w)
    requires s == [] || IsSpace(s[0])
    ensures Split(w + s) == [w] + Split(s)
  {
    var ws := w + s;
    var n := WordLen(ws);
    WordLenPrefix(w, s);
    assert ws[..n] == w;
    assert ws[n..] == s;
  }

  /** `str.split()` undoes `" ".join` on whitespace-free non-empty tokens. */
  lemma {:induction false} SplitJoin(ts: seq<string>)
    requires forall k :: 0 <= k < |ts| ==> IsWord(ts[k])
    ensures Split(Join(ts)) == ts
  {
    if |ts| == 1 {
      assert Join(ts) == ts[0] + "";
      SplitWord(ts[0], "");
    } else if |ts| > 1 {
      var rest := Join(ts[1..]);
      var sp := " " + rest;
      assert Join(ts) == ts[0] + sp;
      SplitWord(ts[0], sp);
      assert sp[1..] == rest;
      assert Split(sp) == Split(rest);
      SplitJoin(ts[1..]);
      assert ts == [ts[0]] + ts[1..];
    }
  }

  lemma {:induction false} JoinQuoteless(ts: seq<string>)
    requires forall k :: 0 <= k < |ts| ==> !HasQuote(ts[k])
    ensures !HasQuote(Join(ts))
  {
    if |ts| > 1 {
      JoinQuoteless(ts[1..]);
    }
  }

  /** Expansion never adds a second `*`. */
  lemma ExpandIdempotent(t: string)
    ensures Expand(Expand(t)) == Expand(t)
  {
  }

  /**
   * `u` is the expansion of token `t` as the loop builds it: it ends in `*`;
   * it is `t` itself when `t` already ends in `*`, else `t` with one `*` added.
   */
  predicate ExpandsTo(t: string, u: string)
  {
    && |t| > 0 && |u| > 0 && u[|u| - 1] == '*'
    && (t[|t| - 1] == '*' ==> u == t)
    && (t[|t| - 1] != '*' ==> u == t + "*")
  }

  /**
   * For a query without quotes, the normalised query's tokens are the
   * query's own tokens, in order and as many, each expanded once.
   */
  lemma TokensExpanded(query: string)
    requires !HasQuote(query)
    ensures Split(NormalizedQuery(query)) == ExpandAll(Split(query))
    ensures |Split(NormalizedQuery(query))| == |Split(query)|
    ensures forall k :: 0 <= k < |Split(query)| ==> ExpandsTo(Split(query)[k], Split(NormalizedQuery(query))[k])
  {
    TokensAreSplit(query);
    var ts := Split(query);
    var e := ExpandAll(ts);
    forall k | 0 <= k < |e| ensures IsWord(e[k]) && ExpandsTo(ts[k], e[k]) {
      assert IsWord(ts[k]);
    }
    if ts != [] {
      SplitJoin(e);
    }
    assert Split(NormalizedQuery(query)) == e;
  }

  /** The tokens of a query without quotes have none either. */
  lemma {:induction false} SplitQuoteless(s: string)
    requires !HasQuote(s)
    ensures forall k :: 0 <= k < |Split(s)| ==> !HasQuote(Split(s)[k])
    decreases |s|
  {
    if s != [] {
      if IsSpace(s[0]) {
        SplitQuoteless(s[1..]);
      } else {
        SplitQuoteless(s[WordLen(s)..]);
      }
    }
  }

  /** Expanded words are still quote-free words. */
  lemma ExpandAllWords(ts: seq<string>)
    requires forall k :: 0 <= k < |ts| ==> IsWord(ts[k]) && !HasQuote(ts[k])
    ensures forall k :: 0 <= k < |ts| ==> IsWord(ExpandAll(ts)[k]) && !HasQuote(ExpandAll(ts)[k])
  {
    var e := ExpandAll(ts);
    forall k | 0 <= k < |ts| ensures IsWord(e[k]) && !HasQuote(e[k]) {
      assert IsWord(ts[k]) && !HasQuote(ts[k]);
    }
  }

  lemma ExpandAllIdempotent(ts: seq<string>)
    ensures ExpandAll(ExpandAll(ts)) == ExpandAll(ts)
  {
    var e := ExpandAll(ts);
    var ee := ExpandAll(e);
    forall k | 0 <= k < |e| ensures ee[k] == e[k] {
      ExpandIdempotent(ts[k]);
    }
  }

  /** The normal form is a fixed point: normalising twice changes nothing. */
  lemma NormalizedIdempotent(query: string)
    ensures NormalizedQuery(NormalizedQuery(query)) == NormalizedQuery(query)
  {
    var n := NormalizedQuery(query);
    if !HasQuote(query) && n != "" {
      TokensAreSplit(query);
      var ts := Split(query);
      SplitQuoteless(query);
      var e := ExpandAll(ts);
      assert n == Join(e);
      ExpandAllWords(ts);
      NormalizeJoined(e);
      ExpandAllIdempotent(ts);
    }
  }

  /** The single-token query the search test relies on. */
  lemma NormalizeAlpha()
    ensures NormalizedQuery("alpha") == "alpha*"
  {
    SplitWord("alpha", "");
    assert "alpha" + "" == "alpha";
    TokensAreSplit("alpha");
  }

  /** A query that is already whitespace-separated words is their expansion, joined. */
  lemma NormalizeJoined(ts: seq<string>)
    requires |ts| > 0
    requires forall k :: 0 <= k < |ts| ==> IsWord(ts[k]) && !HasQuote(ts[k])
    ensures NormalizedQuery(Join(ts)) == Join(ExpandAll(ts))
  {
    JoinQuoteless(ts);
    SplitJoin(ts);
    DropEmptyOfNonEmpty(ts);
  }

  lemma TwoWords(a: string, b: string)
    requires IsWord(a) && !HasQuote(a) && IsWord(b) && !HasQuote(b)
    ensures NormalizedQuery(a + " " + b) == Expand(a) + " " + Expand(b)
  {
    var ts := [a, b];
    assert Join(ts[1..]) == b;
    var e := ExpandAll(ts);
    assert e == [Expand(a), Expand(b)];
    assert Join(e[1..]) == Expand(b);
    NormalizeJoined(ts);
  }

  /** Two tokens, each expanded, joined by one space ("alpha beta"). */
  lemma NormalizeAlphaBeta()
    ensures NormalizedQuery("alpha" + " " + "beta") == "alpha* beta*"
  {
    assert IsWord("alpha") && !HasQuote("alpha") && IsWord("beta") && !HasQuote("beta");
    TwoWords("alpha", "beta");
    assert Expand("alpha") == "alpha*" && Expand("beta") == "beta*";
  }

  /** A token that already ends in `*` is not expanded again ("pre* fix"). */
  lemma NormalizeKeepsStar()
    ensures NormalizedQuery("pre*" + " " + "fix") == "pre* fix*"
  {
    assert IsWord("pre*") && !HasQuote("pre*") && IsWord("fix") && !HasQuote("fix");
    TwoWords("pre*", "fix");
    assert Expand("pre*") == "pre*" && Expand("fix") == "fix*";
  }

  /** A phrase query passes through; blank queries normalise to "". */
  lemma NormalizePhraseAndBlank()
    ensures NormalizedQuery("\"exact phrase\"") == "\"exact phrase\""
    ensures NormalizedQuery("") == "" && NormalizedQuery(" \t ") == ""
  {
    assert "\"exact phrase\""[0] == '"';
    BlankIffEmpty("");
    BlankIffEmpty(" \t ");
  }
}
