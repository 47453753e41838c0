// Locating a copied quote in a source fragment, up to the length of its white-space runs.
module QuoteSearch {
  import opened Sorting
  import opened Texts

  const MAX_QUOTE_UTF16 := 500

  // The Unicode property White_Space on a single code unit.
  predicate WhiteSpace(u: Utf16) {
    0x9 <= u <= 0xD || u == 0x20 || u == 0x85 || u == 0xA0 || u == 0x1680 || 0x2000 <= u <= 0x200A || u == 0x2028 ||
    u == 0x2029 || u == 0x202F || u == 0x205F || u == 0x3000
  }

  // ---- Well-formed UTF-16 ----

  // Every surrogate is half of a pair.
  predicate WellFormed(v: seq<Utf16>) {
    && (forall k :: 0 <= k < |v| && High(v[k]) ==> k + 1 < |v| && Low(v[k + 1]))
    && forall k :: 0 <= k < |v| && Low(v[k]) ==> k > 0 && High(v[k - 1])
  }

  method IsWellFormedUtf16(v: seq<Utf16>) returns (ok: bool)
    ensures ok <==> WellFormed(v)
  {
    var index := 0;
    while index < |v|
      invariant 0 <= index <= |v|
      invariant forall k :: 0 <= k < index && High(v[k]) ==> k + 1 < index && Low(v[k + 1])
      invariant forall k :: 0 <= k < index && Low(v[k]) ==> k > 0 && High(v[k - 1])
    {
      var unit := v[index];
      if High(unit) {
        if !(index + 1 < |v| && Low(v[index + 1])) { return false; }
        index := index + 1;
      } else if Low(unit) {
        assert index == 0 || !High(v[index - 1]);
        return false;
      }
      index := index + 1;
    }
    ok := true;
  }

  // ---- White-space aligned units ----

  // A unit without a value is a maximal run of white space.
  datatype Token = Token(value: Option<Utf16>, rawStart: nat, rawEnd: nat)

  function RunEnd(t: seq<Utf16>, i: nat): (e: nat)
    requires i <= |t|
    ensures i <= e <= |t|
    ensures i < |t| && WhiteSpace(t[i]) ==> i < e
    ensures forall k :: i <= k < e ==> WhiteSpace(t[k])
    decreases |t| - i
  {
    if i < |t| && WhiteSpace(t[i]) then RunEnd(t, i + 1) else i
  }

  function Tokens(t: seq<Utf16>, i: nat): seq<Token>
    requires i <= |t|
    decreases |t| - i
  {
    if i == |t| then []
    else if WhiteSpace(t[i]) then [Token(None, i, RunEnd(t, i))] + Tokens(t, RunEnd(t, i))
    else [Token(Some(t[i]), i, i + 1)] + Tokens(t, i + 1)
  }

  lemma NoTokens(t: seq<Utf16>)
    ensures Tokens(t, |t|) == []
  {
  }

  lemma TokensStep(t: seq<Utf16>, i: nat)
    requires i < |t|
    ensures WhiteSpace(t[i]) ==> Tokens(t, i) == [Token(None, i, RunEnd(t, i))] + Tokens(t, RunEnd(t, i))
    ensures !WhiteSpace(t[i]) ==> Tokens(t, i) == [Token(Some(t[i]), i, i + 1)] + Tokens(t, i + 1)
  {
  }

  method WhitespaceAlignedUnits(t: seq<Utf16>) returns (tokens: seq<Token>)
    ensures tokens == Tokens(t, 0)
  {
    hide Tokens, WhiteSpace;
    tokens := [];
    var cursor: nat := 0;
    assert Tokens(t, |t|) == [] by { NoTokens(t); }
    while cursor < |t|
      invariant cursor <= |t|
      invariant Tokens(t, 0) == tokens + Tokens(t, cursor)
    {
      var start := cursor;
      TokensStep(t, start);
      if WhiteSpace(t[cursor]) {
        cursor := cursor + 1;
        while cursor < |t| && WhiteSpace(t[cursor])
          invariant start < cursor <= |t|
          invariant RunEnd(t, start) == RunEnd(t, cursor)
        {
          cursor := cursor + 1;
        }
        tokens := tokens + [Token(None, start, cursor)];
      } else {
        tokens := tokens + [Token(Some(t[cursor]), cursor, cursor + 1)];
        cursor := cursor + 1;
      }
    }
  }

  // ---- Equality up to white-space runs ----

  // A text with every maximal run of white space collapsed into one mark.
  function Collapse(x: seq<Utf16>): seq<Option<Utf16>>
    decreases |x|
  {
    if x == [] then []
    else if WhiteSpace(x[0]) then [None] + Collapse(x[RunEnd(x, 0)..])
    else [Some(x[0])] + Collapse(x[1..])
  }

  function Values(tokens: seq<Token>): seq<Option<Utf16>> {
    seq(|tokens|, k requires 0 <= k < |tokens| => tokens[k].value)
  }

  lemma {:induction false} RunEndSuffix(t: seq<Utf16>, i: nat, k: nat)
    requires i <= k <= |t|
    ensures RunEnd(t[i..], k - i) == RunEnd(t, k) - i
    decreases |t| - k
  {
    if k < |t| && WhiteSpace(t[k]) { RunEndSuffix(t, i, k + 1); }
  }

  lemma {:induction false} TokensCollapse(t: seq<Utf16>, i: nat)
    requires i <= |t|
    ensures Values(Tokens(t, i)) == Collapse(t[i..])
    decreases |t| - i
  {
    if i < |t| {
      if WhiteSpace(t[i]) {
        var e := RunEnd(t, i);
        RunEndSuffix(t, i, i);
        assert t[i..][RunEnd(t[i..], 0)..] == t[e..];
        TokensCollapse(t, e);
      } else {
        assert t[i..][1..] == t[i + 1..];
        TokensCollapse(t, i + 1);
      }
    }
  }

  lemma {:induction false} RunEndPrefix(x: seq<Utf16>, i: nat, j: nat)
    requires i < j <= |x| && !WhiteSpace(x[j - 1])
    ensures RunEnd(x[..j], i) == RunEnd(x, i) < j
    decreases j - i
  {
    if WhiteSpace(x[i]) { RunEndPrefix(x, i + 1, j); }
  }

  // A text collapses part by part when the first part does not end in white space.
  lemma {:induction false} CollapseSplit(x: seq<Utf16>, j: nat)
    requires j <= |x| && (j > 0 ==> !WhiteSpace(x[j - 1]))
    ensures Collapse(x) == Collapse(x[..j]) + Collapse(x[j..])
    decreases |x|
  {
    if j == 0 {
      assert x[j..] == x;
    } else {
      var e := if WhiteSpace(x[0]) then RunEnd(x, 0) else 1;
      if WhiteSpace(x[0]) { RunEndPrefix(x, 0, j); }
      assert x[..j][e..] == x[e..][..j - e];
      assert x[e..][j - e..] == x[j..];
      assert j > e ==> x[e..][j - e - 1] == x[j - 1];
      CollapseSplit(x[e..], j - e);
    }
  }

  // ---- Tokens and positions ----

  // The tokens from the `k`-th on are those of the text from its start on, and the next starts where it ends.
  lemma {:induction false} TokenSuffix(t: seq<Utf16>, i: nat, k: nat)
    requires i <= |t| && k < |Tokens(t, i)|
    ensures
      var token := Tokens(t, i)[k];
      && i <= token.rawStart < token.rawEnd <= |t|
      && Tokens(t, token.rawStart) == Tokens(t, i)[k..]
      && Tokens(t, token.rawEnd) == Tokens(t, i)[k + 1..]
      && (token.value.Some? ==> token.rawEnd == token.rawStart + 1 && !WhiteSpace(t[token.rawStart]))
    decreases |t| - i
  {
    if k > 0 {
      var next := if WhiteSpace(t[i]) then RunEnd(t, i) else i + 1;
      TokenSuffix(t, next, k - 1);
      assert Tokens(t, i)[1..] == Tokens(t, next);
      assert Tokens(t, i)[k] == Tokens(t, next)[k - 1];
      assert Tokens(t, i)[k..] == Tokens(t, next)[k - 1..];
      assert Tokens(t, i)[k + 1..] == Tokens(t, next)[k..];
    }
  }

  // Every character that is not white space is a token.
  lemma {:induction false} TokenAt(t: seq<Utf16>, i: nat, p: nat) returns (k: nat)
    requires i <= p < |t| && !WhiteSpace(t[p])
    ensures k < |Tokens(t, i)| && Tokens(t, i)[k] == Token(Some(t[p]), p, p + 1)
    decreases |t| - i
  {
    if i == p {
      k := 0;
    } else {
      var next := if WhiteSpace(t[i]) then RunEnd(t, i) else i + 1;
      assert next <= p;
      k := TokenAt(t, next, p);
      k := k + 1;
    }
  }

  lemma {:induction false} TokensOrdered(t: seq<Utf16>, i: nat, k: nat, l: nat)
    requires i <= |t| && k < l < |Tokens(t, i)|
    ensures Tokens(t, i)[k].rawEnd <= Tokens(t, i)[l].rawStart
    decreases |t| - i
  {
    TokenSuffix(t, i, k);
    var end := Tokens(t, i)[k].rawEnd;
    assert Tokens(t, end)[l - k - 1] == Tokens(t, i)[l];
    TokenSuffix(t, end, l - k - 1);
  }

  // The text between two characters collapses to the values of the tokens between them.
  lemma BetweenTokens(t: seq<Utf16>, k: nat, l: nat)
    requires k <= l < |Tokens(t, 0)| && Tokens(t, 0)[k].value.Some? && Tokens(t, 0)[l].value.Some?
    ensures Tokens(t, 0)[k].rawStart < Tokens(t, 0)[l].rawEnd <= |t|
    ensures Collapse(t[Tokens(t, 0)[k].rawStart..Tokens(t, 0)[l].rawEnd]) == Values(Tokens(t, 0)[k..l + 1])
  {
    hide Tokens, Collapse;
    var tokens := Tokens(t, 0);
    var i, j := tokens[k].rawStart, tokens[l].rawEnd;
    TokenSuffix(t, 0, k);
    TokenSuffix(t, 0, l);
    if k < l { TokensOrdered(t, 0, k, l); }
    CollapseSplit(t[i..], j - i);
    TokensCollapse(t, i);
    TokensCollapse(t, j);
    assert t[i..][..j - i] == t[i..j];
    assert t[i..][j - i..] == t[j..];
    assert Values(tokens[k..]) == Values(tokens[k..l + 1]) + Values(tokens[l + 1..]);
    assert |Collapse(t[i..j])| == |Values(tokens[k..l + 1])|;
    assert Collapse(t[i..j]) == Values(tokens[k..])[..l + 1 - k];
  }

  // ---- The search ----

  // A substring that starts and ends with a character other than white space and equals the quote up to the length of
  // its non-empty white-space runs.
  predicate Match(t: seq<Utf16>, quote: seq<Utf16>, i: nat, j: nat) {
    && i < j <= |t|
    && !WhiteSpace(t[i]) && !WhiteSpace(t[j - 1])
    && Collapse(t[i..j]) == Collapse(quote)
  }

  predicate Trimmed(quote: seq<Utf16>) {
    quote != [] && !WhiteSpace(quote[0]) && !WhiteSpace(quote[|quote| - 1])
  }

  predicate Usable(t: seq<Utf16>, i: nat, j: nat)
    requires i <= j <= |t|
  {
    j - i <= 500 && WellFormed(t[i..j])
  }

  datatype Selector = Selector(start: nat, length: nat)

  predicate MatchesAt(quote: seq<Token>, source: seq<Token>, start: nat) {
    start + |quote| <= |source| && forall k :: 0 <= k < |quote| ==> quote[k].value == source[start + k].value
  }

  lemma QuoteEnds(quote: seq<Utf16>)
    ensures quote == [] <==> Tokens(quote, 0) == []
    ensures quote != [] ==>
      var tokens := Tokens(quote, 0);
      (tokens[0].value.Some? <==> !WhiteSpace(quote[0])) && (tokens[|tokens| - 1].value.Some? <==> !WhiteSpace(quote[|quote| - 1]))
  {
    var tokens := Tokens(quote, 0);
    if quote != [] {
      TokenSuffix(quote, 0, |tokens| - 1);
      var last := tokens[|tokens| - 1];
      assert tokens[|tokens|..] == [];
      assert Tokens(quote, last.rawEnd) == [];
      assert last.rawEnd == |quote|;
      if !WhiteSpace(quote[|quote| - 1]) {
        var k := TokenAt(quote, 0, |quote| - 1);
        if k < |tokens| - 1 { TokensOrdered(quote, 0, k, |tokens| - 1); }
      }
    }
  }

  // A token match is a textual match between the raw positions of its ends.
  lemma TokenMatch(t: seq<Utf16>, quote: seq<Utf16>, start: nat)
    requires Trimmed(quote) && MatchesAt(Tokens(quote, 0), Tokens(t, 0), start)
    ensures
      var source := Tokens(t, 0);
      Match(t, quote, source[start].rawStart, source[start + |Tokens(quote, 0)| - 1].rawEnd)
  {
    hide Tokens, Collapse;
    var source, q := Tokens(t, 0), Tokens(quote, 0);
    var last := start + |q| - 1;
    QuoteEnds(quote);
    assert source[start].value == q[0].value && source[last].value == q[|q| - 1].value;
    TokenSuffix(t, 0, start);
    TokenSuffix(t, 0, last);
    BetweenTokens(t, start, last);
    TokensCollapse(quote, 0);
    assert quote[0..] == quote;
    assert Values(source[start..last + 1]) == Values(q);
  }

  // Every textual match is a token match.
  lemma TextMatch(t: seq<Utf16>, quote: seq<Utf16>, i: nat, j: nat) returns (start: nat)
    requires Match(t, quote, i, j)
    ensures MatchesAt(Tokens(quote, 0), Tokens(t, 0), start) && |Tokens(quote, 0)| > 0
    ensures Tokens(t, 0)[start].rawStart == i && Tokens(t, 0)[start + |Tokens(quote, 0)| - 1].rawEnd == j
  {
    var source, q := Tokens(t, 0), Tokens(quote, 0);
    start := TokenAt(t, 0, i);
    var l := TokenAt(t, 0, j - 1);
    if l < start { TokensOrdered(t, 0, l, start); }
    BetweenTokens(t, start, l);
    TokensCollapse(quote, 0);
    assert quote[0..] == quote;
    assert Values(source[start..l + 1]) == Values(q);
    assert |q| == l + 1 - start;
    forall k | 0 <= k < |q| ensures q[k].value == source[start + k].value {
      assert Values(q)[k] == Values(source[start..l + 1])[k];
    }
  }

  ghost predicate Ascends(s: seq<Selector>) {
    forall i, j :: 0 <= i < j < |s| ==> s[i].start < s[j].start
  }

  // The selectors are exactly the matching substrings, in order; there are none to offer when the quote starts or ends
  // in white space, or some matching substring is too long or splits a surrogate pair.
  ghost predicate Searched(t: seq<Utf16>, quote: seq<Utf16>, r: Option<seq<Selector>>) {
    match r
    case None => Trimmed(quote) ==> exists i: nat, j: nat :: Match(t, quote, i, j) && !Usable(t, i, j)
    case Some(selectors) =>
      && Trimmed(quote)
      && Ascends(selectors)
      && (forall s :: s in selectors ==> Match(t, quote, s.start, s.start + s.length))
      && forall i: nat, j: nat :: Match(t, quote, i, j) ==> Usable(t, i, j) && Selector(i, j - i) in selectors
  }

  ghost predicate Found(t: seq<Utf16>, quote: seq<Utf16>, k: nat, s: Selector) {
    && Tokens(quote, 0) != []
    && MatchesAt(Tokens(quote, 0), Tokens(t, 0), k)
    && s.start == Tokens(t, 0)[k].rawStart
    && s.start + s.length == Tokens(t, 0)[k + |Tokens(quote, 0)| - 1].rawEnd
    && Match(t, quote, s.start, s.start + s.length)
    && Usable(t, s.start, s.start + s.length)
  }

  ghost predicate AllFound(t: seq<Utf16>, quote: seq<Utf16>, selectors: seq<Selector>, n: nat) {
    && Ascends(selectors)
    && (forall s :: s in selectors ==> exists k :: 0 <= k < n && Found(t, quote, k, s))
    && forall k :: 0 <= k < n && MatchesAt(Tokens(quote, 0), Tokens(t, 0), k) ==> exists s :: s in selectors && Found(t, quote, k, s)
  }

  lemma NothingFound(t: seq<Utf16>, quote: seq<Utf16>)
    ensures AllFound(t, quote, [], 0)
  {
  }

  lemma NewFound(t: seq<Utf16>, quote: seq<Utf16>, k: nat) returns (i: nat, j: nat)
    requires Trimmed(quote) && MatchesAt(Tokens(quote, 0), Tokens(t, 0), k)
    ensures Tokens(quote, 0) != []
    ensures i == Tokens(t, 0)[k].rawStart && j == Tokens(t, 0)[k + |Tokens(quote, 0)| - 1].rawEnd
    ensures i < j <= |t| && Match(t, quote, i, j)
    ensures Usable(t, i, j) ==> Found(t, quote, k, Selector(i, j - i))
  {
    hide Tokens, Usable, Match;
    QuoteEnds(quote);
    TokenMatch(t, quote, k);
    i, j := Tokens(t, 0)[k].rawStart, Tokens(t, 0)[k + |Tokens(quote, 0)| - 1].rawEnd;
    MatchSpans(t, quote, i, j);
  }

  lemma FoundLater(t: seq<Utf16>, quote: seq<Utf16>, k: nat, s: Selector, l: nat)
    requires Found(t, quote, k, s) && k < l < |Tokens(t, 0)|
    ensures s.start < Tokens(t, 0)[l].rawStart
  {
    hide Tokens, Usable, Match;
    TokensOrdered(t, 0, k, l);
    TokenSuffix(t, 0, k);
  }

  lemma ExtendFound(t: seq<Utf16>, quote: seq<Utf16>, selectors: seq<Selector>, n: nat, s: Selector)
    requires AllFound(t, quote, selectors, n) && Found(t, quote, n, s)
    ensures AllFound(t, quote, selectors + [s], n + 1)
  {
    hide Tokens, Found, MatchesAt;
    var more := selectors + [s];
    forall x | x in selectors ensures x.start < s.start {
      var k :| 0 <= k < n && Found(t, quote, k, x);
      FoundStart(t, quote, n, s);
      FoundLater(t, quote, k, x, n);
    }
    forall k | 0 <= k < n + 1 && MatchesAt(Tokens(quote, 0), Tokens(t, 0), k) ensures exists x :: x in more && Found(t, quote, k, x) {
      if k == n { assert s in more; } else {
        var x :| x in selectors && Found(t, quote, k, x);
        assert x in more;
      }
    }
  }

  lemma FoundStart(t: seq<Utf16>, quote: seq<Utf16>, k: nat, s: Selector)
    requires Found(t, quote, k, s)
    ensures k < |Tokens(t, 0)| && s.start == Tokens(t, 0)[k].rawStart
    ensures Match(t, quote, s.start, s.start + s.length) && Usable(t, s.start, s.start + s.length)
  {
    hide Tokens, Usable, Match;
  }

  lemma FoundEnds(t: seq<Utf16>, quote: seq<Utf16>, i: nat, j: nat, k: nat, s: Selector)
    requires Found(t, quote, k, s) && i < j
    requires Tokens(t, 0)[k].rawStart == i && Tokens(t, 0)[k + |Tokens(quote, 0)| - 1].rawEnd == j
    ensures s == Selector(i, j - i)
  {
    hide Tokens, Usable, Match;
  }

  lemma Conclude(t: seq<Utf16>, quote: seq<Utf16>, selectors: seq<Selector>, n: nat)
    requires Trimmed(quote) && AllFound(t, quote, selectors, n)
    requires n + |Tokens(quote, 0)| > |Tokens(t, 0)|
    ensures Searched(t, quote, Some(selectors))
  {
    hide Tokens, MatchesAt, Match, Usable, Found;
    forall s | s in selectors ensures Match(t, quote, s.start, s.start + s.length) {
      var k :| 0 <= k < n && Found(t, quote, k, s);
      FoundStart(t, quote, k, s);
    }
    forall i: nat, j: nat | Match(t, quote, i, j) ensures i < j <= |t| && Usable(t, i, j) && Selector(i, j - i) in selectors {
      MatchSpans(t, quote, i, j);
      var k := TextMatch(t, quote, i, j);
      InRange(Tokens(quote, 0), Tokens(t, 0), k);
      var s :| s in selectors && Found(t, quote, k, s);
      FoundEnds(t, quote, i, j, k, s);
      FoundStart(t, quote, k, s);
    }
  }

  lemma InRange(quote: seq<Token>, source: seq<Token>, k: nat)
    requires MatchesAt(quote, source, k)
    ensures k + |quote| <= |source|
  {
  }

  lemma MatchSpans(t: seq<Utf16>, quote: seq<Utf16>, i: nat, j: nat)
    requires Match(t, quote, i, j)
    ensures i < j <= |t|
  {
  }

  method QuoteSelectors(t: seq<Utf16>, quote: seq<Utf16>) returns (r: Option<seq<Selector>>)
    ensures Searched(t, quote, r)
  {
    hide Tokens, Match, WellFormed, AllFound;
    assert AllFound(t, quote, [], 0) by { NothingFound(t, quote); }
    var q := WhitespaceAlignedUnits(quote);
    QuoteEnds(quote);
    if |q| == 0 || q[0].value == None || q[|q| - 1].value == None { return None; }
    var source := WhitespaceAlignedUnits(t);
    var selectors: seq<Selector> := [];
    var start: nat := 0;
    while start + |q| <= |source|
      invariant AllFound(t, quote, selectors, start)
      decreases |source| - start
    {
      if MatchesAt(q, source, start) {
        ghost var lo, hi := NewFound(t, quote, start);
        var i, j := source[start].rawStart, source[start + |q| - 1].rawEnd;
        var wellFormed := IsWellFormedUtf16(t[i..j]);
        if j - i > MAX_QUOTE_UTF16 || !wellFormed { return None; }
        ExtendFound(t, quote, selectors, start, Selector(i, j - i));
        selectors := selectors + [Selector(i, j - i)];
      } else {
        SkipFound(t, quote, selectors, start);
      }
      start := start + 1;
    }
    Conclude(t, quote, selectors, start);
    r := Some(selectors);
  }

  lemma SkipFound(t: seq<Utf16>, quote: seq<Utf16>, selectors: seq<Selector>, n: nat)
    requires AllFound(t, quote, selectors, n) && !MatchesAt(Tokens(quote, 0), Tokens(t, 0), n)
    ensures AllFound(t, quote, selectors, n + 1)
  {
    hide Tokens, Found, MatchesAt;
  }

  // ---- The selectors as a function of the texts ----

  lemma {:induction false} SearchFrom(t: seq<Utf16>, quote: seq<Utf16>, selectors: seq<Selector>, n: nat)
    returns (r: Option<seq<Selector>>)
    requires Trimmed(quote) && AllFound(t, quote, selectors, n)
    ensures Searched(t, quote, r)
    decreases |Tokens(t, 0)| - n
  {
    hide Tokens, Match, WellFormed, AllFound, Usable, MatchesAt, Searched;
    if n + |Tokens(quote, 0)| > |Tokens(t, 0)| {
      Conclude(t, quote, selectors, n);
      r := Some(selectors);
    } else {
      QuoteEnds(quote);
      if MatchesAt(Tokens(quote, 0), Tokens(t, 0), n) {
        var i, j := NewFound(t, quote, n);
        if Usable(t, i, j) {
          ExtendFound(t, quote, selectors, n, Selector(i, j - i));
          r := SearchFrom(t, quote, selectors + [Selector(i, j - i)], n + 1);
        } else {
          r := None;
          assert Searched(t, quote, None) by { Unusable(t, quote, i, j); }
        }
      } else {
        SkipFound(t, quote, selectors, n);
        r := SearchFrom(t, quote, selectors, n + 1);
      }
    }
  }

  lemma Unusable(t: seq<Utf16>, quote: seq<Utf16>, i: nat, j: nat)
    requires i < j <= |t| && Match(t, quote, i, j) && !Usable(t, i, j)
    ensures Searched(t, quote, None)
  {
    hide Match, Usable;
  }

  lemma SearchExists(t: seq<Utf16>, quote: seq<Utf16>)
    ensures exists r :: Searched(t, quote, r)
  {
    if Trimmed(quote) {
      NothingFound(t, quote);
      var r := SearchFrom(t, quote, [], 0);
    } else {
      assert Searched(t, quote, None);
    }
  }

  ghost function Selectors(t: seq<Utf16>, quote: seq<Utf16>): (r: Option<seq<Selector>>)
    ensures Searched(t, quote, r)
  {
    SearchExists(t, quote);
    var r :| Searched(t, quote, r);
    r
  }

  function ByStart(): (Selector, Selector) -> bool {
    (a: Selector, b: Selector) => a.start < b.start
  }

  // A search has one result.
  lemma SearchUnique(t: seq<Utf16>, quote: seq<Utf16>, r: Option<seq<Selector>>)
    requires Searched(t, quote, r)
    ensures r == Selectors(t, quote)
  {
    hide Match, Usable, Selectors;
    var u := Selectors(t, quote);
    if r.Some? && u.Some? {
      SelectorsFrom(t, quote, r.value, u.value);
      SelectorsFrom(t, quote, u.value, r.value);
      assert Elements(r.value) == Elements(u.value);
      AscendingUnique(r.value, u.value, ByStart());
    }
  }

  lemma SelectorsFrom(t: seq<Utf16>, quote: seq<Utf16>, s: seq<Selector>, u: seq<Selector>)
    requires Searched(t, quote, Some(s)) && Searched(t, quote, Some(u))
    ensures forall x :: x in s ==> x in u
    ensures Ascending(s, ByStart()) && StrictOrderOn(ByStart(), Elements(s))
  {
    hide Match, Usable, Searched;
    forall x | x in s ensures x in u {
      SelectorMatches(t, quote, s, x);
      MatchIsSelected(t, quote, u, x);
    }
    assert Ascends(s) by { SearchAscends(t, quote, s); }
    AscendsByStart(s);
  }

  lemma SelectorMatches(t: seq<Utf16>, quote: seq<Utf16>, s: seq<Selector>, x: Selector)
    requires Searched(t, quote, Some(s)) && x in s
    ensures Match(t, quote, x.start, x.start + x.length)
  {
    hide Match, Usable;
  }

  lemma MatchIsSelected(t: seq<Utf16>, quote: seq<Utf16>, s: seq<Selector>, x: Selector)
    requires Searched(t, quote, Some(s)) && Match(t, quote, x.start, x.start + x.length)
    ensures x in s
  {
    hide Match, Usable;
    assert Selector(x.start, x.start + x.length - x.start) in s;
  }

  lemma SearchAscends(t: seq<Utf16>, quote: seq<Utf16>, s: seq<Selector>)
    requires Searched(t, quote, Some(s))
    ensures Ascends(s)
  {
    hide Match, Usable;
  }

  lemma AscendsByStart(s: seq<Selector>)
    requires Ascends(s)
    ensures Ascending(s, ByStart()) && StrictOrderOn(ByStart(), Elements(s))
  {
    forall x, y | x in s && y in s && x != y ensures x.start != y.start {
      var i :| 0 <= i < |s| && s[i] == x;
      var j :| 0 <= j < |s| && s[j] == y;
    }
  }

  // The search gives up exactly when the quote has white ends or some match may not be used.
  lemma GivesUpExactly(t: seq<Utf16>, quote: seq<Utf16>)
    ensures Selectors(t, quote) == None <==>
            !Trimmed(quote) || exists i: nat, j: nat :: Match(t, quote, i, j) && !Usable(t, i, j)
    ensures Selectors(t, quote).Some? ==>
            forall s :: s in Selectors(t, quote).value <==> Match(t, quote, s.start, s.start + s.length)
  {
    hide Match, Usable, Selectors;
    var r := Selectors(t, quote);
    if r.Some? {
      forall s ensures s in r.value <==> Match(t, quote, s.start, s.start + s.length) {
        if s in r.value { SelectorMatches(t, quote, r.value, s); }
        if Match(t, quote, s.start, s.start + s.length) { MatchIsSelected(t, quote, r.value, s); }
      }
    }
  }

  // The only match of a quote, and one that may be used.
  ghost predicate OnlyMatch(t: seq<Utf16>, quote: seq<Utf16>, i: nat, j: nat) {
    && Match(t, quote, i, j)
    && Usable(t, i, j)
    && forall k: nat, l: nat :: Match(t, quote, k, l) ==> k == i && l == j
  }

  ghost predicate Positionable(t: Option<seq<Utf16>>, quote: seq<Utf16>) {
    && t.Some? && 1 <= |quote| <= 500 && WellFormed(quote) && Trimmed(quote)
    && exists i: nat, j: nat :: OnlyMatch(t.value, quote, i, j)
  }

  // A quote receives coordinates exactly when it matches the fragment in one place.
  method PositionUniqueExactSourceQuote(t: Option<seq<Utf16>>, quote: seq<Utf16>) returns (r: Option<Selector>)
    ensures r.Some? <==> Positionable(t, quote)
    ensures r.Some? ==> OnlyMatch(t.value, quote, r.value.start, r.value.start + r.value.length)
  {
    hide Match, WellFormed, Trimmed, Usable, Searched, OnlyMatch;
    var wellFormed := IsWellFormedUtf16(quote);
    if |quote| < 1 || |quote| > MAX_QUOTE_UTF16 || !wellFormed || t == None { return None; }
    var matches := QuoteSelectors(t.value, quote);
    if matches == None || |matches.value| != 1 {
      NotPositionable(t.value, quote, matches);
      return None;
    }
    var s := matches.value[0];
    assert matches.value == [s];
    assert matches == Some([s]);
    SingleMatch(t.value, quote, s);
    r := Some(s);
  }

  lemma SingleMatch(t: seq<Utf16>, quote: seq<Utf16>, s: Selector)
    requires Searched(t, quote, Some([s]))
    ensures Trimmed(quote) && OnlyMatch(t, quote, s.start, s.start + s.length)
  {
    hide Usable, Match, Searched;
    SomeMeans(t, quote, [s]);
    SelectorMatches(t, quote, [s], s);
    forall k: nat, l: nat | Match(t, quote, k, l) ensures k == s.start && l == s.start + s.length {
      MatchSpans(t, quote, k, l);
      MatchIsSelected(t, quote, [s], Selector(k, l - k));
    }
  }

  lemma SomeMeans(t: seq<Utf16>, quote: seq<Utf16>, s: seq<Selector>)
    requires Searched(t, quote, Some(s))
    ensures Trimmed(quote)
    ensures forall i: nat, j: nat :: Match(t, quote, i, j) ==> i < j <= |t| && Usable(t, i, j)
  {
    hide Usable;
  }

  lemma NotPositionable(t: seq<Utf16>, quote: seq<Utf16>, matches: Option<seq<Selector>>)
    requires Searched(t, quote, matches) && (matches == None || |matches.value| != 1)
    ensures !Positionable(Some(t), quote)
  {
    hide Usable, WellFormed, Match, Searched;
    if Trimmed(quote) {
      forall i: nat, j: nat ensures !OnlyMatch(t, quote, i, j) {
        if OnlyMatch(t, quote, i, j) { NotTheOnly(t, quote, matches, i, j); }
      }
    }
  }

  lemma NotTheOnly(t: seq<Utf16>, quote: seq<Utf16>, matches: Option<seq<Selector>>, i: nat, j: nat)
    requires Trimmed(quote) && OnlyMatch(t, quote, i, j) && Searched(t, quote, matches)
    ensures matches.Some? && |matches.value| == 1
  {
    hide Usable, WellFormed, Match, Searched;
    if matches == None {
      var k: nat, l: nat := NoneMeans(t, quote);
    } else {
      var s := matches.value;
      MatchSpans(t, quote, i, j);
      MatchIsSelected(t, quote, s, Selector(i, j - i));
      SearchAscends(t, quote, s);
      if |s| > 1 {
        SelectorMatches(t, quote, s, s[0]);
        SelectorMatches(t, quote, s, s[1]);
      }
    }
  }

  lemma NoneMeans(t: seq<Utf16>, quote: seq<Utf16>) returns (i: nat, j: nat)
    requires Searched(t, quote, None) && Trimmed(quote)
    ensures i <= j <= |t| && Match(t, quote, i, j) && !Usable(t, i, j)
  {
    hide Usable, WellFormed, Collapse;
    i, j :| Match(t, quote, i, j) && !Usable(t, i, j);
  }
}
