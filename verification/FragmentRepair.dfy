// Matching a normalized quote against a page whose text items split single words (`containsWithPdfWordFragmentRepair`).
module FragmentRepair {
  import opened Sorting
  import opened Texts

  const MIN_REPAIRED_QUOTE := 24
  const MAX_FRAGMENTS := 3

  // A lexeme is not empty.
  type Lexeme = s: Text | s != [] witness [0x78]

  function Join(fragments: seq<Lexeme>): Text {
    if fragments == [] then [] else Join(fragments[..|fragments| - 1]) + fragments[|fragments| - 1]
  }

  // Fragments that may be read as one word: two or three of them, alphabetic, one a single letter and one of at least
  // three letters.
  predicate LegalJoin(alphabetic: Text -> bool, fragments: seq<Lexeme>, word: Lexeme) {
    && 2 <= |fragments| <= 3
    && alphabetic(word) && |word| >= 4
    && Letters(alphabetic, fragments)
    && Join(fragments) == word
    && HasSingle(fragments)
    && HasLong(fragments)
  }

  predicate HasSingle(fragments: seq<Lexeme>) { exists f :: f in fragments && |f| == 1 }

  predicate HasLong(fragments: seq<Lexeme>) { exists f :: f in fragments && |f| >= 3 }

  // The next `size` lexemes of the page stand for one lexeme of the quote.
  predicate Fits(alphabetic: Text -> bool, page: seq<Lexeme>, i: nat, word: Lexeme, size: nat) {
    && i + size <= |page|
    && if size == 1 then page[i] == word else LegalJoin(alphabetic, page[i..i + size], word)
  }

  // The page decomposes the whole quote from `i` on, without skipping a lexeme.
  predicate Decomposes(alphabetic: Text -> bool, page: seq<Lexeme>, i: nat, quote: seq<Lexeme>, sizes: seq<nat>)
    decreases |quote|
  {
    if quote == [] then sizes == []
    else
      && sizes != []
      && Fits(alphabetic, page, i, quote[0], sizes[0])
      && Decomposes(alphabetic, page, i + sizes[0], quote[1..], sizes[1..])
  }

  predicate Repairs(sizes: seq<nat>) {
    exists k :: 0 <= k < |sizes| && sizes[k] > 1
  }

  ghost predicate Repairable(alphabetic: Text -> bool, page: seq<Lexeme>, quote: seq<Lexeme>) {
    exists i: nat, sizes: seq<nat> :: Decomposes(alphabetic, page, i, quote, sizes) && Repairs(sizes)
  }

  // ---- A word fits in at most one way ----

  lemma {:induction false} JoinAppend(a: seq<Lexeme>, b: seq<Lexeme>)
    ensures Join(a + b) == Join(a) + Join(b)
  {
    if b == [] {
      assert a + b == a;
    } else {
      assert (a + b)[..|a + b| - 1] == a + b[..|b| - 1];
      JoinAppend(a, b[..|b| - 1]);
    }
  }

  lemma {:induction false} JoinLength(a: seq<Lexeme>)
    ensures |Join(a)| >= |a|
  {
    if a != [] { JoinLength(a[..|a| - 1]); }
  }

  lemma FitsJoin(alphabetic: Text -> bool, page: seq<Lexeme>, i: nat, word: Lexeme, size: nat)
    requires Fits(alphabetic, page, i, word, size)
    ensures 1 <= size <= MAX_FRAGMENTS && i + size <= |page| && Join(page[i..i + size]) == word
  {
    if size == 1 {
      var one := page[i..i + 1];
      assert one == [page[i]];
      assert Join(one) == Join([]) + one[0] by { assert one[..0] == []; }
    }
  }

  lemma FitsOneWay(alphabetic: Text -> bool, page: seq<Lexeme>, i: nat, word: Lexeme, size: nat, other: nat)
    requires Fits(alphabetic, page, i, word, size) && Fits(alphabetic, page, i, word, other)
    ensures size == other
  {
    hide Fits;
    FitsJoin(alphabetic, page, i, word, size);
    FitsJoin(alphabetic, page, i, word, other);
    if size < other { LongerJoin(page, i, size, other); }
    if other < size { LongerJoin(page, i, other, size); }
  }

  lemma LongerJoin(page: seq<Lexeme>, i: nat, less: nat, more: nat)
    requires less < more && i + more <= |page|
    ensures Join(page[i..i + less]) != Join(page[i..i + more])
  {
    hide Join;
    JoinAppend(page[i..i + less], page[i + less..i + more]);
    assert page[i..i + less] + page[i + less..i + more] == page[i..i + more];
    JoinLength(page[i + less..i + more]);
  }

  // From one start there is at most one decomposition.
  lemma {:induction false} DecomposesOneWay(
      alphabetic: Text -> bool, page: seq<Lexeme>, i: nat, quote: seq<Lexeme>, sizes: seq<nat>, others: seq<nat>)
    requires Decomposes(alphabetic, page, i, quote, sizes) && Decomposes(alphabetic, page, i, quote, others)
    ensures sizes == others
    decreases |quote|
  {
    hide Fits;
    if quote != [] {
      FitsOneWay(alphabetic, page, i, quote[0], sizes[0], others[0]);
      DecomposesOneWay(alphabetic, page, i + sizes[0], quote[1..], sizes[1..], others[1..]);
      assert sizes == [sizes[0]] + sizes[1..] && others == [others[0]] + others[1..];
    }
  }

  // A decomposition uses at least one page lexeme for each lexeme of the quote.
  lemma {:induction false} DecomposesLength(
      alphabetic: Text -> bool, page: seq<Lexeme>, i: nat, quote: seq<Lexeme>, sizes: seq<nat>)
    requires Decomposes(alphabetic, page, i, quote, sizes) && i <= |page|
    ensures i + |quote| <= |page| && |sizes| == |quote|
    decreases |quote|
  {
    if quote != [] {
      FitsJoin(alphabetic, page, i, quote[0], sizes[0]);
      DecomposesLength(alphabetic, page, i + sizes[0], quote[1..], sizes[1..]);
    }
  }

  // ---- The search ----

  predicate StartsWith(word: Text, prefix: Text) {
    |prefix| <= |word| && word[..|prefix|] == prefix
  }

  predicate Letters(alphabetic: Text -> bool, fragments: seq<Lexeme>) {
    forall f :: f in fragments ==> alphabetic(f)
  }

  lemma Grow(alphabetic: Text -> bool, page: seq<Lexeme>, i: nat, n: nat)
    requires i + n < |page|
    ensures
      var before, after, last := page[i..i + n], page[i..i + n + 1], page[i + n];
      && Join(after) == Join(before) + last
      && (Letters(alphabetic, after) <==> Letters(alphabetic, before) && alphabetic(last))
      && (HasSingle(after) <==> HasSingle(before) || |last| == 1)
      && (HasLong(after) <==> HasLong(before) || |last| >= 3)
  {
    assert page[i..i + n + 1] == page[i..i + n] + [page[i + n]];
    assert page[i..i + n + 1][..n] == page[i..i + n];
    assert page[i + n] in page[i..i + n + 1];
  }

  lemma NoLetters(alphabetic: Text -> bool, page: seq<Lexeme>, i: nat, word: Lexeme, m: nat, n: nat)
    requires m < n && n > 1 && (i + m >= |page| || !alphabetic(page[i + m]))
    ensures !Fits(alphabetic, page, i, word, n)
  {
    if i + n <= |page| { assert page[i..i + n][m] == page[i + m]; }
  }

  // Reads fragments until they make up the word.
  method RepairWord(alphabetic: Text -> bool, page: seq<Lexeme>, i: nat, word: Lexeme) returns (size: Option<nat>)
    requires i <= |page|
    requires alphabetic(word) && |word| >= 4
    ensures size.Some? ==> size.value > 1 && Fits(alphabetic, page, i, word, size.value)
    ensures size == None ==> forall n: nat :: n > 1 ==> !Fits(alphabetic, page, i, word, n)
  {
    hide Join, HasSingle, HasLong, Letters, StartsWith, Fits;
    var joined := [];
    var single, long := false, false;
    var offset: nat := 0;
    NoFragments(alphabetic, page, i);
    while offset < MAX_FRAGMENTS
      invariant offset <= MAX_FRAGMENTS && i + offset <= |page|
      invariant joined == Join(page[i..i + offset])
      invariant Letters(alphabetic, page[i..i + offset])
      invariant single <==> HasSingle(page[i..i + offset])
      invariant long <==> HasLong(page[i..i + offset])
      invariant forall n: nat :: 1 < n <= offset ==> !Fits(alphabetic, page, i, word, n)
    {
      if i + offset >= |page| || !alphabetic(page[i + offset]) {
        forall n: nat | n > offset && n > 1 ensures !Fits(alphabetic, page, i, word, n) {
          NoLetters(alphabetic, page, i, word, offset, n);
        }
        return None;
      }
      Grow(alphabetic, page, i, offset);
      var fragment := page[i + offset];
      offset := offset + 1;
      joined := joined + fragment;
      single := single || |fragment| == 1;
      long := long || |fragment| >= 3;
      if !StartsWith(word, joined) {
        forall n: nat | n >= offset ensures !Fits(alphabetic, page, i, word, n) {
          NotPrefix(alphabetic, page, i, word, offset, n);
        }
        return None;
      }
      FitsLater(alphabetic, page, i, word, offset);
      if offset > 1 && joined == word && single && long {
        return Some(offset);
      }
    }
    forall n: nat | n > MAX_FRAGMENTS ensures !Fits(alphabetic, page, i, word, n) { TooMany(alphabetic, page, i, word, n); }
    size := None;
  }

  lemma NoFragments(alphabetic: Text -> bool, page: seq<Lexeme>, i: nat)
    requires i <= |page|
    ensures Join(page[i..i]) == [] && Letters(alphabetic, page[i..i]) && !HasSingle(page[i..i]) && !HasLong(page[i..i])
  {
  }

  lemma FitsLater(alphabetic: Text -> bool, page: seq<Lexeme>, i: nat, word: Lexeme, n: nat)
    requires i + n <= |page| && n <= MAX_FRAGMENTS && alphabetic(word) && |word| >= 4
    requires Letters(alphabetic, page[i..i + n])
    ensures n > 1 ==> (Fits(alphabetic, page, i, word, n) <==>
                       Join(page[i..i + n]) == word && HasSingle(page[i..i + n]) && HasLong(page[i..i + n]))
  {
  }

  lemma TooMany(alphabetic: Text -> bool, page: seq<Lexeme>, i: nat, word: Lexeme, n: nat)
    requires n > MAX_FRAGMENTS
    ensures !Fits(alphabetic, page, i, word, n)
  {
  }

  lemma NotPrefix(alphabetic: Text -> bool, page: seq<Lexeme>, i: nat, word: Lexeme, m: nat, n: nat)
    requires m <= n && i + m <= |page| && !StartsWith(word, Join(page[i..i + m]))
    ensures !Fits(alphabetic, page, i, word, n)
  {
    if i + n <= |page| {
      JoinAppend(page[i..i + m], page[i + m..i + n]);
      assert page[i..i + m] + page[i + m..i + n] == page[i..i + n];
      assert StartsWith(Join(page[i..i + n]), Join(page[i..i + m]));
      if n == 1 {
        assert page[i..i + 1] == [page[i]];
        assert Join([page[i]]) == page[i] by { assert [page[i]][..0] == []; }
      }
    }
  }

  // What follows position `i` completes what has been matched so far.
  ghost predicate Completes(
      alphabetic: Text -> bool, page: seq<Lexeme>, start: nat, quote: seq<Lexeme>, sizes: seq<nat>, k: nat, i: nat)
    requires k <= |quote|
  {
    forall s: seq<nat> :: Decomposes(alphabetic, page, i, quote[k..], s) ==> Decomposes(alphabetic, page, start, quote, sizes + s)
  }

  // Every decomposition passes through position `i` with these sizes.
  ghost predicate Forced(
      alphabetic: Text -> bool, page: seq<Lexeme>, start: nat, quote: seq<Lexeme>, sizes: seq<nat>, k: nat, i: nat)
    requires k <= |quote|
  {
    forall s: seq<nat> :: Decomposes(alphabetic, page, start, quote, s) ==>
      |s| >= k && s[..k] == sizes && Decomposes(alphabetic, page, i, quote[k..], s[k..])
  }

  lemma CompletesNext(
      alphabetic: Text -> bool, page: seq<Lexeme>, start: nat, quote: seq<Lexeme>, sizes: seq<nat>, k: nat, i: nat, size: nat)
    requires k < |quote| && Fits(alphabetic, page, i, quote[k], size)
    requires Completes(alphabetic, page, start, quote, sizes, k, i)
    ensures Completes(alphabetic, page, start, quote, sizes + [size], k + 1, i + size)
  {
    hide Fits;
    assert quote[k..][0] == quote[k] && quote[k..][1..] == quote[k + 1..];
    forall s: seq<nat> | Decomposes(alphabetic, page, i + size, quote[k + 1..], s)
      ensures Decomposes(alphabetic, page, start, quote, sizes + [size] + s)
    {
      var t := [size] + s;
      assert t[1..] == s;
      assert Decomposes(alphabetic, page, i, quote[k..], t);
      assert sizes + t == sizes + [size] + s;
    }
  }

  lemma ForcedNext(
      alphabetic: Text -> bool, page: seq<Lexeme>, start: nat, quote: seq<Lexeme>, sizes: seq<nat>, k: nat, i: nat, size: nat)
    requires k < |quote| && |sizes| == k && Fits(alphabetic, page, i, quote[k], size)
    requires Forced(alphabetic, page, start, quote, sizes, k, i)
    ensures Forced(alphabetic, page, start, quote, sizes + [size], k + 1, i + size)
  {
    hide Fits;
    assert quote[k..][0] == quote[k] && quote[k..][1..] == quote[k + 1..];
    forall s: seq<nat> | Decomposes(alphabetic, page, start, quote, s)
      ensures |s| >= k + 1 && s[..k + 1] == sizes + [size] && Decomposes(alphabetic, page, i + size, quote[k + 1..], s[k + 1..])
    {
      var t := s[k..];
      assert Decomposes(alphabetic, page, i, quote[k..], t);
      FitsOneWay(alphabetic, page, i, quote[k], size, t[0]);
      assert s[..k + 1] == s[..k] + [t[0]];
      assert t[1..] == s[k + 1..];
    }
  }

  lemma NothingFits(
      alphabetic: Text -> bool, page: seq<Lexeme>, start: nat, quote: seq<Lexeme>, sizes: seq<nat>, k: nat, i: nat, s: seq<nat>)
    requires k < |quote| && Forced(alphabetic, page, start, quote, sizes, k, i)
    requires forall n: nat :: !Fits(alphabetic, page, i, quote[k], n)
    ensures !Decomposes(alphabetic, page, start, quote, s)
  {
    hide Fits;
    assert quote[k..][0] == quote[k];
  }

  // The number of page lexemes that the next word of the quote takes.
  method FitWord(alphabetic: Text -> bool, page: seq<Lexeme>, i: nat, word: Lexeme) returns (size: Option<nat>)
    requires i <= |page|
    ensures size.Some? ==> Fits(alphabetic, page, i, word, size.value)
    ensures size == None ==> forall n: nat :: !Fits(alphabetic, page, i, word, n)
  {
    if i < |page| && page[i] == word { return Some(1); }
    if !alphabetic(word) || |word| < 4 {
      forall n: nat ensures !Fits(alphabetic, page, i, word, n) { }
      return None;
    }
    size := RepairWord(alphabetic, page, i, word);
    if size == None {
      forall n: nat ensures !Fits(alphabetic, page, i, word, n) { }
    }
  }

  // The greedy match from one start.
  method MatchFrom(alphabetic: Text -> bool, page: seq<Lexeme>, start: nat, quote: seq<Lexeme>)
    returns (found: bool, ghost sizes: seq<nat>)
    requires start <= |page|
    ensures found ==> Decomposes(alphabetic, page, start, quote, sizes) && Repairs(sizes)
    ensures !found ==> forall s :: Decomposes(alphabetic, page, start, quote, s) ==> !Repairs(s)
  {
    hide Fits, Completes, Forced, Repairs;
    var pageIndex: nat := start;
    var usedRepair := false;
    sizes := [];
    var k: nat := 0;
    MatchStart(alphabetic, page, start, quote);
    while k < |quote|
      invariant k <= |quote| && pageIndex <= |page| && |sizes| == k
      invariant usedRepair <==> Repairs(sizes)
      invariant Completes(alphabetic, page, start, quote, sizes, k, pageIndex)
      invariant Forced(alphabetic, page, start, quote, sizes, k, pageIndex)
    {
      var size := FitWord(alphabetic, page, pageIndex, quote[k]);
      if size == None {
        forall s ensures !Decomposes(alphabetic, page, start, quote, s) {
          NothingFits(alphabetic, page, start, quote, sizes, k, pageIndex, s);
        }
        found := false;
        return;
      }
      CompletesNext(alphabetic, page, start, quote, sizes, k, pageIndex, size.value);
      ForcedNext(alphabetic, page, start, quote, sizes, k, pageIndex, size.value);
      FitsJoin(alphabetic, page, pageIndex, quote[k], size.value);
      RepairsStep(sizes, size.value);
      sizes := sizes + [size.value];
      usedRepair := usedRepair || size.value > 1;
      pageIndex := pageIndex + size.value;
      k := k + 1;
    }
    MatchEnd(alphabetic, page, start, quote, sizes, pageIndex);
    found := usedRepair;
  }

  lemma MatchStart(alphabetic: Text -> bool, page: seq<Lexeme>, start: nat, quote: seq<Lexeme>)
    ensures Completes(alphabetic, page, start, quote, [], 0, start)
    ensures Forced(alphabetic, page, start, quote, [], 0, start)
    ensures !Repairs([])
  {
    hide Decomposes;
    assert quote[0..] == quote;
    forall s: seq<nat> ensures [] + s == s && s[0..] == s { }
  }

  lemma MatchEnd(alphabetic: Text -> bool, page: seq<Lexeme>, start: nat, quote: seq<Lexeme>, sizes: seq<nat>, i: nat)
    requires |sizes| == |quote|
    requires Completes(alphabetic, page, start, quote, sizes, |quote|, i)
    requires Forced(alphabetic, page, start, quote, sizes, |quote|, i)
    ensures forall s :: Decomposes(alphabetic, page, start, quote, s) <==> s == sizes
  {
    assert Decomposes(alphabetic, page, i, quote[|quote|..], []);
    assert sizes + [] == sizes;
    forall s | Decomposes(alphabetic, page, start, quote, s) ensures s == sizes {
      assert s[|quote|..] == [];
      assert s == s[..|quote|] + s[|quote|..];
    }
  }

  lemma RepairsStep(sizes: seq<nat>, size: nat)
    ensures Repairs(sizes + [size]) <==> Repairs(sizes) || size > 1
  {
    var more := sizes + [size];
    if Repairs(sizes) {
      var k :| 0 <= k < |sizes| && sizes[k] > 1;
      assert more[k] > 1;
    }
    if size > 1 { assert more[|sizes|] > 1; }
  }

  // Quotes of at least 24 units are found exactly when some window of the page decomposes the whole quote with at least
  // one legal join.
  method ContainsWithRepair(alphabetic: Text -> bool, page: seq<Lexeme>, quote: seq<Lexeme>, quoteLength: nat)
    returns (found: bool)
    ensures found <==> quoteLength >= 24 && Repairable(alphabetic, page, quote)
  {
    if quoteLength < MIN_REPAIRED_QUOTE { return false; }
    if |quote| == 0 || |quote| > |page| {
      forall i: nat, sizes: seq<nat> | Decomposes(alphabetic, page, i, quote, sizes) ensures !Repairs(sizes) {
        if quote != [] {
          FitsJoin(alphabetic, page, i, quote[0], sizes[0]);
          DecomposesLength(alphabetic, page, i, quote, sizes);
        }
      }
      return false;
    }
    var start: nat := 0;
    while start < |page|
      invariant start <= |page|
      invariant forall i: nat, sizes: seq<nat> :: i < start && Decomposes(alphabetic, page, i, quote, sizes) ==> !Repairs(sizes)
    {
      ghost var sizes;
      found, sizes := MatchFrom(alphabetic, page, start, quote);
      if found { return true; }
      start := start + 1;
    }
    forall i: nat, sizes: seq<nat> | Decomposes(alphabetic, page, i, quote, sizes) ensures i < |page| {
      FitsJoin(alphabetic, page, i, quote[0], sizes[0]);
    }
    found := false;
  }
}
