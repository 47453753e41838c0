// Serialized JSON values can be told apart inside a longer text: none is a proper prefix of another, apart from numbers,
// which end at a delimiter.
module JsonPrefix {
  import opened Alignment
  import opened Texts
  import opened StableJson

  predicate Delimiter(u: Utf16) {
    u == COMMA || u == RIGHT_BRACKET || u == RIGHT_BRACE
  }

  predicate Delimited(s: Text) {
    s == [] || Delimiter(s[0])
  }

  // Two texts never continue each other: what follows them starts at the same place.
  ghost predicate Splits(x: Text, y: Text) {
    forall s: Text, t: Text :: Delimited(s) && Delimited(t) && Same(x, s, y, t) ==> x == y && s == t
  }

  predicate Same(x: Text, s: Text, y: Text, t: Text) { x + s == y + t }

  lemma SplitHere(x: Text, s: Text, y: Text, t: Text)
    requires Splits(x, y) && Delimited(s) && Delimited(t) && x + s == y + t
    ensures x == y && s == t
  {
    assert Same(x, s, y, t);
  }

  lemma SamePrefix(x: Text, s: Text, t: Text)
    requires x + s == x + t
    ensures s == t
  {
    assert s == (x + s)[|x|..];
    assert t == (x + t)[|x|..];
  }

  // ---- Strings ----

  lemma HexInjective(m: nat, n: nat)
    requires m < 16 && n < 16 && HexDigit(m) == HexDigit(n)
    ensures m == n
  {
  }

  lemma UnicodeInjective(u: Utf16, v: Utf16)
    requires UnicodeEscape(u) == UnicodeEscape(v)
    ensures u == v
  {
    var a, b := UnicodeEscape(u), UnicodeEscape(v);
    assert a[2] == b[2] && a[3] == b[3] && a[4] == b[4] && a[5] == b[5];
    HexInjective(u / 16 / 16 / 16, v / 16 / 16 / 16);
    HexInjective(u / 16 / 16 % 16, v / 16 / 16 % 16);
    HexInjective(u / 16 % 16, v / 16 % 16);
    HexInjective(u % 16, v % 16);
  }

  lemma ShortInjective(u: Utf16, v: Utf16)
    requires ShortEscape(u) == ShortEscape(v) != 0
    ensures u == v
  {
  }

  // The form of an escape, decided by its first units.
  lemma EscapeForm(s: Text, i: nat)
    requires i < |s|
    ensures
      var e := Escape(s, i);
      || (Width(s, i) == 2 && e == s[i..i + 2] && High(s[i]) && Low(s[i + 1]))
      || (e == [BACKSLASH, ShortEscape(s[i])] && Width(s, i) == 1 && ShortEscape(s[i]) !in {0, 0x75})
      || (e == UnicodeEscape(s[i]) && Width(s, i) == 1)
      || (e == [s[i]] && Width(s, i) == 1 && s[i] != QUOTE && s[i] != BACKSLASH && !High(s[i]))
    ensures Escape(s, i) != [] && Escape(s, i)[0] != QUOTE
  {
  }

  // Escapes can be told apart without looking behind them.
  lemma EscapeSplits(s: Text, i: nat, more: Text, t: Text, j: nat, rest: Text)
    requires i < |s| && j < |t| && Escape(s, i) + more == Escape(t, j) + rest
    ensures Escape(s, i) == Escape(t, j) && more == rest
    ensures Width(s, i) == Width(t, j) && s[i..i + Width(s, i)] == t[j..j + Width(t, j)]
  {
    EscapeForm(s, i);
    EscapeForm(t, j);
    var a, b := Escape(s, i), Escape(t, j);
    assert a[0] == (a + more)[0] && b[0] == (b + rest)[0];
    assert |a| > 1 ==> a[1] == (a + more)[1];
    assert |b| > 1 ==> b[1] == (b + rest)[1];
    assert |a| == |b|;
    assert a == (a + more)[..|a|] && b == (b + rest)[..|b|];
    assert a == b;
    SamePrefix(a, more, rest);
    if a == UnicodeEscape(s[i]) && b == UnicodeEscape(t[j]) && Width(s, i) == 1 {
      UnicodeInjective(s[i], t[j]);
    } else if Width(s, i) == 1 && a == [BACKSLASH, ShortEscape(s[i])] && |a| == 2 {
      ShortInjective(s[i], t[j]);
    }
  }

  lemma {:induction false} EscapedSplits(s: Text, i: nat, more: Text, t: Text, j: nat, rest: Text)
    requires i <= |s| && j <= |t|
    requires EscapeFrom(s, i) + [QUOTE] + more == EscapeFrom(t, j) + [QUOTE] + rest
    ensures s[i..] == t[j..] && more == rest
    decreases |s| - i
  {
    hide Escape;
    var left, right := EscapeFrom(s, i) + [QUOTE] + more, EscapeFrom(t, j) + [QUOTE] + rest;
    if i == |s| || j == |t| {
      EndTogether(s, i, more, t, j, rest);
    } else {
      var k, l := i + Width(s, i), j + Width(t, j);
      assert left == Escape(s, i) + (EscapeFrom(s, k) + [QUOTE] + more);
      assert right == Escape(t, j) + (EscapeFrom(t, l) + [QUOTE] + rest);
      EscapeSplits(s, i, EscapeFrom(s, k) + [QUOTE] + more, t, j, EscapeFrom(t, l) + [QUOTE] + rest);
      EscapedSplits(s, k, more, t, l, rest);
      assert s[i..] == s[i..k] + s[k..] && t[j..] == t[j..l] + t[l..];
    }
  }

  lemma FirstEscaped(s: Text, i: nat, more: Text)
    requires i <= |s|
    ensures (EscapeFrom(s, i) + [QUOTE] + more)[0] == QUOTE <==> i == |s|
  {
    if i < |s| { EscapeForm(s, i); }
  }

  lemma EndTogether(s: Text, i: nat, more: Text, t: Text, j: nat, rest: Text)
    requires i <= |s| && j <= |t| && (i == |s| || j == |t|)
    requires EscapeFrom(s, i) + [QUOTE] + more == EscapeFrom(t, j) + [QUOTE] + rest
    ensures i == |s| && j == |t| && more == rest
  {
    FirstEscaped(s, i, more);
    FirstEscaped(t, j, rest);
    assert [] + [QUOTE] + more == [QUOTE] + more;
    SamePrefix([QUOTE], more, rest);
  }

  // A quoted string ends at its closing quote, and names one string.
  lemma QuotedSplits(s: Text, more: Text, t: Text, rest: Text)
    requires Quoted(s) + more == Quoted(t) + rest
    ensures s == t && more == rest
  {
    hide EscapeFrom;
    assert Quoted(s) + more == [QUOTE] + (EscapeFrom(s, 0) + [QUOTE] + more);
    assert Quoted(t) + rest == [QUOTE] + (EscapeFrom(t, 0) + [QUOTE] + rest);
    SamePrefix([QUOTE], EscapeFrom(s, 0) + [QUOTE] + more, EscapeFrom(t, 0) + [QUOTE] + rest);
    EscapedSplits(s, 0, more, t, 0, rest);
    assert s[0..] == s && t[0..] == t;
  }

  // ---- Numbers ----

  function NumeralRun(t: Text): nat {
    if t == [] || !Numeral(t[0]) then 0 else 1 + NumeralRun(t[1..])
  }

  lemma {:induction false} NumberEnds(x: Text, s: Text)
    requires Delimited(s) && forall k :: 0 <= k < |x| ==> Numeral(x[k])
    ensures NumeralRun(x + s) == |x|
  {
    if x == [] {
      assert x + s == s;
    } else {
      assert (x + s)[1..] == x[1..] + s;
      NumberEnds(x[1..], s);
    }
  }

  lemma NumbersSplit(x: Text, y: Text)
    requires NumberText(x) && NumberText(y)
    ensures Splits(x, y)
  {
    forall s: Text, t: Text | Delimited(s) && Delimited(t) && Same(x, s, y, t) ensures x == y && s == t {
      NumberEnds(x, s);
      NumberEnds(y, t);
      assert x == (x + s)[..|x|] && y == (y + t)[..|y|];
      SamePrefix(x, s, t);
    }
  }

  // ---- Lists ----

  ghost predicate AllSplit(a: seq<Text>, b: seq<Text>) {
    forall i, j :: 0 <= i < |a| && 0 <= j < |b| ==> Splits(a[i], b[j])
  }

  ghost predicate Started(a: seq<Text>) {
    forall i :: 0 <= i < |a| ==> a[i] != [] && !Delimiter(a[i][0])
  }

  // What follows the first part of a joined list that is closed by `c`.
  function After(a: seq<Text>, c: Utf16, s: Text): Text
    requires a != []
  {
    if |a| == 1 then [c] + s else [COMMA] + (JoinComma(a[1..]) + [c] + s)
  }

  lemma JoinedHead(a: seq<Text>, c: Utf16, s: Text)
    requires a != []
    ensures JoinComma(a) + [c] + s == a[0] + After(a, c, s)
  {
    if |a| > 1 {
      assert JoinComma(a) + [c] + s == a[0] + [COMMA] + JoinComma(a[1..]) + [c] + s;
      assert a[0] + [COMMA] + JoinComma(a[1..]) + [c] + s == a[0] + ([COMMA] + (JoinComma(a[1..]) + [c] + s));
    }
  }

  // Two closed lists with the same text have the same parts.
  lemma {:induction false} JoinedSplits(a: seq<Text>, s: Text, b: seq<Text>, t: Text, c: Utf16)
    requires c == RIGHT_BRACKET || c == RIGHT_BRACE
    requires AllSplit(a, b) && Started(a) && Started(b)
    requires JoinComma(a) + [c] + s == JoinComma(b) + [c] + t
    ensures a == b && s == t
  {
    hide Splits;
    if a == [] || b == [] {
      ClosedTogether(a, s, b, t, c);
    } else {
      HeadSplits(a, s, b, t, c);
      if |a| == 1 || |b| == 1 {
        assert After(a, c, s)[0] == After(b, c, t)[0];
        SamePrefix([c], s, t);
      } else {
        SamePrefix([COMMA], JoinComma(a[1..]) + [c] + s, JoinComma(b[1..]) + [c] + t);
        TailsSplit(a, b);
        JoinedSplits(a[1..], s, b[1..], t, c);
      }
      assert a == [a[0]] + a[1..] && b == [b[0]] + b[1..];
    }
  }

  lemma HeadSplits(a: seq<Text>, s: Text, b: seq<Text>, t: Text, c: Utf16)
    requires a != [] && b != [] && (c == RIGHT_BRACKET || c == RIGHT_BRACE)
    requires AllSplit(a, b) && JoinComma(a) + [c] + s == JoinComma(b) + [c] + t
    ensures a[0] == b[0] && After(a, c, s) == After(b, c, t)
  {
    hide Splits, JoinComma;
    JoinedHead(a, c, s);
    JoinedHead(b, c, t);
    assert Splits(a[0], b[0]);
    SplitHere(a[0], After(a, c, s), b[0], After(b, c, t));
  }

  lemma TailsSplit(a: seq<Text>, b: seq<Text>)
    requires a != [] && b != [] && AllSplit(a, b) && Started(a) && Started(b)
    ensures AllSplit(a[1..], b[1..]) && Started(a[1..]) && Started(b[1..])
  {
    hide Splits;
    assert forall i, j :: 0 <= i < |a[1..]| && 0 <= j < |b[1..]| ==> Splits(a[1..][i], b[1..][j]);
  }

  lemma FirstJoined(a: seq<Text>, s: Text, c: Utf16)
    requires Delimiter(c) && Started(a)
    ensures Delimiter((JoinComma(a) + [c] + s)[0]) <==> a == []
  {
    if a != [] {
      JoinedHead(a, c, s);
      assert (a[0] + After(a, c, s))[0] == a[0][0];
    }
  }

  lemma ClosedTogether(a: seq<Text>, s: Text, b: seq<Text>, t: Text, c: Utf16)
    requires Delimiter(c) && Started(a) && Started(b) && (a == [] || b == [])
    requires JoinComma(a) + [c] + s == JoinComma(b) + [c] + t
    ensures a == [] && b == [] && s == t
  {
    FirstJoined(a, s, c);
    FirstJoined(b, t, c);
    assert JoinComma([]) + [c] + s == [c] + s && JoinComma([]) + [c] + t == [c] + t;
    SamePrefix([c], s, t);
  }

  // ---- Object entries ----

  lemma EntriesSplit(d: (Text, Text), e: (Text, Text))
    requires Splits(d.1, e.1)
    ensures Splits(Entry(d), Entry(e))
    ensures Entry(d) == Entry(e) ==> d == e
  {
    hide Splits, Quoted;
    forall s: Text, t: Text | Delimited(s) && Delimited(t) && Same(Entry(d), s, Entry(e), t)
      ensures d == e && s == t
    {
      EntryHere(d, s, e, t);
    }
    if Entry(d) == Entry(e) {
      assert Entry(d) + [] == Entry(e) + [];
      EntryHere(d, [], e, []);
    }
    SplitsByHere(Entry(d), Entry(e));
  }

  lemma SplitsByHere(x: Text, y: Text)
    requires forall s: Text, t: Text :: Delimited(s) && Delimited(t) && Same(x, s, y, t) ==> x == y && s == t
    ensures Splits(x, y)
  {
  }

  lemma EntryHere(d: (Text, Text), s: Text, e: (Text, Text), t: Text)
    requires Splits(d.1, e.1) && Delimited(s) && Delimited(t)
    requires Entry(d) + s == Entry(e) + t
    ensures d == e && s == t
  {
    hide Splits, Quoted;
    assert Entry(d) + s == Quoted(d.0) + ([COLON] + (d.1 + s));
    assert Entry(e) + t == Quoted(e.0) + ([COLON] + (e.1 + t));
    QuotedSplits(d.0, [COLON] + (d.1 + s), e.0, [COLON] + (e.1 + t));
    SamePrefix([COLON], d.1 + s, e.1 + t);
    SplitHere(d.1, s, e.1, t);
  }
}
