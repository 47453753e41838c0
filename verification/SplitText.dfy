// Splitting of a complete text into overlapping fragments for the model (`splitCompleteText`).
module SplitText {
  import opened Sorting
  import opened Alignment
  import opened Texts

  const FRAGMENT_UTF16 := 10_000
  const OVERLAP_UTF16 := 500
  const NEWLINE: Utf16 := 0xA

  // `value.trim() === ""`
  predicate BlankText(t: seq<Utf16>) {
    forall k :: 0 <= k < |t| ==> White(t[k])
  }

  // `value.lastIndexOf(c, from)`, or -1.
  function LastIndexOf(t: seq<Utf16>, c: Utf16, from: int): (r: int)
    requires -1 <= from < |t|
    ensures -1 <= r <= from
    ensures r >= 0 ==> t[r] == c
    ensures forall k :: r < k <= from ==> t[k] != c
    decreases from
  {
    if from == -1 then -1 else if t[from] == c then from else LastIndexOf(t, c, from - 1)
  }

  // Where the fragment that starts at `cursor` ends: after the last line break or space of its second half, if any.
  function CutEnd(t: seq<Utf16>, cursor: nat): nat
    requires cursor < |t|
  {
    var limit := cursor + FRAGMENT_UTF16;
    if limit >= |t| then |t|
    else
      var newline, space := LastIndexOf(t, NEWLINE, limit), LastIndexOf(t, SPACE, limit);
      var preferred := if newline >= space then newline else space;
      if preferred > cursor + FRAGMENT_UTF16 / 2 then preferred + 1 else limit
  }

  // The next cursor: `Math.max(cursor + 1, end - 500)`, or the end of the text.
  function NextCursor(t: seq<Utf16>, cursor: nat): nat
    requires cursor < |t|
  {
    var end := CutEnd(t, cursor);
    if end < |t| then (if cursor + 1 >= end - OVERLAP_UTF16 then cursor + 1 else end - OVERLAP_UTF16) else end
  }

  // A fragment is long but bounded, and every fragment but the last moves the cursor on by at least 4,502 units, so the
  // guard of one unit is never what moves it.
  lemma CutBounds(t: seq<Utf16>, cursor: nat)
    requires cursor < |t|
    ensures cursor < CutEnd(t, cursor) <= |t|
    ensures CutEnd(t, cursor) - cursor <= FRAGMENT_UTF16 + 1
    ensures CutEnd(t, cursor) < |t| ==>
      NextCursor(t, cursor) == CutEnd(t, cursor) - OVERLAP_UTF16 >= cursor + 4_502
    ensures CutEnd(t, cursor) == |t| ==> NextCursor(t, cursor) == |t|
  {
  }

  // A line break or a space in the second half of the fragment, after which it may be cut.
  ghost predicate BreakAt(t: seq<Utf16>, cursor: nat, p: int) {
    cursor + 5_000 < p <= cursor + 10_000 && p < |t| && t[p] in {0xA, 0x20}
  }

  // The rest of a text fits one fragment, or is cut after the last break of the second half, or else after 10,000 units.
  lemma CutExactly(t: seq<Utf16>, cursor: nat)
    requires cursor < |t|
    ensures |t| - cursor <= 10_000 ==> CutEnd(t, cursor) == |t|
    ensures |t| - cursor > 10_000 && (forall p :: !BreakAt(t, cursor, p)) ==> CutEnd(t, cursor) == cursor + 10_000
    ensures |t| - cursor > 10_000 ==>
      forall p :: BreakAt(t, cursor, p) && (forall q :: BreakAt(t, cursor, q) ==> q <= p) ==> CutEnd(t, cursor) == p + 1
    ensures CutEnd(t, cursor) < |t| ==> NextCursor(t, cursor) == CutEnd(t, cursor) - 500
  {
    var limit := cursor + FRAGMENT_UTF16;
    if limit < |t| {
      var newline, space := LastIndexOf(t, NEWLINE, limit), LastIndexOf(t, SPACE, limit);
      assert newline > cursor + 5_000 ==> BreakAt(t, cursor, newline);
      assert space > cursor + 5_000 ==> BreakAt(t, cursor, space);
    }
  }

  // The cuts from a cursor on, as pairs of start and end.
  function Cuts(t: seq<Utf16>, cursor: nat): (cuts: seq<(nat, nat)>)
    requires cursor <= |t|
    decreases |t| - cursor
  {
    if cursor == |t| then []
    else
      CutBounds(t, cursor);
      [(cursor, CutEnd(t, cursor))] + Cuts(t, NextCursor(t, cursor))
  }

  predicate Proper(t: seq<Utf16>, cut: (nat, nat)) {
    cut.0 < cut.1 <= |t| && cut.1 - cut.0 <= FRAGMENT_UTF16 + 1
  }

  predicate AllProper(t: seq<Utf16>, cuts: seq<(nat, nat)>) {
    forall k :: 0 <= k < |cuts| ==> Proper(t, cuts[k])
  }

  lemma {:induction false} CutsProper(t: seq<Utf16>, cursor: nat)
    requires cursor <= |t|
    ensures AllProper(t, Cuts(t, cursor))
    decreases |t| - cursor
  {
    if cursor < |t| {
      CutBounds(t, cursor);
      CutsProper(t, NextCursor(t, cursor));
    }
  }

  // The texts of the cuts that are not blank.
  function Fragments(t: seq<Utf16>, cuts: seq<(nat, nat)>): seq<seq<Utf16>>
    requires AllProper(t, cuts)
  {
    if cuts == [] then []
    else
      var text := t[cuts[0].0..cuts[0].1];
      (if BlankText(text) then [] else [text]) + Fragments(t, cuts[1..])
  }

  function Split(t: seq<Utf16>): seq<seq<Utf16>> {
    CutsProper(t, 0);
    Fragments(t, Cuts(t, 0))
  }

  // What is left to emit from a cursor on.
  function Rest(t: seq<Utf16>, cursor: nat): seq<seq<Utf16>>
    requires cursor <= |t|
  {
    CutsProper(t, cursor);
    Fragments(t, Cuts(t, cursor))
  }

  lemma RestStep(t: seq<Utf16>, cursor: nat)
    requires cursor < |t|
    ensures cursor < CutEnd(t, cursor) <= |t| && cursor < NextCursor(t, cursor) <= |t|
    ensures
      var text := t[cursor..CutEnd(t, cursor)];
      Rest(t, cursor) == (if BlankText(text) then [] else [text]) + Rest(t, NextCursor(t, cursor))
  {
    hide BlankText, CutEnd, Cuts, NextCursor, Fragments;
    CutBounds(t, cursor);
    CutsProper(t, cursor);
    CutsStep(t, cursor);
  }

  lemma RestEnds(t: seq<Utf16>)
    ensures Rest(t, |t|) == [] && Rest(t, 0) == Split(t)
    ensures BlankText(t) ==> Split(t) == []
  {
    hide BlankText;
    CutsEnd(t);
    CutsProper(t, 0);
    if BlankText(t) { BlankSplitsToNothing(t, Cuts(t, 0)); }
  }

  method SplitCompleteText(t: seq<Utf16>) returns (fragments: seq<seq<Utf16>>)
    ensures fragments == Split(t)
  {
    hide BlankText, CutEnd, Cuts, NextCursor, Rest, Split;
    RestEnds(t);
    if BlankText(t) { return []; }
    fragments := [];
    var cursor: nat := 0;
    while cursor < |t|
      invariant cursor <= |t|
      invariant Split(t) == fragments + Rest(t, cursor)
      decreases |t| - cursor
    {
      RestStep(t, cursor);
      var end := CutEnd(t, cursor);
      var fragment := t[cursor..end];
      if !BlankText(fragment) { fragments := fragments + [fragment]; }
      cursor := NextCursor(t, cursor);
    }
  }

  lemma CutsEnd(t: seq<Utf16>)
    ensures Cuts(t, |t|) == []
  {
  }

  lemma CutsStep(t: seq<Utf16>, cursor: nat)
    requires cursor < |t| && AllProper(t, Cuts(t, cursor))
    ensures cursor < NextCursor(t, cursor) <= |t| && AllProper(t, Cuts(t, NextCursor(t, cursor)))
    ensures
      var text := t[cursor..CutEnd(t, cursor)];
      Fragments(t, Cuts(t, cursor)) ==
        (if BlankText(text) then [] else [text]) + Fragments(t, Cuts(t, NextCursor(t, cursor)))
  {
    hide BlankText, CutEnd;
    CutBounds(t, cursor);
    var cuts := Cuts(t, cursor);
    assert cuts[0] == (cursor, CutEnd(t, cursor)) && cuts[1..] == Cuts(t, NextCursor(t, cursor));
    forall k | 0 <= k < |cuts[1..]| ensures Proper(t, cuts[1..][k]) { assert Proper(t, cuts[k + 1]); }
  }

  lemma {:induction false} BlankSplitsToNothing(t: seq<Utf16>, cuts: seq<(nat, nat)>)
    requires BlankText(t) && AllProper(t, cuts)
    ensures Fragments(t, cuts) == []
  {
    if cuts != [] {
      assert Proper(t, cuts[0]);
      BlankSplitsToNothing(t, cuts[1..]);
    }
  }

  // ---- Coverage ----

  predicate Covered(cuts: seq<(nat, nat)>, i: nat, j: nat) {
    exists k :: 0 <= k < |cuts| && cuts[k].0 <= i && j <= cuts[k].1
  }

  lemma {:induction false} CutsCover(t: seq<Utf16>, cursor: nat, i: nat, j: nat)
    requires cursor <= i < j <= |t| && j - i <= OVERLAP_UTF16 + 1
    ensures Covered(Cuts(t, cursor), i, j)
    decreases |t| - cursor
  {
    CutBounds(t, cursor);
    var cuts, next := Cuts(t, cursor), NextCursor(t, cursor);
    if j <= CutEnd(t, cursor) {
      assert cuts[0].0 <= i && j <= cuts[0].1;
    } else {
      CutsCover(t, next, i, j);
      var k :| 0 <= k < |Cuts(t, next)| && Cuts(t, next)[k].0 <= i && j <= Cuts(t, next)[k].1;
      assert cuts[k + 1] == Cuts(t, next)[k];
    }
  }

  predicate InsideAt(text: seq<Utf16>, fragment: seq<Utf16>, p: nat) {
    p + |text| <= |fragment| && fragment[p..p + |text|] == text
  }

  ghost predicate Inside(text: seq<Utf16>, fragment: seq<Utf16>) {
    exists p :: InsideAt(text, fragment, p)
  }

  lemma {:induction false} CutIsEmitted(t: seq<Utf16>, cuts: seq<(nat, nat)>, k: nat)
    requires k < |cuts| && AllProper(t, cuts)
    requires !BlankText(t[cuts[k].0..cuts[k].1])
    ensures t[cuts[k].0..cuts[k].1] in Fragments(t, cuts)
  {
    if k > 0 {
      CutIsEmitted(t, cuts[1..], k - 1);
    }
  }

  lemma WithinCut(t: seq<Utf16>, cut: (nat, nat), i: nat, j: nat)
    requires Proper(t, cut) && cut.0 <= i < j <= cut.1 && !BlankText(t[i..j])
    ensures !BlankText(t[cut.0..cut.1]) && Inside(t[i..j], t[cut.0..cut.1])
  {
    hide White;
    var f, p := t[cut.0..cut.1], i - cut.0;
    SliceOfSlice(t, cut.0, cut.1, p, p + (j - i));
    assert f[p..p + (j - i)] == t[i..j];
    assert InsideAt(t[i..j], f, p);
    var q :| 0 <= q < |t[i..j]| && !White(t[i..j][q]);
    assert f[p + q] == t[i..j][q];
  }

  // Every quote of at most 500 units (one more, in fact) that is not blank lies whole in an emitted fragment.
  lemma QuoteIsSelectable(t: seq<Utf16>, i: nat, j: nat)
    requires i < j <= |t| && j - i <= OVERLAP_UTF16 + 1 && !BlankText(t[i..j])
    ensures exists f :: f in Split(t) && Inside(t[i..j], f)
  {
    CutsProper(t, 0);
    CutsCover(t, 0, i, j);
    var cuts := Cuts(t, 0);
    var k :| 0 <= k < |cuts| && cuts[k].0 <= i && j <= cuts[k].1;
    assert Proper(t, cuts[k]);
    WithinCut(t, cuts[k], i, j);
    CutIsEmitted(t, cuts, k);
  }

  // Fragments are never longer than 10,001 units, and never blank.
  lemma {:induction false} FragmentBounds(t: seq<Utf16>, cuts: seq<(nat, nat)>)
    requires AllProper(t, cuts)
    ensures forall f :: f in Fragments(t, cuts) ==> |f| <= FRAGMENT_UTF16 + 1 && !BlankText(f) && Inside(f, t)
  {
    if cuts != [] {
      assert Proper(t, cuts[0]);
      var text := t[cuts[0].0..cuts[0].1];
      assert InsideAt(text, t, cuts[0].0);
      FragmentBounds(t, cuts[1..]);
    }
  }

  predicate KeepsWhole(t: seq<Utf16>, i: nat, size: nat) {
    i + size <= |t| ==> Covered(Cuts(t, 0), i, i + size)
  }

  // The overlap of 500 units keeps spans of up to 501 units whole, and no longer ones.
  lemma OverlapIsExact(size: nat)
    requires size > 0
    ensures (forall t: seq<Utf16>, i: nat :: KeepsWhole(t, i, size)) <==> size <= OVERLAP_UTF16 + 1
  {
    if size <= OVERLAP_UTF16 + 1 {
      forall t: seq<Utf16>, i: nat ensures KeepsWhole(t, i, size) {
        if i + size <= |t| { CutsCover(t, 0, i, i + size); }
      }
    } else {
      var letter: Utf16 := 0x61;
      var t: seq<Utf16> := seq(9_499 + size, k => letter);
      assert CutEnd(t, 0) == FRAGMENT_UTF16;
      CutsStartLater(t, NextCursor(t, 0));
      assert Cuts(t, 0) == [(0, FRAGMENT_UTF16)] + Cuts(t, 9_500);
      assert !Covered(Cuts(t, 0), 9_499, 9_499 + size);
      assert !KeepsWhole(t, 9_499, size);
    }
  }

  lemma {:induction false} CutsStartLater(t: seq<Utf16>, cursor: nat)
    requires cursor <= |t|
    ensures forall k :: 0 <= k < |Cuts(t, cursor)| ==> Cuts(t, cursor)[k].0 >= cursor
    decreases |t| - cursor
  {
    if cursor < |t| {
      CutBounds(t, cursor);
      CutsStartLater(t, NextCursor(t, cursor));
    }
  }

  // ---- The whole answer ----

  // The fragment that starts at `from` ends at `to`: at the end of the text, after the last break of its second half, or
  // after 10,000 units.
  ghost predicate EndsAt(t: seq<Utf16>, from: nat, to: nat) {
    if |t| - from <= 10_000 then to == |t|
    else if exists p :: BreakAt(t, from, p) then BreakAt(t, from, to - 1) && forall q :: BreakAt(t, from, q) ==> q < to
    else to == from + 10_000
  }

  // From the given cursor to the end of the text, each cut starting 500 units before the end of the one before.
  ghost predicate ChainFrom(t: seq<Utf16>, cursor: int, cuts: seq<(nat, nat)>)
    decreases |cuts|
  {
    if cuts == [] then cursor == |t|
    else
      var from, to := cuts[0].0, cuts[0].1;
      && cursor == from < |t| && EndsAt(t, from, to)
      && ChainFrom(t, if to < |t| then to - 500 else |t|, cuts[1..])
  }

  ghost predicate Printed(f: seq<Utf16>) {
    exists k :: 0 <= k < |f| && !White(f[k])
  }

  ghost function TextsOf(t: seq<Utf16>, cuts: seq<(nat, nat)>): seq<seq<Utf16>>
    requires AllProper(t, cuts)
  {
    seq(|cuts|, k requires 0 <= k < |cuts| => (assert Proper(t, cuts[k]); t[cuts[k].0..cuts[k].1]))
  }

  lemma LastBreak(t: seq<Utf16>, cursor: nat) returns (p: int)
    requires |t| - cursor > 10_000 && exists p :: BreakAt(t, cursor, p)
    ensures BreakAt(t, cursor, p) && forall q :: BreakAt(t, cursor, q) ==> q <= p
  {
    var limit := cursor + FRAGMENT_UTF16;
    var newline, space := LastIndexOf(t, NEWLINE, limit), LastIndexOf(t, SPACE, limit);
    p := if newline >= space then newline else space;
    forall q | BreakAt(t, cursor, q) ensures q <= p { }
    var q :| BreakAt(t, cursor, q);
  }

  lemma CutEndsAt(t: seq<Utf16>, cursor: nat)
    requires cursor < |t|
    ensures EndsAt(t, cursor, CutEnd(t, cursor))
  {
    hide CutEnd, BreakAt;
    CutExactly(t, cursor);
    if |t| - cursor > 10_000 && exists p :: BreakAt(t, cursor, p) {
      var p := LastBreak(t, cursor);
    }
  }

  lemma {:induction false} CutsChain(t: seq<Utf16>, cursor: nat)
    requires cursor <= |t|
    ensures ChainFrom(t, cursor, Cuts(t, cursor))
    decreases |t| - cursor
  {
    hide EndsAt, CutEnd;
    if cursor < |t| {
      CutBounds(t, cursor);
      CutEndsAt(t, cursor);
      CutsChain(t, NextCursor(t, cursor));
    }
  }

  lemma {:induction false} FragmentsAreTexts(t: seq<Utf16>, cuts: seq<(nat, nat)>)
    requires AllProper(t, cuts)
    ensures Fragments(t, cuts) == Filter(TextsOf(t, cuts), (f: seq<Utf16>) => Printed(f))
  {
    hide White;
    if cuts != [] {
      assert Proper(t, cuts[0]);
      FragmentsAreTexts(t, cuts[1..]);
      assert TextsOf(t, cuts)[1..] == TextsOf(t, cuts[1..]);
      assert TextsOf(t, cuts)[0] == t[cuts[0].0..cuts[0].1];
    }
  }

  // A text is split along a chain of cuts that overlap by 500 units; the fragments are the texts of these cuts, in order,
  // without those that hold nothing but white space.
  lemma SplitExactly(t: seq<Utf16>)
    ensures AllProper(t, Cuts(t, 0)) && ChainFrom(t, 0, Cuts(t, 0))
    ensures Split(t) == Filter(TextsOf(t, Cuts(t, 0)), (f: seq<Utf16>) => Printed(f))
  {
    hide Cuts, Fragments, TextsOf, ChainFrom;
    CutsProper(t, 0);
    CutsChain(t, 0);
    FragmentsAreTexts(t, Cuts(t, 0));
  }

  // There is one such chain only, so it determines the cuts.
  lemma {:induction false} OneChain(t: seq<Utf16>, cursor: nat, cuts: seq<(nat, nat)>)
    requires cursor <= |t| && ChainFrom(t, cursor, cuts)
    ensures cuts == Cuts(t, cursor)
    decreases |t| - cursor
  {
    hide CutEnd, EndsAt, NextCursor;
    if cursor < |t| {
      CutBounds(t, cursor);
      CutEndsAt(t, cursor);
      OneEnd(t, cursor, cuts[0].1, CutEnd(t, cursor));
      OneChain(t, NextCursor(t, cursor), cuts[1..]);
    }
  }

  lemma OneEnd(t: seq<Utf16>, from: nat, a: nat, b: nat)
    requires EndsAt(t, from, a) && EndsAt(t, from, b)
    ensures a == b
  {
  }
}
