// Finding the places of a page that align to a selected text (`everyMatch` and the page loop of `resolveSemanticSpan`).
module SpanMatching {
  import opened Sorting
  import opened Alignment
  import opened Texts
  import opened AlignmentLocality

  const MAX_QUOTE_UTF16 := 500

  predicate Occurs(value: seq<Utf16>, needle: seq<Utf16>, m: nat) {
    m + |needle| <= |value| && value[m..m + |needle|] == needle
  }

  // `value.indexOf(needle, cursor)`
  method IndexOf(value: seq<Utf16>, needle: seq<Utf16>, cursor: nat) returns (m: Option<nat>)
    ensures m.Some? ==> cursor <= m.value && Occurs(value, needle, m.value)
    ensures m.Some? ==> forall k :: cursor <= k < m.value ==> !Occurs(value, needle, k)
    ensures m == None ==> forall k :: cursor <= k ==> !Occurs(value, needle, k)
  {
    var k := cursor;
    while k + |needle| <= |value|
      invariant k >= cursor
      invariant forall l :: cursor <= l < k ==> !Occurs(value, needle, l)
      decreases |value| - k
    {
      if value[k..k + |needle|] == needle { return Some(k); }
      k := k + 1;
    }
    m := None;
  }

  ghost predicate Increasing(s: seq<nat>) {
    forall i, j :: 0 <= i < j < |s| ==> s[i] < s[j]
  }

  // All occurrences of a needle that is not empty, overlapping ones included.
  method EveryMatch(value: seq<Utf16>, needle: seq<Utf16>) returns (matches: seq<nat>)
    ensures Increasing(matches)
    ensures forall m: nat :: m in matches <==> needle != [] && Occurs(value, needle, m)
  {
    matches := [];
    if needle == [] { return; }
    var cursor: nat := 0;
    while cursor + |needle| <= |value|
      invariant Increasing(matches)
      invariant forall m: nat :: m in matches <==> m < cursor && Occurs(value, needle, m)
      decreases |value| - cursor
    {
      var m := IndexOf(value, needle, cursor);
      if m == None { break; }
      forall i | 0 <= i < |matches| ensures matches[i] < m.value { assert matches[i] in matches; }
      matches := matches + [m.value];
      cursor := m.value + 1;
    }
  }

  // A place of the page that stands for the selected text: no end splits a glyph, and the slice is at most 500 units.
  predicate Place(units: seq<Unit>, selected: seq<Utf16>, m: nat) {
    && selected != []
    && Occurs(Values(units), selected, m)
    && Guarded(units, m, m + |selected| - 1)
    && units[m + |selected| - 1].rawEnd - units[m].rawStart <= MAX_QUOTE_UTF16
  }

  // The candidates of one page are exactly its places: the test that re-normalizes each slice changes nothing.
  method PageCandidates(page: seq<Utf16>, selected: seq<Utf16>) returns (places: seq<nat>)
    requires selected != [] ==> selected[0] != SPACE && selected[|selected| - 1] != SPACE
    ensures Increasing(places)
    ensures forall m: nat :: m in places <==> Place(Align(page, {}), selected, m)
  {
    hide Align, Increasing, Guarded;
    var units := AlignmentUnits(page, {});
    var matches := EveryMatch(Values(units), selected);
    places := [];
    for i := 0 to |matches|
      invariant IncreasingPart(places, matches[..i])
      invariant forall m: nat :: m in places <==> m in matches[..i] && Place(units, selected, m)
    {
      var m := matches[i];
      assert m in matches;
      var last := m + |selected| - 1;
      EndsMatch(units, selected, m);
      LocalAlignment(page, m, last);
      ExtendPart(places, matches, i);
      if Guarded(units, m, last) {
        var slice := page[units[m].rawStart..units[last].rawEnd];
        var normalized := AlignmentUnits(slice, {});
        if slice != [] && |slice| <= MAX_QUOTE_UTF16 && Values(normalized) == selected {
          places := places + [m];
        }
      }
    }
    assert matches[..|matches|] == matches;
    PartIncreasing(places, matches);
  }

  lemma EndsMatch(units: seq<Unit>, selected: seq<Utf16>, m: nat)
    requires selected != [] && Occurs(Values(units), selected, m)
    ensures m + |selected| <= |units|
    ensures units[m].value == selected[0] && units[m + |selected| - 1].value == selected[|selected| - 1]
    ensures Values(units[m..m + |selected|]) == selected
  {
    assert Values(units)[m..m + |selected|][0] == Values(units)[m];
    assert Values(units)[m..m + |selected|][|selected| - 1] == Values(units)[m + |selected| - 1];
    assert Values(units[m..m + |selected|]) == Values(units)[m..m + |selected|];
  }

  // The chosen places keep the order of the matches.
  ghost predicate IncreasingPart(places: seq<nat>, matches: seq<nat>) {
    Increasing(matches) ==> Increasing(places) && forall p :: p in places ==> p in matches
  }

  lemma ExtendPart(places: seq<nat>, matches: seq<nat>, i: nat)
    requires i < |matches| && IncreasingPart(places, matches[..i])
    ensures IncreasingPart(places, matches[..i + 1]) && IncreasingPart(places + [matches[i]], matches[..i + 1])
  {
    var next := matches[..i + 1];
    assert next == matches[..i] + [matches[i]];
    if Increasing(next) {
      forall k, l | 0 <= k < l < i ensures matches[..i][k] < matches[..i][l] { assert next[k] < next[l]; }
      forall k | 0 <= k < |places| ensures places[k] < matches[i] {
        assert places[k] in matches[..i];
        var j :| 0 <= j < i && matches[..i][j] == places[k];
        assert next[j] < next[i];
      }
    }
  }

  lemma PartIncreasing(places: seq<nat>, matches: seq<nat>)
    requires Increasing(matches) && IncreasingPart(places, matches)
    ensures Increasing(places)
  {
  }
}
