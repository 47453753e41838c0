// Alignment is local: the raw slice between two matched units aligns to exactly those units, unless an end splits the
// expansion of a glyph.
module AlignmentLocality {
  import opened Sorting
  import opened Alignment
  import opened Texts

  // `j` is reached from `i` by stepping over whole code points.
  ghost predicate Reaches(t: seq<Utf16>, i: nat, j: nat)
    decreases j - i
  {
    i == j || (i < j && i < |t| && Reaches(t, i + Width(t, i), j))
  }

  lemma {:induction false} ReachesBound(t: seq<Utf16>, i: nat, j: nat)
    requires i <= |t| && Reaches(t, i, j)
    ensures i <= j <= |t|
    decreases j - i
  {
    if i != j { ReachesBound(t, i + Width(t, i), j); }
  }

  lemma {:induction false} ReachesNext(t: seq<Utf16>, i: nat, j: nat)
    requires Reaches(t, i, j) && j < |t|
    ensures Reaches(t, i, j + Width(t, j))
    decreases j - i
  {
    if i != j { ReachesNext(t, i + Width(t, i), j); }
  }

  lemma {:induction false} ReachesEnd(t: seq<Utf16>, i: nat)
    requires i <= |t|
    ensures Reaches(t, i, |t|)
    decreases |t| - i
  {
    if i != |t| { ReachesEnd(t, i + Width(t, i)); }
  }

  lemma {:induction false} ReachesSuffix(t: seq<Utf16>, i: nat, j: nat, k: nat)
    requires Reaches(t, i, j) && Reaches(t, i, k) && j <= k
    ensures Reaches(t, j, k)
    decreases j - i
  {
    if i != j { ReachesSuffix(t, i + Width(t, i), j, k); }
  }

  // ---- Scanning in parts ----

  lemma {:induction false} ScanSplit(t: seq<Utf16>, ignored: set<nat>, i: nat, j: nat, k: nat, units: seq<Unit>)
    requires Reaches(t, i, j) && j <= k <= |t|
    ensures Scan(t, ignored, i, k, units) == Scan(t, ignored, j, k, Scan(t, ignored, i, j, units))
    decreases j - i
  {
    hide GlyphShape, Add;
    if i != j {
      ScanSplit(t, ignored, i + Width(t, i), j, k, Add(units, GlyphShape(t, ignored, i), i, i + Width(t, i)));
    }
  }

  predicate Separate(p: seq<Unit>, q: seq<Unit>) {
    q != [] || !EndsBlank(p)
  }

  lemma AddFrame(p: seq<Unit>, q: seq<Unit>, shape: Shape, start: int, end: int)
    requires Separate(p, q)
    ensures Add(p + q, shape, start, end) == p + Add(q, shape, start, end)
    ensures q != [] ==> Add(q, shape, start, end) != []
  {
    if q == [] { assert p + q == p; }
  }

  // Units that cannot grow any more are not touched by the scan.
  lemma {:induction false} ScanFrame(t: seq<Utf16>, ignored: set<nat>, i: nat, j: nat, p: seq<Unit>, q: seq<Unit>)
    requires Separate(p, q) && j <= |t|
    ensures Scan(t, ignored, i, j, p + q) == p + Scan(t, ignored, i, j, q)
    decreases j - i
  {
    hide GlyphShape, Add, Width;
    if i < j {
      var shape, end := GlyphShape(t, ignored, i), i + Width(t, i);
      AddFrame(p, q, shape, i, end);
      ScanFrame(t, ignored, end, j, p, Add(q, shape, i, end));
    }
  }

  // ---- Where units lie ----

  ghost predicate Within(units: seq<Unit>, lo: int, hi: int) {
    forall u :: u in units ==> lo <= u.rawStart < u.rawEnd <= hi
  }

  // Two units are in order, or come from the same printed glyph.
  predicate InOrder(u: Unit, v: Unit) {
    u.rawEnd <= v.rawStart || (SameOrigin(u, v) && u.value != SPACE && v.value != SPACE)
  }

  predicate SameOrigin(u: Unit, v: Unit) {
    u.rawStart == v.rawStart && u.rawEnd == v.rawEnd
  }

  ghost predicate Monotone(units: seq<Unit>) {
    forall i, j :: 0 <= i < j < |units| ==> InOrder(units[i], units[j])
  }

  lemma {:induction false} ScanWithin(t: seq<Utf16>, ignored: set<nat>, i: nat, j: nat, units: seq<Unit>, lo: int)
    requires Reaches(t, i, j) && j <= |t| && lo <= i && Within(units, lo, i)
    ensures Within(Scan(t, ignored, i, j, units), lo, j)
    decreases j - i
  {
    hide GlyphShape;
    if i != j {
      ReachesBound(t, i + Width(t, i), j);
      var more := Add(units, GlyphShape(t, ignored, i), i, i + Width(t, i));
      ScanWithin(t, ignored, i + Width(t, i), j, more, lo);
    }
  }

  lemma AddMonotone(units: seq<Unit>, shape: Shape, start: int, end: int)
    requires start < end && Within(units, 0, start) && Monotone(units)
    requires shape.Printed? ==> forall v :: v in shape.values ==> v != SPACE
    ensures Monotone(Add(units, shape, start, end))
  {
    var more := Add(units, shape, start, end);
    forall k, l | 0 <= k < l < |more| ensures InOrder(more[k], more[l]) {
      if l < |units| {
        assert InOrder(units[k], units[l]);
      } else if k < |units| {
        assert units[k] in units;
      } else if shape.Printed? {
        assert shape.values[k - |units|] in shape.values && shape.values[l - |units|] in shape.values;
      }
    }
  }

  lemma {:induction false} ScanMonotone(t: seq<Utf16>, ignored: set<nat>, i: nat, j: nat, units: seq<Unit>)
    requires Reaches(t, i, j) && j <= |t| && Within(units, 0, i) && Monotone(units)
    ensures Monotone(Scan(t, ignored, i, j, units))
    decreases j - i
  {
    hide GlyphShape;
    if i != j {
      ReachesBound(t, i + Width(t, i), j);
      var more := Add(units, GlyphShape(t, ignored, i), i, i + Width(t, i));
      AddMonotone(units, GlyphShape(t, ignored, i), i, i + Width(t, i));
      ScanMonotone(t, ignored, i + Width(t, i), j, more);
    }
  }

  lemma {:induction false} TrimStartSlice(units: seq<Unit>) returns (l: nat)
    ensures l <= |units| && TrimStart(units) == units[l..]
    ensures forall k :: 0 <= k < l ==> units[k].value == SPACE
    ensures units[l..] == [] || units[l].value != SPACE
  {
    if units != [] && units[0].value == SPACE {
      l := TrimStartSlice(units[1..]);
      assert units[1..][l..] == units[l + 1..];
      assert forall k :: 0 <= k < l ==> units[1..][k] == units[k + 1];
      l := l + 1;
    } else {
      l := 0;
    }
  }

  lemma {:induction false} TrimEndSlice(units: seq<Unit>) returns (r: nat)
    ensures r <= |units| && TrimEnd(units) == units[..r]
    ensures r > 0 ==> units[r - 1].value != SPACE
    ensures forall k :: r <= k < |units| ==> units[k].value == SPACE
  {
    if EndsBlank(units) {
      r := TrimEndSlice(units[..|units| - 1]);
      assert units[..|units| - 1][..r] == units[..r];
    } else {
      r := |units|;
    }
  }

  function Full(t: seq<Utf16>): seq<Unit> { Scan(t, {}, 0, |t|, []) }

  // An alignment is a contiguous part of the scan, and only blanks are cut off.
  lemma AlignSlice(t: seq<Utf16>) returns (l: nat, r: nat)
    ensures l <= r <= |Full(t)| && Align(t, {}) == Full(t)[l..r]
    ensures l < r ==> Full(t)[l].value != SPACE && Full(t)[r - 1].value != SPACE
    ensures forall k :: 0 <= k < |Full(t)| && !(l <= k < r) ==> Full(t)[k].value == SPACE
  {
    l := TrimStartSlice(Full(t));
    var r' := TrimEndSlice(Full(t)[l..]);
    r := l + r';
    assert forall k :: r' <= k < |Full(t)[l..]| ==> Full(t)[l..][k] == Full(t)[l + k];
    assert Full(t)[l..][..r'] == Full(t)[l..r];
  }

  // Raw spans of an alignment are non-empty, lie within the text and never overlap without being equal.
  lemma AlignMonotone(t: seq<Utf16>)
    ensures Monotone(Align(t, {})) && Within(Align(t, {}), 0, |t|)
  {
    var l, r := AlignSlice(t);
    ReachesEnd(t, 0);
    ScanMonotone(t, {}, 0, |t|, []);
    ScanWithin(t, {}, 0, |t|, [], 0);
  }

  // ---- Locating the glyph of a unit ----

  // The glyph at `s` is printed, and unit `a` of the scan belongs to its expansion.
  ghost predicate At(t: seq<Utf16>, a: nat, s: nat) {
    && s < |t| && Reaches(t, 0, s)
    && GlyphShape(t, {}, s).Printed?
    && var before := |Scan(t, {}, 0, s, [])|;
       before <= a < before + |GlyphShape(t, {}, s).values|
  }

  lemma AddKeepsValues(units: seq<Unit>, shape: Shape, start: int, end: int)
    ensures |Add(units, shape, start, end)| >= |units|
    ensures forall k :: 0 <= k < |units| ==> Add(units, shape, start, end)[k].value == units[k].value
  {
  }

  lemma {:induction false} ScanKeepsValues(t: seq<Utf16>, ignored: set<nat>, i: nat, j: nat, units: seq<Unit>)
    requires j <= |t|
    ensures |Scan(t, ignored, i, j, units)| >= |units|
    ensures forall k :: 0 <= k < |units| ==> Scan(t, ignored, i, j, units)[k].value == units[k].value
    decreases j - i
  {
    hide GlyphShape, Add, Width;
    if i < j {
      var shape, end := GlyphShape(t, ignored, i), i + Width(t, i);
      AddKeepsValues(units, shape, i, end);
      ScanKeepsValues(t, ignored, end, j, Add(units, shape, i, end));
    }
  }

  // One more glyph of the scan: its units follow, and what is scanned keeps its values.
  lemma ScanGlyph(t: seq<Utf16>, i: nat)
    requires i < |t| && Reaches(t, 0, i)
    ensures Reaches(t, 0, i + Width(t, i))
    ensures Scan(t, {}, 0, i + Width(t, i), []) == Add(Scan(t, {}, 0, i, []), GlyphShape(t, {}, i), i, i + Width(t, i))
    ensures
      var more := Scan(t, {}, 0, i + Width(t, i), []);
      |more| <= |Full(t)| && forall k :: 0 <= k < |more| ==> Full(t)[k].value == more[k].value
  {
    hide GlyphShape, Width, Add;
    var end := i + Width(t, i);
    ReachesNext(t, 0, i);
    ScanSplit(t, {}, 0, i, end, []);
    ScanSplit(t, {}, 0, end, |t|, []);
    ScanKeepsValues(t, {}, end, |t|, Scan(t, {}, 0, end, []));
    var units := Scan(t, {}, 0, i, []);
    assert Scan(t, {}, i, end, units) == Scan(t, {}, end, end, Add(units, GlyphShape(t, {}, i), i, end));
  }

  lemma FullIsScan(t: seq<Utf16>)
    ensures Full(t) == Scan(t, {}, 0, |t|, [])
  {
  }

  lemma {:induction false} LocateFrom(t: seq<Utf16>, i: nat, a: nat) returns (s: nat)
    requires i <= |t| && Reaches(t, 0, i)
    requires |Scan(t, {}, 0, i, [])| <= a < |Full(t)| && Full(t)[a].value != SPACE
    ensures At(t, a, s)
    decreases |t| - i
  {
    hide GlyphShape, Width, Scan, Full, Reaches;
    FullIsScan(t);
    assert i < |t|;
    ScanGlyph(t, i);
    var end := i + Width(t, i);
    if a < |Scan(t, {}, 0, end, [])| {
      s := i;
    } else {
      s := LocateFrom(t, end, a);
    }
  }

  // The scan around the glyph at `s`.
  lemma Around(t: seq<Utf16>, s: nat)
    requires s < |t| && Reaches(t, 0, s) && GlyphShape(t, {}, s).Printed?
    ensures
      var before, end := Scan(t, {}, 0, s, []), s + Width(t, s);
      var own := Print(GlyphShape(t, {}, s).values, s, end);
      && Reaches(t, 0, end)
      && Scan(t, {}, 0, end, []) == before + own
      && Full(t) == before + own + Scan(t, {}, end, |t|, [])
      && Within(before, 0, s) && Within(Scan(t, {}, end, |t|, []), end, |t|)
  {
    hide GlyphShape, Width;
    var before, end := Scan(t, {}, 0, s, []), s + Width(t, s);
    var own := Print(GlyphShape(t, {}, s).values, s, end);
    ReachesNext(t, 0, s);
    ScanSplit(t, {}, 0, s, end, []);
    assert Scan(t, {}, s, end, before) == Scan(t, {}, end, end, before + own);
    ScanSplit(t, {}, 0, end, |t|, []);
    assert own[|own| - 1].value in GlyphShape(t, {}, s).values;
    ScanFrame(t, {}, end, |t|, before + own, []);
    assert before + own + [] == before + own;
    ScanWithin(t, {}, 0, s, [], 0);
    ReachesEnd(t, end);
    ScanWithin(t, {}, end, |t|, [], end);
  }

  // ---- Slices ----

  function Shift(units: seq<Unit>, offset: int): seq<Unit> {
    seq(|units|, k requires 0 <= k < |units| => Unit(units[k].value, units[k].rawStart - offset, units[k].rawEnd - offset))
  }

  lemma AddShift(units: seq<Unit>, shape: Shape, start: int, end: int, offset: int)
    ensures Add(Shift(units, offset), shape, start - offset, end - offset) == Shift(Add(units, shape, start, end), offset)
  {
  }

  lemma SliceGlyph(t: seq<Utf16>, s: nat, e: nat, i: nat)
    requires s <= i < e <= |t| && i + Width(t, i) <= e
    ensures Width(t[s..e], i - s) == Width(t, i)
    ensures GlyphShape(t[s..e], {}, i - s) == GlyphShape(t, {}, i)
  {
    assert t[s..e][i - s..i - s + Width(t, i)] == t[i..i + Width(t, i)];
  }

  // Scanning a slice between two code point boundaries is scanning that part of the text.
  lemma {:induction false} ScanSlice(t: seq<Utf16>, s: nat, e: nat, i: nat, units: seq<Unit>)
    requires s <= i && Reaches(t, i, e) && e <= |t|
    ensures i <= e
    ensures Scan(t[s..e], {}, i - s, e - s, Shift(units, s)) == Shift(Scan(t, {}, i, e, units), s)
    decreases e - i
  {
    ReachesBound(t, i, e);
    if i != e {
      ReachesBound(t, i + Width(t, i), e);
      SliceGlyph(t, s, e, i);
      hide GlyphShape, Add, Width;
      var shape, end := GlyphShape(t, {}, i), i + Width(t, i);
      AddShift(units, shape, i, end, s);
      ScanSlice(t, s, e, end, Add(units, shape, i, end));
    }
  }

  lemma LaterGlyph(t: seq<Utf16>, a: nat, sa: nat, b: nat, sb: nat)
    requires At(t, a, sa) && At(t, b, sb) && a <= b
    ensures sa <= sb
  {
    hide GlyphShape, Width, Scan;
    if sb < sa {
      Around(t, sb);
      var end := sb + Width(t, sb);
      NextBoundary(t, 0, sb, sa);
      ReachesSuffix(t, 0, end, sa);
      ScanSplit(t, {}, 0, end, sa, []);
      ScanKeepsValues(t, {}, end, sa, Scan(t, {}, 0, end, []));
      assert false;
    }
  }

  lemma {:induction false} NextBoundary(t: seq<Utf16>, i: nat, j: nat, k: nat)
    requires Reaches(t, i, j) && Reaches(t, i, k) && j < k <= |t|
    ensures j + Width(t, j) <= k
    decreases j - i
  {
    if i == j {
      ReachesBound(t, i + Width(t, i), k);
    } else {
      NextBoundary(t, i + Width(t, i), j, k);
    }
  }

  // The units from the first one of the glyph of `a` to the last one of the glyph of `b`.
  lemma Segment(t: seq<Utf16>, a: nat, sa: nat, b: nat, sb: nat) returns (lower: nat, upper: nat)
    requires a <= b && At(t, a, sa) && At(t, b, sb)
    ensures sb + Width(t, sb) <= |t| && sa <= sb
    ensures lower == |Scan(t, {}, 0, sa, [])| && upper == |Scan(t, {}, 0, sb, [])| + |GlyphShape(t, {}, sb).values|
    ensures lower <= a <= b < upper <= |Full(t)|
    ensures Reaches(t, sa, sb + Width(t, sb))
    ensures Scan(t, {}, sa, sb + Width(t, sb), []) == Full(t)[lower..upper]
    ensures Full(t)[lower].value != SPACE && Full(t)[upper - 1].value != SPACE
  {
    hide GlyphShape, Width, Scan, Full, Reaches;
    LaterGlyph(t, a, sa, b, sb);
    lower := GlyphUnits(t, sa);
    var start := GlyphUnits(t, sb);
    upper := start + |GlyphShape(t, {}, sb).values|;
    SegmentScan(t, sa, sb, lower, upper);
  }

  // Where the units of a printed glyph lie in the scan.
  lemma GlyphUnits(t: seq<Utf16>, s: nat) returns (lower: nat)
    requires s < |t| && Reaches(t, 0, s) && GlyphShape(t, {}, s).Printed?
    ensures lower == |Scan(t, {}, 0, s, [])|
    ensures
      var upper := lower + |GlyphShape(t, {}, s).values|;
      && lower < upper <= |Full(t)|
      && Full(t)[lower].value != SPACE && Full(t)[upper - 1].value != SPACE
      && Scan(t, {}, 0, s + Width(t, s), []) == Full(t)[..upper]
  {
    hide GlyphShape, Width, Scan, Full, Reaches;
    Around(t, s);
    var before, values := Scan(t, {}, 0, s, []), GlyphShape(t, {}, s).values;
    var own, rest := Print(values, s, s + Width(t, s)), Scan(t, {}, s + Width(t, s), |t|, []);
    lower := |before|;
    assert values[0] in values && values[|values| - 1] in values;
    assert Full(t)[lower] == own[0];
    assert Full(t)[lower + |values| - 1] == own[|values| - 1];
    assert Full(t)[..lower + |values|] == before + own;
  }

  lemma SegmentScan(t: seq<Utf16>, sa: nat, sb: nat, lower: nat, upper: nat)
    requires sa <= sb < |t| && Reaches(t, 0, sa) && Reaches(t, 0, sb)
    requires GlyphShape(t, {}, sa).Printed? && GlyphShape(t, {}, sb).Printed?
    requires lower == |Scan(t, {}, 0, sa, [])| && upper <= |Full(t)|
    requires Scan(t, {}, 0, sb + Width(t, sb), []) == Full(t)[..upper]
    ensures lower <= upper && Reaches(t, sa, sb + Width(t, sb))
    ensures Scan(t, {}, sa, sb + Width(t, sb), []) == Full(t)[lower..upper]
  {
    hide GlyphShape, Width, Scan, Full, Reaches;
    var before, e := Scan(t, {}, 0, sa, []), sb + Width(t, sb);
    ReachesNext(t, 0, sb);
    ReachesSuffix(t, 0, sa, e);
    ScanSplit(t, {}, 0, sa, e, []);
    ScanFromPrinted(t, sa, e, before);
    assert Full(t)[..upper] == before + Scan(t, {}, sa, e, []);
    assert Full(t)[..upper][lower..] == Full(t)[lower..upper];
  }

  // A scan that starts with a printed glyph does not depend on what comes before it.
  lemma ScanFromPrinted(t: seq<Utf16>, s: nat, e: nat, before: seq<Unit>)
    requires s < e <= |t| && GlyphShape(t, {}, s).Printed?
    ensures Scan(t, {}, s, e, before) == before + Scan(t, {}, s, e, [])
  {
    hide GlyphShape, Width;
    var end := s + Width(t, s);
    var own := Print(GlyphShape(t, {}, s).values, s, end);
    ScanFrame(t, {}, end, e, before, own);
    assert [] + own == own;
  }

  lemma TrimsNothing(units: seq<Unit>)
    requires units != [] && units[0].value != SPACE && units[|units| - 1].value != SPACE
    ensures TrimEnd(TrimStart(units)) == units
  {
  }

  // The slice from the glyph at `sa` to the glyph at `sb` aligns to the units of all glyphs in between.
  lemma SliceAligns(t: seq<Utf16>, a: nat, sa: nat, b: nat, sb: nat) returns (lower: nat, upper: nat)
    requires a <= b && At(t, a, sa) && At(t, b, sb)
    ensures sb + Width(t, sb) <= |t| && sa <= sb
    ensures lower == |Scan(t, {}, 0, sa, [])| && upper == |Scan(t, {}, 0, sb, [])| + |GlyphShape(t, {}, sb).values|
    ensures lower <= a <= b < upper <= |Full(t)|
    ensures Align(t[sa..sb + Width(t, sb)], {}) == Shift(Full(t)[lower..upper], sa)
  {
    hide GlyphShape, Width, Scan, At, Align, Full, Reaches;
    lower, upper := Segment(t, a, sa, b, sb);
    var part := Full(t)[lower..upper];
    assert part[0] == Full(t)[lower] && part[|part| - 1] == Full(t)[upper - 1];
    AlignsScan(t, sa, sb + Width(t, sb), part);
  }

  lemma AlignsScan(t: seq<Utf16>, s: nat, e: nat, part: seq<Unit>)
    requires s <= e <= |t| && Reaches(t, s, e) && Scan(t, {}, s, e, []) == part
    requires part != [] && part[0].value != SPACE && part[|part| - 1].value != SPACE
    ensures Align(t[s..e], {}) == Shift(part, s)
  {
    hide Scan, Reaches;
    ScanSlice(t, s, e, s, []);
    assert Shift([], s) == [];
    assert |t[s..e]| == e - s;
    TrimsNothing(Shift(part, s));
  }

  // The unit before the first one of a glyph, and the one after the last, come from another glyph.
  lemma GlyphEnds(t: seq<Utf16>, a: nat, s: nat)
    requires a < |Full(t)| && At(t, a, s)
    ensures Full(t)[a].rawStart == s && Full(t)[a].rawEnd == s + Width(t, s)
    ensures
      var lower := |Scan(t, {}, 0, s, [])|;
      var upper := lower + |GlyphShape(t, {}, s).values|;
      && (a > 0 ==> (a == lower <==> !SameOrigin(Full(t)[a - 1], Full(t)[a])))
      && (a + 1 < |Full(t)| ==> (a + 1 == upper <==> !SameOrigin(Full(t)[a + 1], Full(t)[a])))
      && (a > lower ==> a > 0 && Full(t)[a - 1].value != SPACE)
      && (a + 1 < upper ==> a + 1 < |Full(t)| && Full(t)[a + 1].value != SPACE)
      && upper <= |Full(t)|
  {
    hide GlyphShape, Width;
    Around(t, s);
    var before, values := Scan(t, {}, 0, s, []), GlyphShape(t, {}, s).values;
    var own := Print(values, s, s + Width(t, s));
    var rest := Scan(t, {}, s + Width(t, s), |t|, []);
    var lower, upper := |before|, |before| + |values|;
    assert forall k :: lower <= k < upper ==> Full(t)[k] == own[k - lower] && values[k - lower] in values;
    if 0 < a == lower { assert Full(t)[a - 1] == before[a - 1] && before[a - 1] in before; }
    if a + 1 == upper < |Full(t)| { assert Full(t)[a + 1] == rest[0] && rest[0] in rest; }
  }

  function Values(units: seq<Unit>): seq<Utf16> {
    seq(|units|, k requires 0 <= k < |units| => units[k].value)
  }

  // The boundary guard of `resolveSemanticSpan`: neither end splits the expansion of a glyph.
  predicate Guarded(units: seq<Unit>, a: nat, b: nat)
    requires a <= b < |units|
  {
    && (a > 0 ==> !SameOrigin(units[a - 1], units[a]))
    && (b + 1 < |units| ==> !SameOrigin(units[b + 1], units[b]))
  }

  lemma GuardExactly(t: seq<Utf16>, l: nat, r: nat, a: nat, sa: nat, b: nat, sb: nat)
    requires l <= a <= b < r <= |Full(t)| && Align(t, {}) == Full(t)[l..r]
    requires forall k :: 0 <= k < |Full(t)| && !(l <= k < r) ==> Full(t)[k].value == SPACE
    requires At(t, a, sa) && At(t, b, sb)
    ensures Guarded(Align(t, {}), a - l, b - l) <==>
            a == |Scan(t, {}, 0, sa, [])| && b + 1 == |Scan(t, {}, 0, sb, [])| + |GlyphShape(t, {}, sb).values|
  {
    hide GlyphShape, Width, Align, Scan, Full;
    GlyphEnds(t, a, sa);
    GlyphEnds(t, b, sb);
  }

  // A match that passes the guard re-aligns to exactly its own units, and the comparison of the re-normalized slice with
  // the matched text succeeds exactly when the guard passes: the comparison never rejects what the guard let through.
  lemma LocalAlignment(t: seq<Utf16>, a: nat, b: nat)
    requires a <= b < |Align(t, {})|
    requires Align(t, {})[a].value != SPACE && Align(t, {})[b].value != SPACE
    ensures
      var units := Align(t, {});
      var s, e := units[a].rawStart, units[b].rawEnd;
      && 0 <= s < e <= |t|
      && (Guarded(units, a, b) ==> Align(t[s..e], {}) == Shift(units[a..b + 1], s))
      && (Values(Align(t[s..e], {})) == Values(units[a..b + 1]) <==> Guarded(units, a, b))
  {
    hide GlyphShape, Width, Align, Scan, Full;
    var l, r := AlignSlice(t);
    var units := Align(t, {});
    assert units[a] == Full(t)[l + a] && units[b] == Full(t)[l + b];
    NothingScanned(t);
    ReachesEnd(t, 0);
    var sa := LocateFrom(t, 0, l + a);
    var sb := LocateFrom(t, 0, l + b);
    GlyphEnds(t, l + a, sa);
    GlyphEnds(t, l + b, sb);
    var lower, upper := SliceAligns(t, l + a, sa, l + b, sb);
    GuardExactly(t, l, r, l + a, sa, l + b, sb);
    var slice := t[sa..sb + Width(t, sb)];
    if Guarded(units, a, b) {
      SliceOfSlice(Full(t), l, r, a, b + 1);
      assert Values(Shift(units[a..b + 1], sa)) == Values(units[a..b + 1]);
    } else {
      assert |Values(Align(slice, {}))| == upper - lower;
      assert |Values(units[a..b + 1])| == b + 1 - a;
    }
  }

  lemma NothingScanned(t: seq<Utf16>)
    ensures Reaches(t, 0, 0) && Scan(t, {}, 0, 0, []) == []
  {
  }
}
