// Aligning a normalized text changes nothing.
module AlignmentIdempotence {
  import opened Alignment
  import opened Texts
  import opened AlignmentLocality

  // A character that alignment keeps as it is.
  predicate Plain(u: Utf16) {
    !Droppable(u) && !White(u) && Compatible(u) == [u]
  }

  // Kept characters and single spaces.
  ghost predicate Tidy(v: seq<Utf16>) {
    && (forall k :: 0 <= k < |v| ==> v[k] == SPACE || Plain(v[k]))
    && forall k :: 0 <= k < |v| - 1 ==> v[k] != SPACE || v[k + 1] != SPACE
  }

  lemma PrintedIsPlain(t: seq<Utf16>, i: nat)
    requires i < |t| && GlyphShape(t, {}, i).Printed?
    ensures forall v :: v in GlyphShape(t, {}, i).values ==> Plain(v)
  {
  }

  lemma {:induction false} ScanTidy(t: seq<Utf16>, i: nat, units: seq<Unit>)
    requires i <= |t| && Tidy(Values(units))
    ensures Tidy(Values(Scan(t, {}, i, |t|, units)))
    decreases |t| - i
  {
    hide GlyphShape, Width, Plain;
    if i < |t| {
      var shape, end := GlyphShape(t, {}, i), i + Width(t, i);
      if shape.Printed? { PrintedIsPlain(t, i); }
      AddTidy(units, shape, i, end);
      ScanTidy(t, end, Add(units, shape, i, end));
    }
  }

  lemma AddTidy(units: seq<Unit>, shape: Shape, start: int, end: int)
    requires Tidy(Values(units))
    requires shape.Printed? ==> forall v :: v in shape.values ==> Plain(v)
    ensures Tidy(Values(Add(units, shape, start, end)))
  {
    hide Droppable, Compatible;
    var old_, new_ := Values(units), Values(Add(units, shape, start, end));
    match shape {
      case Dropped =>
      case Blank => if EndsBlank(units) { assert new_ == old_; } else { assert new_ == old_ + [SPACE]; }
      case Printed(values) =>
        assert new_ == old_ + values;
        forall k | 0 <= k < |new_| ensures new_[k] == SPACE || Plain(new_[k]) {
          if k >= |old_| { assert values[k - |old_|] in values; }
        }
        forall k | 0 <= k < |new_| - 1 ensures new_[k] != SPACE || new_[k + 1] != SPACE {
          if k + 1 >= |old_| { assert values[k + 1 - |old_|] in values; }
        }
    }
  }

  lemma TidyGlyph(v: seq<Utf16>, i: nat)
    requires Tidy(v) && i < |v|
    ensures
      if v[i] == SPACE then Width(v, i) == 1 && GlyphShape(v, {}, i) == Blank
      else GlyphShape(v, {}, i) == Printed(v[i..i + Width(v, i)])
  {
    assert v[i] == SPACE || Plain(v[i]);
    assert v[i..i + 1] == [v[i]];
  }

  lemma AddOfTidy(v: seq<Utf16>, i: nat, units: seq<Unit>)
    requires Tidy(v) && i < |v| && (v[i] == SPACE ==> !EndsBlank(units))
    ensures
      var end := i + Width(v, i);
      var more := Add(units, GlyphShape(v, {}, i), i, end);
      && Values(more) == Values(units) + v[i..end]
      && (EndsBlank(more) <==> v[end - 1] == SPACE)
  {
    hide GlyphShape, Tidy;
    TidyGlyph(v, i);
    var end := i + Width(v, i);
    var more := Add(units, GlyphShape(v, {}, i), i, end);
    assert v[i] == SPACE ==> v[i..end] == [SPACE];
    assert Values(more) == Values(units) + v[i..end];
    assert more[|more| - 1].value == Values(more)[|more| - 1];
  }

  lemma {:induction false} ScanOfTidy(v: seq<Utf16>, i: nat, units: seq<Unit>)
    requires Tidy(v) && i <= |v|
    requires i < |v| && v[i] == SPACE ==> !EndsBlank(units)
    ensures Values(Scan(v, {}, i, |v|, units)) == Values(units) + v[i..]
    decreases |v| - i
  {
    hide GlyphShape, Plain, Values, Add, Width;
    if i < |v| {
      var end := i + Width(v, i);
      var more := Add(units, GlyphShape(v, {}, i), i, end);
      AddOfTidy(v, i, units);
      assert end < |v| ==> v[end - 1] != SPACE || v[end] != SPACE;
      ScanOfTidy(v, end, more);
      assert v[i..] == v[i..end] + v[end..];
    }
  }

  // A tidy text without blanks at its ends aligns to itself.
  lemma TidyAligns(v: seq<Utf16>)
    requires Tidy(v) && (v != [] ==> v[0] != SPACE && v[|v| - 1] != SPACE)
    ensures Values(Align(v, {})) == v
  {
    hide Scan, Tidy, Align;
    ScanOfTidy(v, 0, []);
    assert v[0..] == v && Values([]) == [] && [] + v == v;
    assert Values(Full(v)) == v;
    assert |Full(v)| == |v|;
    assert forall k :: 0 <= k < |v| ==> Full(v)[k].value == Values(Full(v))[k];
    var l, r := AlignSlice(v);
    assert l == 0 && r == |v|;
    assert Full(v)[0..|v|] == Full(v);
  }

  // The values of an alignment, aligned again, are the same values.
  lemma AlignIdempotent(t: seq<Utf16>)
    ensures Values(Align(Values(Align(t, {})), {})) == Values(Align(t, {}))
  {
    hide Scan, Tidy, Align;
    var v := Values(Align(t, {}));
    var l, r := AlignSlice(t);
    EmptyTidy();
    ScanTidy(t, 0, []);
    TidyPart(Values(Full(t)), l, r);
    assert v == Values(Full(t))[l..r];
    assert v != [] ==> v[0] == Full(t)[l].value && v[|v| - 1] == Full(t)[r - 1].value;
    TidyAligns(v);
  }

  lemma EmptyTidy()
    ensures Tidy(Values([]))
  {
  }

  lemma TidyPart(v: seq<Utf16>, l: nat, r: nat)
    requires Tidy(v) && l <= r <= |v|
    ensures Tidy(v[l..r])
  {
    forall k | 0 <= k < |v[l..r]| - 1 ensures v[l..r][k] != SPACE || v[l..r][k + 1] != SPACE {
      assert v[l + k] != SPACE || v[l + k + 1] != SPACE;
    }
  }
}
