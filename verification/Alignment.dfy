// Alignment of a text: its code points become normalized units that remember the raw UTF-16 range they come from.
module Alignment {
  import opened Texts

  const SPACE: Utf16 := 0x20
  const HYPHEN: Utf16 := 0x2D

  datatype Unit = Unit(value: Utf16, rawStart: int, rawEnd: int)

  // `String.fromCodePoint(value.codePointAt(i)).length`
  function Width(t: seq<Utf16>, i: nat): (w: nat)
    requires i < |t|
    ensures 1 <= w <= 2 && i + w <= |t|
  {
    if High(t[i]) && i + 1 < |t| && Low(t[i + 1]) then 2 else 1
  }

  // The characters that `\s` matches.
  predicate White(u: Utf16) {
    0x9 <= u <= 0xD || u == 0x20 || u == 0xA0 || u == 0x1680 || 0x2000 <= u <= 0x200A || u == 0x2028 || u == 0x2029 ||
    u == 0x202F || u == 0x205F || u == 0x3000 || u == 0xFEFF
  }

  predicate Droppable(u: Utf16) {
    u == 0xAD || 0x200B <= u <= 0x200D || u == 0xFEFF
  }

  // The compatibility glyphs: dashes, quotation marks and the Latin ligatures.
  function Compatible(u: Utf16): seq<Utf16> {
    if 0x2010 <= u <= 0x2015 then [HYPHEN]
    else if u == 0x201C || u == 0x201D then [0x22]
    else if u == 0x2018 || u == 0x2019 then [0x27]
    else if u == 0xFB00 then [0x66, 0x66]
    else if u == 0xFB01 then [0x66, 0x69]
    else if u == 0xFB02 then [0x66, 0x6C]
    else if u == 0xFB03 then [0x66, 0x66, 0x69]
    else if u == 0xFB04 then [0x66, 0x66, 0x6C]
    else if u == 0xFB05 || u == 0xFB06 then [0x73, 0x74]
    else [u]
  }

  // The code units of a text in ASCII.
  function Ascii(s: string): seq<Utf16>
    requires forall k :: 0 <= k < |s| ==> s[k] as int < 0x80
  {
    seq(|s|, k requires 0 <= k < |s| => s[k] as int)
  }

  // Which characters are white space, which are dropped, and what the compatibility glyphs stand for.
  lemma GlyphsExactly(u: Utf16)
    ensures White(u) <==>
      u in {0x9, 0xA, 0xB, 0xC, 0xD, 0x20, 0xA0, 0x1680, 0x2000, 0x2001, 0x2002, 0x2003, 0x2004, 0x2005, 0x2006, 0x2007, 0x2008,
            0x2009, 0x200A, 0x2028, 0x2029, 0x202F, 0x205F, 0x3000, 0xFEFF}
    ensures Droppable(u) <==> u in {0xAD, 0x200B, 0x200C, 0x200D, 0xFEFF}
    ensures u in {0x2010, 0x2011, 0x2012, 0x2013, 0x2014, 0x2015} ==> Compatible(u) == Ascii("-")
    ensures u in {0x2018, 0x2019} ==> Compatible(u) == Ascii("'")
    ensures u in {0x201C, 0x201D} ==> Compatible(u) == Ascii("\"")
    ensures u == 0xFB00 ==> Compatible(u) == Ascii("ff")
    ensures u == 0xFB01 ==> Compatible(u) == Ascii("fi")
    ensures u == 0xFB02 ==> Compatible(u) == Ascii("fl")
    ensures u == 0xFB03 ==> Compatible(u) == Ascii("ffi")
    ensures u == 0xFB04 ==> Compatible(u) == Ascii("ffl")
    ensures u in {0xFB05, 0xFB06} ==> Compatible(u) == Ascii("st")
    ensures !(0x2010 <= u <= 0x201D || 0xFB00 <= u <= 0xFB06) || u in {0x2016, 0x2017, 0x201A, 0x201B} ==> Compatible(u) == [u]
  {
  }

  datatype Shape = Dropped | Blank | Printed(values: seq<Utf16>)

  // How a code point, given as its one or two code units, is represented.
  function ShapeOf(g: seq<Utf16>): (s: Shape)
    requires |g| == 1 || (|g| == 2 && High(g[0]) && Low(g[1]))
    ensures s.Printed? ==> s.values != [] && forall v :: v in s.values ==> v != SPACE
  {
    if |g| == 2 then Printed(g)
    else if Droppable(g[0]) then Dropped
    else if White(g[0]) then Blank
    else Printed(Compatible(g[0]))
  }

  function GlyphShape(t: seq<Utf16>, ignored: set<nat>, i: nat): (s: Shape)
    requires i < |t|
    ensures s.Printed? ==> s.values != [] && forall v :: v in s.values ==> v != SPACE
  {
    if i in ignored then Dropped else ShapeOf(t[i..i + Width(t, i)])
  }

  // A hidden position and a character to drop leave nothing, white space a blank, a surrogate pair itself, and any other
  // character what it stands for.
  lemma ShapesExactly(t: seq<Utf16>, ignored: set<nat>, i: nat)
    requires i < |t|
    ensures
      var pair := i + 1 < |t| && t[i] / 0x400 == 0x36 && t[i + 1] / 0x400 == 0x37;
      && Width(t, i) == (if pair then 2 else 1)
      && GlyphShape(t, ignored, i) ==
         if i in ignored then Dropped
         else if pair then Printed([t[i], t[i + 1]])
         else if Droppable(t[i]) then Dropped
         else if White(t[i]) then Blank
         else Printed(Compatible(t[i]))
  {
    hide Compatible, White, Droppable;
    SurrogatesExactly(t[i]);
    if i + 1 < |t| { SurrogatesExactly(t[i + 1]); }
  }

  function Print(values: seq<Utf16>, start: int, end: int): seq<Unit> {
    seq(|values|, k requires 0 <= k < |values| => Unit(values[k], start, end))
  }

  predicate EndsBlank(units: seq<Unit>) {
    units != [] && units[|units| - 1].value == SPACE
  }

  // A run of white space, even across dropped characters, is one unit.
  function Add(units: seq<Unit>, shape: Shape, start: int, end: int): seq<Unit> {
    match shape
    case Dropped => units
    case Blank =>
      if EndsBlank(units) then units[|units| - 1 := units[|units| - 1].(rawEnd := end)]
      else units + [Unit(SPACE, start, end)]
    case Printed(values) => units + Print(values, start, end)
  }

  // Adds the glyphs from `i` up to `j`.
  function Scan(t: seq<Utf16>, ignored: set<nat>, i: nat, j: nat, units: seq<Unit>): seq<Unit>
    requires j <= |t|
    decreases j - i
  {
    if i >= j then units
    else Scan(t, ignored, i + Width(t, i), j, Add(units, GlyphShape(t, ignored, i), i, i + Width(t, i)))
  }

  function TrimStart(units: seq<Unit>): seq<Unit> {
    if units != [] && units[0].value == SPACE then TrimStart(units[1..]) else units
  }

  function TrimEnd(units: seq<Unit>): seq<Unit> {
    if EndsBlank(units) then TrimEnd(units[..|units| - 1]) else units
  }

  function Align(t: seq<Utf16>, ignored: set<nat>): seq<Unit> {
    TrimEnd(TrimStart(Scan(t, ignored, 0, |t|, [])))
  }

  method AddGlyph(units: seq<Unit>, shape: Shape, rawStart: nat, rawEnd: nat) returns (more: seq<Unit>)
    ensures more == Add(units, shape, rawStart, rawEnd)
  {
    more := units;
    match shape {
      case Dropped =>
      case Blank =>
        if EndsBlank(units) {
          more := units[|units| - 1 := units[|units| - 1].(rawEnd := rawEnd)];
        } else {
          more := units + [Unit(SPACE, rawStart, rawEnd)];
        }
      case Printed(values) =>
        for k := 0 to |values|
          invariant more == units + Print(values, rawStart, rawEnd)[..k]
        {
          more := more + [Unit(values[k], rawStart, rawEnd)];
        }
    }
  }

  method AlignmentUnits(t: seq<Utf16>, ignored: set<nat>) returns (units: seq<Unit>)
    ensures units == Align(t, ignored)
  {
    hide GlyphShape, Add, Width;
    units := [];
    var rawStart: nat := 0;
    while rawStart < |t|
      invariant Scan(t, ignored, 0, |t|, []) == Scan(t, ignored, rawStart, |t|, units)
      decreases |t| - rawStart
    {
      var rawEnd := rawStart + Width(t, rawStart);
      units := AddGlyph(units, GlyphShape(t, ignored, rawStart), rawStart, rawEnd);
      rawStart := rawEnd;
    }
    while units != [] && units[0].value == SPACE
      invariant Align(t, ignored) == TrimEnd(TrimStart(units))
      decreases |units|
    {
      units := units[1..];
    }
    while EndsBlank(units)
      invariant Align(t, ignored) == TrimEnd(units)
      decreases |units|
    {
      units := units[..|units| - 1];
    }
  }
}
