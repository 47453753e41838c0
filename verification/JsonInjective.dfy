// The canonical serialization is injective up to the order of object keys.
module JsonInjective {
  import opened Sorting
  import opened Texts
  import opened StableJson
  import opened JsonPrefix

  // ---- Every value starts with a character that tells its kind ----

  lemma Starts(v: Json, before: Order)
    requires Valid(v)
    ensures Stable(v, before) != [] && !Delimiter(Stable(v, before)[0])
    ensures
      var u := Stable(v, before)[0];
      && (v.Null? <==> u == 0x6E) && (v.Bool? <==> u == 0x74 || u == 0x66)
      && (v.String? <==> u == QUOTE) && (v.Array? <==> u == LEFT_BRACKET) && (v.Object? <==> u == LEFT_BRACE)
  {
  }

  predicate SameKind(a: Json, b: Json) {
    && a.Null? == b.Null? && a.Bool? == b.Bool? && a.Number? == b.Number? && a.String? == b.String?
    && a.Array? == b.Array? && a.Object? == b.Object?
  }

  lemma KindsAgree(a: Json, s: Text, b: Json, t: Text, before: Order)
    requires Valid(a) && Valid(b) && Stable(a, before) + s == Stable(b, before) + t
    ensures SameKind(a, b)
  {
    Starts(a, before);
    Starts(b, before);
    assert (Stable(a, before) + s)[0] == Stable(a, before)[0];
    assert (Stable(b, before) + t)[0] == Stable(b, before)[0];
  }

  // ---- Serialized values can be told apart ----

  lemma {:induction false} ValuesSplit(a: Json, b: Json, before: Order)
    requires Valid(a) && Valid(b)
    ensures Splits(Stable(a, before), Stable(b, before))
    decreases a
  {
    hide Splits, Stable;
    var x, y := Stable(a, before), Stable(b, before);
    forall s: Text, t: Text | Delimited(s) && Delimited(t) && Same(x, s, y, t) ensures x == y && s == t {
      KindsAgree(a, s, b, t, before);
      match a {
        case Null => ScalarsSplit(a, s, b, t, before);
        case Bool(_) => ScalarsSplit(a, s, b, t, before);
        case Number(_) => NumberTexts(a, b, before); SplitHere(x, s, y, t);
        case String(p) => StringTexts(a, b, before); QuotedSplits(p, s, b.s, t);
        case Array(items) =>
          ItemsSplit(items, b.items, before);
          ListTexts(a, s, b, t, before);
          JoinedSplits(StableItems(items, before), s, StableItems(b.items, before), t, RIGHT_BRACKET);
          assert x == y by { ArrayText(a, before); ArrayText(b, before); }
        case Object(fields) =>
          FieldsSplit(fields, b.fields, before);
          ObjectTexts(a, s, b, t, before);
          JoinedSplits(ObjectEntries(fields, before), s, ObjectEntries(b.fields, before), t, RIGHT_BRACE);
          assert x == y by { ObjectText(a, before); ObjectText(b, before); }
      }
    }
    SplitsByHere(x, y);
  }

  lemma ScalarsSplit(a: Json, s: Text, b: Json, t: Text, before: Order)
    requires (a.Null? && b.Null?) || (a.Bool? && b.Bool?)
    requires Stable(a, before) + s == Stable(b, before) + t
    ensures Stable(a, before) == Stable(b, before) && s == t
  {
    var x, y := Stable(a, before), Stable(b, before);
    assert (x + s)[0] == x[0] && (y + t)[0] == y[0];
    SamePrefix(x, s, t);
  }

  lemma NumberTexts(a: Json, b: Json, before: Order)
    requires a.Number? && b.Number? && Valid(a) && Valid(b)
    ensures Splits(Stable(a, before), Stable(b, before))
  {
    NumbersSplit(a.text, b.text);
  }

  lemma StringTexts(a: Json, b: Json, before: Order)
    requires a.String? && b.String?
    ensures Stable(a, before) == Quoted(a.s) && Stable(b, before) == Quoted(b.s)
  {
  }

  lemma ArrayText(a: Json, before: Order)
    requires a.Array?
    ensures Stable(a, before) == [LEFT_BRACKET] + JoinComma(StableItems(a.items, before)) + [RIGHT_BRACKET]
  {
  }

  lemma ListTexts(a: Json, s: Text, b: Json, t: Text, before: Order)
    requires a.Array? && b.Array? && Stable(a, before) + s == Stable(b, before) + t
    ensures JoinComma(StableItems(a.items, before)) + [RIGHT_BRACKET] + s == JoinComma(StableItems(b.items, before)) + [RIGHT_BRACKET] + t
  {
    hide StableItems;
    Unwrap(LEFT_BRACKET, JoinComma(StableItems(a.items, before)), s, JoinComma(StableItems(b.items, before)), t, RIGHT_BRACKET);
  }

  lemma Unwrap(open: Utf16, x: Text, s: Text, y: Text, t: Text, close: Utf16)
    requires [open] + x + [close] + s == [open] + y + [close] + t
    ensures x + [close] + s == y + [close] + t
  {
    assert [open] + x + [close] + s == [open] + (x + [close] + s);
    assert [open] + y + [close] + t == [open] + (y + [close] + t);
    SamePrefix([open], x + [close] + s, y + [close] + t);
  }

  function ObjectEntries(f: Fields, before: Order): seq<Text> {
    EntryTexts(Sort(StableFields(f, before), ByKey(before)))
  }

  lemma ObjectText(a: Json, before: Order)
    requires a.Object?
    ensures Stable(a, before) == [LEFT_BRACE] + JoinComma(ObjectEntries(a.fields, before)) + [RIGHT_BRACE]
  {
  }

  lemma ObjectTexts(a: Json, s: Text, b: Json, t: Text, before: Order)
    requires a.Object? && b.Object? && Stable(a, before) + s == Stable(b, before) + t
    ensures JoinComma(ObjectEntries(a.fields, before)) + [RIGHT_BRACE] + s == JoinComma(ObjectEntries(b.fields, before)) + [RIGHT_BRACE] + t
  {
    hide StableFields, EntryTexts, Sort;
    Unwrap(LEFT_BRACE, JoinComma(ObjectEntries(a.fields, before)), s, JoinComma(ObjectEntries(b.fields, before)), t, RIGHT_BRACE);
  }

  // The values of a list or of an object, as a list of subterms.
  ghost predicate InItems(v: Json, items: Items) {
    items.Item? && (v == items.head || InItems(v, items.tail))
  }

  ghost predicate InFields(key: Text, v: Json, f: Fields) {
    f.Field? && ((f.key == key && v == f.value) || InFields(key, v, f.rest))
  }

  lemma {:induction false} ItemText(items: Items, before: Order, i: nat) returns (v: Json)
    requires ValidItems(items) && i < |StableItems(items, before)|
    ensures InItems(v, items) && Valid(v) && v < items && StableItems(items, before)[i] == Stable(v, before)
  {
    if i == 0 { v := items.head; } else { v := ItemText(items.tail, before, i - 1); }
  }

  lemma {:induction false} FieldText(f: Fields, before: Order, e: (Text, Text)) returns (v: Json)
    requires ValidFields(f) && e in StableFields(f, before)
    ensures InFields(e.0, v, f) && Valid(v) && v < f && e.1 == Stable(v, before)
  {
    if e == StableFields(f, before)[0] { v := f.value; } else { v := FieldText(f.rest, before, e); }
  }

  lemma {:induction false} ItemsSplit(a: Items, b: Items, before: Order)
    requires ValidItems(a) && ValidItems(b)
    ensures AllSplit(StableItems(a, before), StableItems(b, before))
    ensures Started(StableItems(a, before)) && Started(StableItems(b, before))
    decreases a
  {
    hide Splits, Stable, StableItems;
    var x, y := StableItems(a, before), StableItems(b, before);
    forall i, j | 0 <= i < |x| && 0 <= j < |y| ensures Splits(x[i], y[j]) {
      var v := ItemText(a, before, i);
      var w := ItemText(b, before, j);
      ValuesSplit(v, w, before);
    }
    forall i | 0 <= i < |x| ensures x[i] != [] && !Delimiter(x[i][0]) {
      var v := ItemText(a, before, i);
      Starts(v, before);
    }
    forall j | 0 <= j < |y| ensures y[j] != [] && !Delimiter(y[j][0]) {
      var w := ItemText(b, before, j);
      Starts(w, before);
    }
  }

  lemma {:induction false} FieldsSplit(a: Fields, b: Fields, before: Order)
    requires ValidFields(a) && ValidFields(b)
    ensures AllSplit(ObjectEntries(a, before), ObjectEntries(b, before))
    ensures Started(ObjectEntries(a, before)) && Started(ObjectEntries(b, before))
    ensures forall d, e :: d in StableFields(a, before) && e in StableFields(b, before) ==> Splits(d.1, e.1)
    decreases a
  {
    hide Splits, Stable, StableFields, Sort, Entry;
    var p, q := StableFields(a, before), StableFields(b, before);
    var x, y := Sort(p, ByKey(before)), Sort(q, ByKey(before));
    SortMembers(p, ByKey(before));
    SortMembers(q, ByKey(before));
    forall d, e | d in p && e in q ensures Splits(d.1, e.1) {
      var v := FieldText(a, before, d);
      var w := FieldText(b, before, e);
      ValuesSplit(v, w, before);
    }
    forall i, j | 0 <= i < |x| && 0 <= j < |y| ensures Splits(Entry(x[i]), Entry(y[j])) {
      assert x[i] in x && y[j] in y;
      EntriesSplit(x[i], y[j]);
    }
    EntriesStart(x);
    EntriesStart(y);
  }

  lemma EntriesStart(entries: seq<(Text, Text)>)
    ensures Started(EntryTexts(entries))
  {
    hide EscapeFrom;
    forall i | 0 <= i < |entries| ensures EntryTexts(entries)[i] != [] && !Delimiter(EntryTexts(entries)[i][0]) {
      assert Entry(entries[i])[0] == Quoted(entries[i].0)[0];
    }
  }
}
