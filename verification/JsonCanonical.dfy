// Canonical serialization decides equality, and record merging is built on it.
module JsonCanonical {
  import opened Sorting
  import opened Texts
  import opened StableJson
  import opened JsonPrefix
  import opened JsonInjective

  // ---- Fields as maps ----

  lemma {:induction false} FieldMeaning(f: Fields, key: Text, v: Json)
    requires ValidFields(f) && InFields(key, v, f)
    ensures HasKey(f, key) && key in FieldsOf(f) && FieldsOf(f)[key] == MeaningOf(v)
  {
    if InFields(key, v, f.rest) {
      FieldMeaning(f.rest, key, v);
    }
  }

  lemma {:induction false} KeyOfMap(f: Fields, key: Text, before: Order) returns (v: Json)
    requires ValidFields(f) && key in FieldsOf(f)
    ensures InFields(key, v, f) && v < f && Valid(v) && (key, Stable(v, before)) in StableFields(f, before)
  {
    if key == f.key {
      v := f.value;
    } else {
      v := KeyOfMap(f.rest, key, before);
    }
  }

  lemma {:induction false} DistinctEntries(f: Fields, before: Order)
    requires ValidFields(f)
    ensures Distinct(StableFields(f, before))
    ensures forall d, e :: d in StableFields(f, before) && e in StableFields(f, before) && d.0 == e.0 ==> d == e
    ensures forall e :: e in StableFields(f, before) ==> HasKey(f, e.0)
  {
    if f.Field? {
      DistinctEntries(f.rest, before);
    }
  }

  // ---- Equal texts have equal meanings ----

  lemma {:induction false} TextDecides(a: Json, b: Json, before: Order)
    requires Valid(a) && Valid(b) && Stable(a, before) == Stable(b, before)
    ensures MeaningOf(a) == MeaningOf(b)
    decreases a, 1
  {
    hide Stable;
    assert Stable(a, before) + [] == Stable(b, before) + [];
    KindsAgree(a, [], b, [], before);
    match a {
      case Null =>
      case Bool(_) => BoolText(a, b, before);
      case Number(_) => NumberValue(a, b, before);
      case String(p) =>
        StringTexts(a, b, before);
        QuotedSplits(p, [], b.s, []);
      case Array(items) =>
        ItemsSplit(items, b.items, before);
        ListTexts(a, [], b, [], before);
        JoinedSplits(StableItems(items, before), [], StableItems(b.items, before), [], RIGHT_BRACKET);
        ItemsDecide(items, b.items, before);
      case Object(fields) =>
        ObjectTexts(a, [], b, [], before);
        FieldsSplit(fields, b.fields, before);
        JoinedSplits(ObjectEntries(fields, before), [], ObjectEntries(b.fields, before), [], RIGHT_BRACE);
        SameEntries(fields, b.fields, before);
        FieldsDecide(fields, b.fields, before);
    }
  }

  lemma BoolText(a: Json, b: Json, before: Order)
    requires a.Bool? && b.Bool? && Stable(a, before) == Stable(b, before)
    ensures a == b
  {
  }

  lemma NumberValue(a: Json, b: Json, before: Order)
    requires a.Number? && b.Number? && Stable(a, before) == Stable(b, before)
    ensures a == b
  {
  }

  lemma {:induction false} ItemsDecide(a: Items, b: Items, before: Order)
    requires ValidItems(a) && ValidItems(b) && StableItems(a, before) == StableItems(b, before)
    ensures MeaningsOf(a) == MeaningsOf(b)
    decreases a, 0
  {
    hide Stable;
    if a.Item? {
      var x, y := StableItems(a, before), StableItems(b, before);
      assert x[0] == y[0] && x[1..] == y[1..];
      TextDecides(a.head, b.head, before);
      ItemsDecide(a.tail, b.tail, before);
    }
  }

  lemma SameEntries(a: Fields, b: Fields, before: Order)
    requires ObjectEntries(a, before) == ObjectEntries(b, before)
    requires forall d, e :: d in StableFields(a, before) && e in StableFields(b, before) ==> Splits(d.1, e.1)
    ensures forall e :: e in StableFields(a, before) <==> e in StableFields(b, before)
  {
    hide Splits, StableFields, Sort, Entry;
    var p, q := StableFields(a, before), StableFields(b, before);
    var x, y := Sort(p, ByKey(before)), Sort(q, ByKey(before));
    SortMembers(p, ByKey(before));
    SortMembers(q, ByKey(before));
    assert |x| == |EntryTexts(x)| == |EntryTexts(y)| == |y|;
    forall i | 0 <= i < |x| ensures x[i] == y[i] {
      assert x[i] in x && y[i] in y;
      assert EntryTexts(x)[i] == EntryTexts(y)[i];
      EntriesSplit(x[i], y[i]);
    }
    assert x == y;
  }

  lemma {:induction false} FieldsDecide(a: Fields, b: Fields, before: Order)
    requires ValidFields(a) && ValidFields(b)
    requires forall e :: e in StableFields(a, before) <==> e in StableFields(b, before)
    ensures FieldsOf(a) == FieldsOf(b)
    decreases a, 0
  {
    hide Stable, StableFields, FieldsOf;
    forall key ensures key in FieldsOf(a) <==> key in FieldsOf(b) {
      if key in FieldsOf(a) {
        var v := KeyOfMap(a, key, before);
        var w := FieldText(b, before, (key, Stable(v, before)));
        FieldMeaning(b, key, w);
      }
      if key in FieldsOf(b) {
        var w := KeyOfMap(b, key, before);
        var v := FieldText(a, before, (key, Stable(w, before)));
        FieldMeaning(a, key, v);
      }
    }
    forall key | key in FieldsOf(a) ensures FieldsOf(a)[key] == FieldsOf(b)[key] {
      var v := KeyOfMap(a, key, before);
      var w := FieldText(b, before, (key, Stable(v, before)));
      FieldMeaning(a, key, v);
      FieldMeaning(b, key, w);
      TextDecides(v, w, before);
    }
  }

  // ---- Equal meanings have equal texts ----

  // `localeCompare` may return 0 for different keys, such as canonically equivalent ones; these keep their insertion
  // order. Only the direction from equal meanings to equal texts depends on that: the keys of each object within `v` must
  // be told apart.
  ghost predicate KeysTold(v: Json, before: Order) {
    match v
    case Array(items) => ItemsTold(items, before)
    case Object(fields) => FieldsTold(fields, before)
    case _ => true
  }

  ghost predicate ItemsTold(items: Items, before: Order) {
    items.Item? ==> KeysTold(items.head, before) && ItemsTold(items.tail, before)
  }

  ghost predicate FieldsTold(f: Fields, before: Order) {
    f.Field? ==>
      && KeysTold(f.value, before)
      && (forall key :: HasKey(f.rest, key) ==> before(f.key, key) || before(key, f.key))
      && FieldsTold(f.rest, before)
  }

  lemma {:induction false} FieldTold(f: Fields, key: Text, v: Json, before: Order)
    requires FieldsTold(f, before) && InFields(key, v, f)
    ensures KeysTold(v, before)
  {
    if InFields(key, v, f.rest) { FieldTold(f.rest, key, v, before); }
  }

  lemma {:induction false} EntriesTold(f: Fields, before: Order)
    requires ValidFields(f) && FieldsTold(f, before)
    ensures forall d, e :: d in StableFields(f, before) && e in StableFields(f, before) && d.0 != e.0 ==>
              before(d.0, e.0) || before(e.0, d.0)
  {
    if f.Field? {
      EntriesTold(f.rest, before);
      DistinctEntries(f.rest, before);
    }
  }

  lemma {:induction false} MeaningDecides(a: Json, b: Json, before: Order)
    requires WeakOrder(before) && KeysTold(a, before) && Valid(a) && Valid(b) && MeaningOf(a) == MeaningOf(b)
    ensures Stable(a, before) == Stable(b, before)
    decreases a, 1
  {
    hide WeakOrder;
    match a {
      case Array(items) => ItemMeanings(items, b.items, before);
      case Object(fields) => FieldMeanings(fields, b.fields, before);
      case _ =>
    }
  }

  lemma {:induction false} ItemMeanings(a: Items, b: Items, before: Order)
    requires WeakOrder(before) && ItemsTold(a, before) && ValidItems(a) && ValidItems(b) && MeaningsOf(a) == MeaningsOf(b)
    ensures StableItems(a, before) == StableItems(b, before)
    decreases a, 0
  {
    hide WeakOrder, Stable;
    if a.Item? {
      var x, y := MeaningsOf(a), MeaningsOf(b);
      assert x[0] == y[0] && x[1..] == y[1..];
      MeaningDecides(a.head, b.head, before);
      ItemMeanings(a.tail, b.tail, before);
    }
  }

  lemma {:induction false} FieldMeanings(a: Fields, b: Fields, before: Order)
    requires WeakOrder(before) && FieldsTold(a, before) && ValidFields(a) && ValidFields(b) && FieldsOf(a) == FieldsOf(b)
    ensures Sort(StableFields(a, before), ByKey(before)) == Sort(StableFields(b, before), ByKey(before))
    decreases a, 0
  {
    hide WeakOrder, Stable, StableFields, FieldsOf, Sort;
    var p, q := StableFields(a, before), StableFields(b, before);
    forall e | e in p ensures e in q {
      var v := FieldText(a, before, e);
      FieldMeaning(a, e.0, v);
      var w := KeyOfMap(b, e.0, before);
      FieldMeaning(b, e.0, w);
      FieldTold(a, e.0, v, before);
      MeaningDecides(v, w, before);
    }
    forall e | e in q ensures e in p {
      var w := FieldText(b, before, e);
      FieldMeaning(b, e.0, w);
      var v := KeyOfMap(a, e.0, before);
      FieldMeaning(a, e.0, v);
      FieldTold(a, e.0, v, before);
      MeaningDecides(v, w, before);
    }
    EntriesTold(a, before);
    DistinctEntries(a, before);
    DistinctEntries(b, before);
    SortedAlike(p, q, before);
  }

  // Two lists of the same entries, with distinct keys, sort to one list.
  lemma SortedAlike(p: seq<(Text, Text)>, q: seq<(Text, Text)>, before: Order)
    requires WeakOrder(before) && Distinct(p) && Distinct(q)
    requires forall d, e :: d in p && e in p && d.0 != e.0 ==> before(d.0, e.0) || before(e.0, d.0)
    requires forall e :: e in p <==> e in q
    requires forall d, e :: d in p && e in p && d.0 == e.0 ==> d == e
    ensures Sort(p, ByKey(before)) == Sort(q, ByKey(before))
  {
    var less := ByKey(before);
    assert Elements(p) == Elements(q);
    assert StrictOrderOn(less, Elements(p)) by {
      forall x, y, z | before(x, y) && before(y, z) ensures before(x, z) { assert before(y, z) ==> before(y, x) || before(x, z); }
    }
    SortAscending(p, less);
    SortAscending(q, less);
    SortMembers(p, less);
    SortMembers(q, less);
    assert Elements(Sort(p, less)) == Elements(p) == Elements(Sort(q, less));
    AscendingUnique(Sort(p, less), Sort(q, less), less);
  }

  // Two JSON values serialize alike exactly when they are equal up to the order of object keys, as long as the order of
  // keys tells those of one object apart.
  lemma StableExactly(a: Json, b: Json, before: Order)
    requires WeakOrder(before) && KeysTold(a, before) && Valid(a) && Valid(b)
    ensures Stable(a, before) == Stable(b, before) <==> MeaningOf(a) == MeaningOf(b)
  {
    hide WeakOrder, KeysTold, Stable, MeaningOf;
    if Stable(a, before) == Stable(b, before) { TextDecides(a, b, before); }
    if MeaningOf(a) == MeaningOf(b) { MeaningDecides(a, b, before); }
  }

  function Pair(key: Text, other: Text): Json {
    Object(Field(key, Null, Field(other, Null, NoFields)))
  }

  // Keys that compare as equal keep their insertion order: the same object written the other way has another text.
  lemma TiedKeysKeepOrder(key: Text, other: Text, before: Order)
    requires key != other && !before(key, other) && !before(other, key)
    ensures MeaningOf(Pair(key, other)) == MeaningOf(Pair(other, key)) && Valid(Pair(key, other)) && Valid(Pair(other, key))
    ensures Stable(Pair(key, other), before) != Stable(Pair(other, key), before)
  {
    hide Stable, ObjectEntries, Pair, MeaningOf, Entry, Splits;
    var a, b := Pair(key, other), Pair(other, key);
    PairMeaning(key, other);
    PairMeaning(other, key);
    PairEntries(key, other, before);
    PairEntries(other, key, before);
    if Stable(a, before) == Stable(b, before) {
      SameEntryTexts(a, b, before);
      FieldsSplit(a.fields, b.fields, before);
      assert (key, NULL) in StableFields(a.fields, before) && (other, NULL) in StableFields(b.fields, before);
      assert ObjectEntries(a.fields, before)[0] == Entry((key, NULL)) && ObjectEntries(b.fields, before)[0] == Entry((other, NULL));
      EntriesSplit((key, NULL), (other, NULL));
    }
  }

  lemma SameEntryTexts(a: Json, b: Json, before: Order)
    requires a.Object? && b.Object? && Valid(a) && Valid(b) && Stable(a, before) == Stable(b, before)
    ensures ObjectEntries(a.fields, before) == ObjectEntries(b.fields, before)
  {
    hide Stable, ObjectEntries;
    assert Stable(a, before) + [] == Stable(b, before) + [];
    ObjectTexts(a, [], b, [], before);
    FieldsSplit(a.fields, b.fields, before);
    JoinedSplits(ObjectEntries(a.fields, before), [], ObjectEntries(b.fields, before), [], RIGHT_BRACE);
  }

  lemma PairMeaning(key: Text, other: Text)
    requires key != other
    ensures Pair(key, other).Object? && Valid(Pair(key, other))
    ensures MeaningOf(Pair(key, other)) == MObject(map[key := MNull, other := MNull])
  {
    var l := Field(other, Null, NoFields);
    assert FieldsOf(NoFields) == map[] && ValidFields(NoFields);
    assert l.rest == NoFields && !HasKey(NoFields, key) && !HasKey(NoFields, other);
    assert FieldsOf(l) == map[other := MNull] && ValidFields(l);
    assert HasKey(l, key) <==> l.key == key || HasKey(l.rest, key);
    assert FieldsOf(Field(key, Null, l)) == map[other := MNull][key := MNull];
  }

  lemma PairEntries(key: Text, other: Text, before: Order)
    requires !before(other, key)
    ensures Pair(key, other).Object?
    ensures StableFields(Pair(key, other).fields, before) == [(key, NULL), (other, NULL)]
    ensures ObjectEntries(Pair(key, other).fields, before) == [Entry((key, NULL)), Entry((other, NULL))]
  {
    hide Entry;
    var d, e := (key, NULL), (other, NULL);
    var less := ByKey(before);
    var none: seq<(Text, Text)>, one, two := [], [e], [d, e];
    assert StableFields(NoFields, before) == none;
    assert StableFields(Field(other, Null, NoFields), before) == one;
    assert StableFields(Field(key, Null, Field(other, Null, NoFields)), before) == two;
    assert two[1..] == one && one[1..] == none && Sort(none, less) == none;
    assert Sort(one, less) == one;
    assert Sort(two, less) == two;
    assert EntryTexts(two) == [Entry(d), Entry(e)];
  }

  lemma {:induction false} AllTold(v: Json, before: Order)
    requires forall k, l :: k != l ==> before(k, l) || before(l, k)
    requires Valid(v)
    ensures KeysTold(v, before)
    decreases v, 1
  {
    match v {
      case Array(items) => AllItemsTold(items, before);
      case Object(fields) => AllFieldsTold(fields, before);
      case _ =>
    }
  }

  lemma {:induction false} AllItemsTold(items: Items, before: Order)
    requires forall k, l :: k != l ==> before(k, l) || before(l, k)
    requires ValidItems(items)
    ensures ItemsTold(items, before)
    decreases items, 0
  {
    if items.Item? {
      AllTold(items.head, before);
      AllItemsTold(items.tail, before);
    }
  }

  lemma {:induction false} AllFieldsTold(f: Fields, before: Order)
    requires forall k, l :: k != l ==> before(k, l) || before(l, k)
    requires ValidFields(f)
    ensures FieldsTold(f, before)
    decreases f, 0
  {
    if f.Field? {
      AllTold(f.value, before);
      AllFieldsTold(f.rest, before);
    }
  }

  // The order of keys makes serialization a function of the meaning exactly when it tells all keys apart.
  lemma OrderDecides(before: Order)
    requires WeakOrder(before)
    ensures (forall a, b :: Valid(a) && Valid(b) && MeaningOf(a) == MeaningOf(b) ==> Stable(a, before) == Stable(b, before)) <==>
            forall k, l :: k != l ==> before(k, l) || before(l, k)
  {
    hide Stable, MeaningOf, Valid;
    if forall k, l :: k != l ==> before(k, l) || before(l, k) {
      forall a, b | Valid(a) && Valid(b) && MeaningOf(a) == MeaningOf(b) ensures Stable(a, before) == Stable(b, before) {
        AllTold(a, before);
        MeaningDecides(a, b, before);
      }
    } else {
      var k, l :| k != l && !before(k, l) && !before(l, k);
      TiedKeysKeepOrder(k, l, before);
    }
  }

  // ---- Canonical records ----

  // `Object.fromEntries(Object.entries(record).filter(([key]) => key !== excluded))`
  function Without(f: Fields, excluded: Text): Fields {
    match f
    case NoFields => NoFields
    case Field(key, value, rest) =>
      if key == excluded then Without(rest, excluded) else Field(key, value, Without(rest, excluded))
  }

  lemma {:induction false} WithoutValid(f: Fields, excluded: Text)
    requires ValidFields(f)
    ensures ValidFields(Without(f, excluded))
    ensures forall key :: HasKey(Without(f, excluded), key) <==> HasKey(f, key) && key != excluded
    ensures FieldsOf(Without(f, excluded)) == FieldsOf(f) - {excluded}
    ensures forall key :: key in FieldsOf(f) <==> HasKey(f, key)
  {
    if f.Field? {
      WithoutValid(f.rest, excluded);
    }
  }

  // Two records have one canonical serialization, and are merged, exactly when they differ at most in the identifier.
  lemma CanonicalExactly(a: Fields, b: Fields, identifier: Text, before: Order)
    requires WeakOrder(before) && ValidFields(a) && ValidFields(b) && KeysTold(Object(Without(a, identifier)), before)
    ensures Stable(Object(Without(a, identifier)), before) == Stable(Object(Without(b, identifier)), before) <==>
            FieldsOf(a) - {identifier} == FieldsOf(b) - {identifier}
  {
    hide WeakOrder, Stable, FieldsOf;
    WithoutValid(a, identifier);
    WithoutValid(b, identifier);
    StableExactly(Object(Without(a, identifier)), Object(Without(b, identifier)), before);
  }
}
