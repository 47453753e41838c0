// The merge of model records as JSON objects: the plan is made over their canonical serializations.
module FieldMerge {
  import opened Sorting
  import opened Texts
  import opened Groups
  import opened StableJson
  import opened JsonCanonical
  import opened CanonicalMerge

  // How a kind of record is read: the name of its identifier field, the order of keys, and the document and the citations
  // as functions of the other fields.
  datatype Schema = Schema(
    identifier: Text, before: Order, document: map<Text, Meaning> -> string, citations: map<Text, Meaning> -> seq<Citation>)

  // `publicRecordId`
  function PublicId(sch: Schema, f: Fields): Text {
    var fields := FieldsOf(f);
    if sch.identifier in fields && fields[sch.identifier].MString? then fields[sch.identifier].s else []
  }

  // `canonicalModelRecordSerialization`
  function Serialized(sch: Schema, f: Fields): Text {
    Stable(Object(Without(f, sch.identifier)), sch.before)
  }

  function OtherFields(sch: Schema, f: Fields): map<Text, Meaning> { FieldsOf(f) - {sch.identifier} }

  function AsRecord(sch: Schema, f: Fields): Record {
    var fields := OtherFields(sch, f);
    Record(PublicId(sch, f), Content(sch.document(fields), sch.citations(fields), Serialized(sch, f)))
  }

  // `{ ...record, [identifier]: id }`
  function WithId(sch: Schema, f: Fields, id: Text): Fields {
    match f
    case NoFields => Field(sch.identifier, String(id), NoFields)
    case Field(key, value, rest) =>
      if key == sch.identifier then Field(key, String(id), rest) else Field(key, value, WithId(sch, rest, id))
  }

  ghost predicate Readable(sch: Schema, f: Fields) {
    ValidFields(f) && KeysTold(Object(Without(f, sch.identifier)), sch.before)
  }

  // ---- Contents are serializations ----

  // Two records have one content exactly when their canonical serializations are equal.
  lemma ContentIsSerialization(sch: Schema, f: Fields, g: Fields)
    requires ValidFields(f) && ValidFields(g)
    ensures AsRecord(sch, f).content == AsRecord(sch, g).content <==> Serialized(sch, f) == Serialized(sch, g)
  {
    hide Stable, FieldsOf, ValidFields, Without;
    if Serialized(sch, f) == Serialized(sch, g) {
      SerializedFields(sch, f);
      SerializedFields(sch, g);
      TextDecides(Object(Without(f, sch.identifier)), Object(Without(g, sch.identifier)), sch.before);
      ObjectMeaning(Without(f, sch.identifier));
      ObjectMeaning(Without(g, sch.identifier));
    }
  }

  lemma SerializedFields(sch: Schema, f: Fields)
    requires ValidFields(f)
    ensures Valid(Object(Without(f, sch.identifier))) && FieldsOf(Without(f, sch.identifier)) == OtherFields(sch, f)
  {
    WithoutValid(f, sch.identifier);
  }

  lemma ObjectMeaning(f: Fields)
    ensures MeaningOf(Object(f)) == MObject(FieldsOf(f))
  {
  }

  lemma ContentIsFields(sch: Schema, f: Fields, g: Fields)
    requires WeakOrder(sch.before) && Readable(sch, f) && ValidFields(g)
    ensures AsRecord(sch, f).content == AsRecord(sch, g).content <==> OtherFields(sch, f) == OtherFields(sch, g)
  {
    hide WeakOrder, Stable, FieldsOf, ValidFields, KeysTold, Without;
    ContentIsSerialization(sch, f, g);
    CanonicalExactly(f, g, sch.identifier, sch.before);
  }

  // Giving a record another identifier changes nothing else of it.
  lemma {:induction false} WithIdKeeps(sch: Schema, f: Fields, id: Text)
    requires ValidFields(f)
    ensures ValidFields(WithId(sch, f, id)) && Without(WithId(sch, f, id), sch.identifier) == Without(f, sch.identifier)
    ensures FieldsOf(WithId(sch, f, id)) == FieldsOf(f)[sch.identifier := MString(id)]
    ensures forall key :: HasKey(WithId(sch, f, id), key) <==> HasKey(f, key) || key == sch.identifier
  {
    if f.Field? {
      WithoutAbsent(f.rest, sch.identifier);
      WithIdKeeps(sch, f.rest, id);
    }
  }

  lemma {:induction false} WithoutAbsent(f: Fields, key: Text)
    requires ValidFields(f)
    ensures !HasKey(f, key) ==> Without(f, key) == f
  {
    if f.Field? { WithoutAbsent(f.rest, key); }
  }

  lemma RenamedRecord(sch: Schema, f: Fields, id: Text)
    requires ValidFields(f)
    ensures ValidFields(WithId(sch, f, id)) && AsRecord(sch, WithId(sch, f, id)) == AsRecord(sch, f).(id := id)
  {
    hide Stable, FieldsOf, ValidFields, Without, WithId;
    WithIdKeeps(sch, f, id);
    assert FieldsOf(f)[sch.identifier := MString(id)] - {sch.identifier} == FieldsOf(f) - {sch.identifier};
  }

  // ---- Groups and representatives on both sides ----

  function Map<T, U>(s: seq<T>, h: T -> U): (r: seq<U>)
    ensures |r| == |s| && forall i :: 0 <= i < |s| ==> r[i] == h(s[i])
  {
    seq(|s|, i requires 0 <= i < |s| => h(s[i]))
  }

  lemma MapStep<T, U>(x: T, s: seq<T>, h: T -> U)
    ensures Map([x] + s, h) == [h(x)] + Map(s, h)
  {
  }

  lemma FilterStep<T(!new)>(s: seq<T>, p: T -> bool)
    requires s != []
    ensures Filter(s, p) == if p(s[0]) then [s[0]] + Filter(s[1..], p) else Filter(s[1..], p)
  {
  }

  lemma {:induction false} FilterMap<T(!new), U(!new)>(s: seq<T>, h: T -> U, p: T -> bool, q: U -> bool)
    requires forall x :: x in s ==> p(x) == q(h(x))
    ensures Map(Filter(s, p), h) == Filter(Map(s, h), q)
  {
    if s == [] {
      assert Map(s, h) == [];
    } else {
      hide Map, Filter;
      var x, rest := s[0], s[1..];
      assert s == [x] + rest && x in s;
      assert forall y :: y in rest ==> y in s;
      FilterMap(rest, h, p, q);
      MapStep(x, rest, h);
      MapStep(x, Filter(rest, p), h);
      FilterStep(s, p);
      FilterStep(Map(s, h), q);
      assert Map(s, h)[1..] == Map(rest, h);
    }
  }

  lemma MapHead<T, U>(s: seq<T>, h: T -> U)
    requires s != []
    ensures Map(s, h) != [] && Map(s, h)[0] == h(s[0]) && s[0] in s
  {
  }

  lemma OneMoreGroup<T, U, K, L>(h: T -> U, k: K, l: L, front: seq<T>, back: Grouped<K, T>, others: Grouped<L, U>)
    requires |back| == |others| && forall i :: 0 <= i < |back| ==> Map(back[i].1, h) == others[i].1
    ensures
      var s, t := [(k, front)] + back, [(l, Map(front, h))] + others;
      |s| == |t| && forall i :: 0 <= i < |s| ==> Map(s[i].1, h) == t[i].1
  {
    hide Map;
  }

  // Keys that tell the same elements apart give the same groups.
  lemma {:induction false} GroupMap<T(!new), U(!new), K, L>(s: seq<T>, h: T -> U, key: T -> K, other: U -> L)
    requires forall x, y :: x in s && y in s ==> (key(x) == key(y)) == (other(h(x)) == other(h(y)))
    ensures |GroupBy(s, key)| == |GroupBy(Map(s, h), other)|
    ensures forall i :: 0 <= i < |GroupBy(s, key)| ==> Map(GroupBy(s, key)[i].1, h) == GroupBy(Map(s, h), other)[i].1
    decreases |s|
  {
    if s == [] {
      assert Map(s, h) == [] && GroupBy(s, key) == [];
    } else {
      hide GroupBy, Map, Filter;
      MapHead(s, h);
      var k, l := key(s[0]), other(h(s[0]));
      var rest := Filter(s, (x: T) => key(x) != k);
      Shrinks(s, key);
      FilterMap(s, h, (x: T) => key(x) == k, (u: U) => other(u) == l);
      FilterMap(s, h, (x: T) => key(x) != k, (u: U) => other(u) != l);
      GroupMap(rest, h, key, other);
      GroupHead(s, key);
      GroupHead(Map(s, h), other);
      var front, back := Filter(s, (x: T) => key(x) == k), GroupBy(rest, key);
      var others := GroupBy(Map(rest, h), other);
      assert GroupBy(s, key) == [(k, front)] + back;
      assert GroupBy(Map(s, h), other) == [(l, Map(front, h))] + others;
      OneMoreGroup(h, k, l, front, back, others);
    }
  }

  lemma GroupHead<T(!new), K>(s: seq<T>, key: T -> K)
    requires s != []
    ensures GroupBy(s, key) == [(key(s[0]), Filter(s, (x: T) => key(x) == key(s[0])))] + GroupBy(Filter(s, (x: T) => key(x) != key(s[0])), key)
  {
  }

  lemma InsertStep<T(!new)>(s: seq<T>, x: T, less: (T, T) -> bool)
    requires s != []
    ensures Insert(s, x, less) == if less(s[0], x) then [s[0]] + Insert(s[1..], x, less) else [x] + s
  {
  }

  lemma {:induction false} InsertMap<T(!new), U(!new)>(s: seq<T>, x: T, h: T -> U, less: (T, T) -> bool, other: (U, U) -> bool)
    requires forall a, b :: less(a, b) == other(h(a), h(b))
    ensures Map(Insert(s, x, less), h) == Insert(Map(s, h), h(x), other)
  {
    if s == [] {
      assert Map(s, h) == [] && Map([x], h) == [h(x)];
    } else {
      hide Map, Insert;
      var y, rest := s[0], s[1..];
      assert s == [y] + rest;
      InsertMap(rest, x, h, less, other);
      MapStep(y, rest, h);
      MapStep(y, Insert(rest, x, less), h);
      MapStep(x, s, h);
      InsertStep(s, x, less);
      InsertStep(Map(s, h), h(x), other);
      assert Map(s, h)[1..] == Map(rest, h) && less(y, x) == other(h(y), h(x));
    }
  }

  lemma {:induction false} SortMap<T(!new), U(!new)>(s: seq<T>, h: T -> U, less: (T, T) -> bool, other: (U, U) -> bool)
    requires forall a, b :: less(a, b) == other(h(a), h(b))
    ensures Map(Sort(s, less), h) == Sort(Map(s, h), other)
  {
    if s != [] {
      assert Map(s, h)[1..] == Map(s[1..], h);
      SortMap(s[1..], h, less, other);
      InsertMap(Sort(s[1..], less), s[0], h, less, other);
    }
  }

  function Reader(sch: Schema): Fields -> Record { (f: Fields) => AsRecord(sch, f) }

  function ByText(sch: Schema): Fields -> Text { (f: Fields) => Serialized(sch, f) }

  function ById(naming: Naming, sch: Schema): (Fields, Fields) -> bool {
    (f: Fields, g: Fields) => naming.before(PublicId(sch, f), PublicId(sch, g))
  }

  ghost predicate AllValid(records: seq<Fields>) {
    forall f :: f in records ==> ValidFields(f)
  }

  lemma SameGroups(sch: Schema, records: seq<Fields>)
    requires AllValid(records)
    ensures
      var groups, others := GroupBy(records, ByText(sch)), GroupBy(Map(records, Reader(sch)), ContentOf);
      && |groups| == |others|
      && forall i :: 0 <= i < |groups| ==> Map(groups[i].1, Reader(sch)) == others[i].1
  {
    hide GroupBy, AsRecord, Serialized, ValidFields;
    forall f, g | f in records && g in records
      ensures (ByText(sch)(f) == ByText(sch)(g)) == (ContentOf(Reader(sch)(f)) == ContentOf(Reader(sch)(g)))
    {
      ContentIsSerialization(sch, f, g);
    }
    GroupMap(records, Reader(sch), ByText(sch), ContentOf);
  }

  function FirstById(naming: Naming, sch: Schema, group: seq<Fields>): (f: Fields)
    requires group != []
    ensures f in group
  {
    SortMembers(group, ById(naming, sch));
    Sort(group, ById(naming, sch))[0]
  }

  lemma SameRepresentative(naming: Naming, sch: Schema, group: seq<Fields>)
    requires group != []
    ensures AsRecord(sch, FirstById(naming, sch, group)) == Representative(naming, Map(group, Reader(sch)))
  {
    hide AsRecord, PublicId;
    forall f, g ensures ById(naming, sch)(f, g) == Less(naming)(Reader(sch)(f), Reader(sch)(g)) {
      IdOfRecord(sch, f);
      IdOfRecord(sch, g);
    }
    SortMap(group, Reader(sch), ById(naming, sch), Less(naming));
    SortMembers(group, ById(naming, sch));
  }

  lemma IdOfRecord(sch: Schema, f: Fields)
    ensures AsRecord(sch, f).id == PublicId(sch, f)
    ensures AsRecord(sch, f).content.serialization == Serialized(sch, f)
  {
  }

  // ---- The plan ----

  datatype MergedFields = MergedFields(serialization: Text, mergedId: Text, record: Fields)

  // The item on fields is the item on records.
  ghost predicate Stands(sch: Schema, item: MergedFields, m: Merge) {
    && ValidFields(item.record) && AsRecord(sch, item.record) == m.record
    && item.mergedId == m.mergedId && item.serialization == m.content.serialization
  }

  lemma GroupText(sch: Schema, records: seq<Fields>, i: nat)
    requires AllValid(records) && i < |GroupBy(records, ByText(sch))|
    ensures
      var groups, others := GroupBy(records, ByText(sch)), GroupBy(Map(records, Reader(sch)), ContentOf);
      && |groups| == |others| && groups[i].1 != [] && others[i].1 == Map(groups[i].1, Reader(sch))
      && others[i].0.serialization == groups[i].0
      && forall f :: f in groups[i].1 ==> f in records
  {
    hide GroupBy, AsRecord, Serialized, ValidFields;
    SameGroups(sch, records);
    var groups, others := GroupBy(records, ByText(sch)), GroupBy(Map(records, Reader(sch)), ContentOf);
    GroupExact(records, ByText(sch), i);
    GroupExact(Map(records, Reader(sch)), ContentOf, i);
    var f := groups[i].1[0];
    assert f in groups[i].1 && ByText(sch)(f) == groups[i].0;
    assert others[i].1[0] in others[i].1 && others[i].1[0] == Reader(sch)(f);
    IdOfRecord(sch, f);
  }

  method BasesOfGroups(naming: Naming, sch: Schema, records: seq<Fields>, groups: Grouped<Text, Fields>) returns (bases: seq<Text>)
    requires AllValid(records) && groups == GroupBy(records, ByText(sch))
    ensures |groups| == |Plan(naming, Map(records, Reader(sch)))|
    ensures bases == Bases(naming, Map(records, Reader(sch)))
  {
    hide GroupBy, Plan, Bases, AsRecord, AllValid, Serialized, PublicId, FirstById;
    SameGroups(sch, records);
    PlanSize(naming, Map(records, Reader(sch)));
    bases := [];
    for i := 0 to |groups|
      invariant |bases| == i
      invariant forall j :: 0 <= j < i ==> bases[j] == Bases(naming, Map(records, Reader(sch)))[j]
    {
      BaseOfGroup(naming, sch, records, i);
      bases := bases + [PublicId(sch, FirstById(naming, sch, groups[i].1))];
    }
  }

  method PlanFieldMerge(naming: Naming, sch: Schema, records: seq<Fields>) returns (plan: seq<MergedFields>)
    requires AllValid(records)
    ensures |plan| == |Plan(naming, Map(records, Reader(sch)))|
    ensures forall i :: 0 <= i < |plan| ==> Stands(sch, plan[i], Plan(naming, Map(records, Reader(sch)))[i])
  {
    hide GroupBy, Plan, Bases, AsRecord, AllValid, Stands, Serialized, PublicId, WithId, FirstById, DigestPiece, Prefix, Map;
    var groups := Collect(records, ByText(sch));
    var bases := BasesOfGroups(naming, sch, records, groups);
    var counts := CountBaseIds(bases);
    ghost var all := Map(records, Reader(sch));
    plan := [];
    for i := 0 to |groups|
      invariant |plan| == i
      invariant forall j :: 0 <= j < i ==> Stands(sch, plan[j], Plan(naming, all)[j])
    {
      BaseOfGroup(naming, sch, records, i);
      var first := FirstById(naming, sch, groups[i].1);
      assert bases[i] in bases;
      var mergedId := if counts[bases[i]] == 1 then bases[i] else Prefix(bases[i]) + [TILDE] + DigestPiece(naming, sch, first);
      var item := MergedFields(groups[i].0, mergedId, WithId(sch, first, mergedId));
      ItemStands(naming, sch, records, i, item);
      plan := plan + [item];
    }
  }

  // The first 16 digits of the digest of the serialization.
  function DigestPiece(naming: Naming, sch: Schema, f: Fields): Text {
    naming.tag(AsRecord(sch, f).content)
  }

  lemma PlanSize(naming: Naming, records: seq<Record>)
    ensures |Plan(naming, records)| == |GroupBy(records, ContentOf)| == |Bases(naming, records)|
  {
    hide GroupBy;
  }

  lemma BaseOfGroup(naming: Naming, sch: Schema, records: seq<Fields>, i: nat)
    requires AllValid(records) && i < |GroupBy(records, ByText(sch))|
    ensures
      var group := GroupBy(records, ByText(sch))[i].1;
      && group != [] && i < |Bases(naming, Map(records, Reader(sch)))|
      && PublicId(sch, FirstById(naming, sch, group)) == Bases(naming, Map(records, Reader(sch)))[i]
  {
    hide GroupBy, AsRecord, Serialized, PublicId, FirstById, Representative;
    GroupText(sch, records, i);
    var group := GroupBy(records, ByText(sch))[i].1;
    GroupsNonEmpty(Map(records, Reader(sch)), ContentOf);
    SameRepresentative(naming, sch, group);
    IdOfRecord(sch, FirstById(naming, sch, group));
  }

  lemma ItemStands(naming: Naming, sch: Schema, records: seq<Fields>, i: nat, item: MergedFields)
    requires AllValid(records) && i < |GroupBy(records, ByText(sch))| && GroupBy(records, ByText(sch))[i].1 != []
    requires i < |Bases(naming, Map(records, Reader(sch)))| && i < |Plan(naming, Map(records, Reader(sch)))|
    requires
      var group, bases := GroupBy(records, ByText(sch))[i], Bases(naming, Map(records, Reader(sch)));
      var first := FirstById(naming, sch, group.1);
      && item.serialization == group.0
      && item.mergedId == (if multiset(bases)[bases[i]] == 1 then bases[i]
                           else Prefix(bases[i]) + [TILDE] + DigestPiece(naming, sch, first))
      && item.record == WithId(sch, first, item.mergedId)
    ensures Stands(sch, item, Plan(naming, Map(records, Reader(sch)))[i])
  {
    hide GroupBy, AsRecord, Serialized, PublicId, FirstById, Representative, WithId, Bases, ValidFields;
    GroupText(sch, records, i);
    var group := GroupBy(records, ByText(sch))[i].1;
    var first := FirstById(naming, sch, group);
    assert first in group;
    SameRepresentative(naming, sch, group);
    RenamedRecord(sch, first, item.mergedId);
    PlannedAs(naming, Map(records, Reader(sch)), i);
  }

  lemma PlannedAs(naming: Naming, records: seq<Record>, i: nat)
    requires i < |Plan(naming, records)|
    ensures
      var groups, bases := GroupBy(records, ContentOf), Bases(naming, records);
      && |groups| == |bases| == |Plan(naming, records)| && groups[i].1 != []
      && var first := Representative(naming, groups[i].1);
         var mergedId := MergedId(naming, bases, bases[i], groups[i].0);
         && bases[i] == first.id && first.content == groups[i].0
         && Plan(naming, records)[i] == Merge(groups[i].0, mergedId, first.(id := mergedId))
  {
    hide GroupBy, Representative, MergedId;
    GroupExact(records, ContentOf, i);
    var groups := GroupBy(records, ContentOf);
    assert ContentOf(Representative(naming, groups[i].1)) == groups[i].0;
  }

  // Two records are merged together exactly when their fields agree but for the identifier.
  lemma FieldsMergedExactly(naming: Naming, sch: Schema, records: seq<Fields>, f: Fields, g: Fields)
    requires WeakOrder(sch.before) && AllValid(records) && f in records && g in records && Readable(sch, f)
    ensures MergedTogether(naming, Map(records, Reader(sch)), AsRecord(sch, f), AsRecord(sch, g)) <==>
            OtherFields(sch, f) == OtherFields(sch, g)
  {
    hide WeakOrder, Readable, AsRecord, OtherFields, MergedTogether, ValidFields;
    var all := Map(records, Reader(sch));
    var i :| 0 <= i < |records| && records[i] == f;
    var j :| 0 <= j < |records| && records[j] == g;
    assert all[i] == AsRecord(sch, f) && all[j] == AsRecord(sch, g);
    ContentIsFields(sch, f, g);
    MergesExactlyEqualContents(naming, all, AsRecord(sch, f), AsRecord(sch, g));
  }
}
