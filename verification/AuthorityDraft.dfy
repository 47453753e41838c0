// The manifest against the draft that `mergeDrafts` builds from the same batches.
module AuthorityDraft {
  import opened Sorting
  import opened Texts
  import opened CanonicalMerge
  import opened RecordAuthority
  import opened AuthorityManifest
  import opened AuthorityBookkeeping
  import opened AuthorityTheorem
  import opened AuthorityCorollaries

  function DraftsOf(batches: seq<Batch>): seq<Draft> {
    seq(|batches|, i requires 0 <= i < |batches| => batches[i].draft)
  }

  // ---- Both sides merge the same records ----

  lemma {:induction false} OriginsAppend(s: seq<Origin>, t: seq<Origin>, kind: Kind)
    ensures OfKind(s + t, kind) == OfKind(s, kind) + OfKind(t, kind)
  {
    FilterAppend(s, t, (o: Origin) => o.key.kind == kind);
  }

  function ItemOrigins(e: Evidence, b: Batch, items: seq<Item>): seq<Origin> {
    seq(|items|, i requires 0 <= i < |items| => OriginOf(e, b, items[i]))
  }

  lemma KindItems(e: Evidence, b: Batch, k: Kind, records: seq<Record>, kind: Kind)
    ensures RecordsOf(OfKind(ItemOrigins(e, b, Items(k, records)), kind)) == if k == kind then records else []
  {
    hide OriginOf;
    var origins := ItemOrigins(e, b, Items(k, records));
    forall i | 0 <= i < |origins| ensures origins[i].key.kind == k && origins[i].key.content == records[i].content && origins[i].id == records[i].id {
      KeyOfOrigin(e, b, Items(k, records)[i]);
    }
    if k == kind {
      FilterAll(origins, (o: Origin) => o.key.kind == kind);
    } else {
      FilterNone(origins, (o: Origin) => o.key.kind == kind);
    }
  }

  lemma BatchRecords(e: Evidence, b: Batch, kind: Kind)
    ensures RecordsOf(OfKind(BatchOrigins(e, b), kind)) == RecordsOfKind(b.draft, kind)
  {
    hide OriginOf, OfKind, RecordsOf;
    var d := b.draft;
    var c, q, r, u := Items(Claim, d.claims), Items(Requirement, d.requirements), Items(Risk, d.risks), Items(Rule, d.rules);
    var oc, oq, oR, ou := ItemOrigins(e, b, c), ItemOrigins(e, b, q), ItemOrigins(e, b, r), ItemOrigins(e, b, u);
    assert BatchOrigins(e, b) == oc + oq + oR + ou;
    OriginsAppend(oc + oq + oR, ou, kind);
    OriginsAppend(oc + oq, oR, kind);
    OriginsAppend(oc, oq, kind);
    KindItems(e, b, Claim, d.claims, kind);
    KindItems(e, b, Requirement, d.requirements, kind);
    KindItems(e, b, Risk, d.risks, kind);
    KindItems(e, b, Rule, d.rules, kind);
    RecordsAppend(OfKind(oc, kind) + OfKind(oq, kind) + OfKind(oR, kind), OfKind(ou, kind));
    RecordsAppend(OfKind(oc, kind) + OfKind(oq, kind), OfKind(oR, kind));
    RecordsAppend(OfKind(oc, kind), OfKind(oq, kind));
  }

  lemma RecordsAppend(s: seq<Origin>, t: seq<Origin>)
    ensures RecordsOf(s + t) == RecordsOf(s) + RecordsOf(t)
  {
  }

  lemma {:induction false} SameRecords(e: Evidence, batches: seq<Batch>, kind: Kind)
    ensures RecordsOf(OfKind(Origins(e, batches), kind)) == Flat(DraftsOf(batches), kind)
  {
    hide OfKind, RecordsOf, BatchOrigins;
    if batches == [] {
      assert RecordsOf(OfKind([], kind)) == [] by { NoRecords(kind); }
    } else {
      var n := |batches|;
      SameRecords(e, batches[..n - 1], kind);
      BatchRecords(e, batches[n - 1], kind);
      OriginsAppend(Origins(e, batches[..n - 1]), BatchOrigins(e, batches[n - 1]), kind);
      RecordsAppend(OfKind(Origins(e, batches[..n - 1]), kind), OfKind(BatchOrigins(e, batches[n - 1]), kind));
      assert DraftsOf(batches)[..n - 1] == DraftsOf(batches[..n - 1]);
    }
  }

  lemma NoRecords(kind: Kind)
    ensures RecordsOf(OfKind([], kind)) == []
  {
  }

  // ---- Rows of the merged draft ----

  // A row of the merged draft is the content of some origin under its merged identifier.
  lemma DraftRowOrigin(naming: Naming, e: Evidence, batches: seq<Batch>, d: Draft, row: (Kind, Text, Content)) returns (o: Origin)
    requires MergeDrafts(naming, DraftsOf(batches)) == Some(d)
    requires row in DraftRows(d)
    ensures o in Origins(e, batches) && row == (o.key.kind, IdFor(naming, Origins(e, batches), o.key), o.key.content)
  {
    hide Plan, Origins, IdFor, OfKind, RecordsOf, Flat;
    var kind := row.0;
    var origins := Origins(e, batches);
    SameRecords(e, batches, kind);
    var records := Flat(DraftsOf(batches), kind);
    var plan := Plan(naming, records);
    var k := RowPlace(naming, d, DraftsOf(batches), row);
    var r := ItemKeepsContent(naming, records, k);
    o := RecordOrigin(origins, kind, r);
    var i := PlannedId(naming, origins, o);
    if i < k { ContentsDistinct(naming, records, i, k); }
    if k < i { ContentsDistinct(naming, records, k, i); }
  }

  lemma RowPlace(naming: Naming, d: Draft, drafts: seq<Draft>, row: (Kind, Text, Content)) returns (k: nat)
    requires MergeDrafts(naming, drafts) == Some(d)
    requires row in DraftRows(d)
    ensures
      var plan := Plan(naming, Flat(drafts, row.0));
      k < |plan| && plan[k].record == Record(row.1, row.2)
  {
    hide Plan, Flat;
    var items := RecordsIn(d);
    var i :| 0 <= i < |items| && DraftRows(d)[i] == row;
    k := items[i].ordinal;
  }

  lemma OriginDraftRow(naming: Naming, e: Evidence, batches: seq<Batch>, d: Draft, o: Origin)
    requires MergeDrafts(naming, DraftsOf(batches)) == Some(d)
    requires o in Origins(e, batches)
    ensures (o.key.kind, IdFor(naming, Origins(e, batches), o.key), o.key.content) in DraftRows(d)
  {
    hide Plan, Origins, IdFor, OfKind, RecordsOf, Flat;
    SameRecords(e, batches, o.key.kind);
    var records := Flat(DraftsOf(batches), o.key.kind);
    var i := PlannedId(naming, Origins(e, batches), o);
    var r := ItemKeepsContent(naming, records, i);
    PlaceInDraft(naming, d, DraftsOf(batches), o.key.kind, i);
  }

  lemma PlaceInDraft(naming: Naming, d: Draft, drafts: seq<Draft>, kind: Kind, k: nat)
    requires MergeDrafts(naming, drafts) == Some(d)
    requires k < |Plan(naming, Flat(drafts, kind))|
    ensures
      var r := Plan(naming, Flat(drafts, kind))[k].record;
      (kind, r.id, r.content) in DraftRows(d)
  {
    hide Plan, Flat;
    var items := RecordsIn(d);
    var offset :=
      match kind
      case Claim => 0
      case Requirement => |d.claims|
      case Risk => |d.claims| + |d.requirements|
      case Rule => |d.claims| + |d.requirements| + |d.risks|;
    assert items[offset + k] == Item(kind, k, Plan(naming, Flat(drafts, kind))[k].record);
    assert DraftRows(d)[offset + k] in DraftRows(d);
  }

  lemma DraftRowsDiffer(naming: Naming, d: Draft, drafts: seq<Draft>)
    requires MergeDrafts(naming, drafts) == Some(d)
    ensures AllDifferent(DraftRows(d))
  {
    hide Plan, Flat, RecordsIn, MergeDrafts;
    var items := RecordsIn(d);
    forall i, j | 0 <= i < j < |items| ensures DraftRows(d)[i] != DraftRows(d)[j] {
      PlannedItem(naming, d, drafts, i);
      PlannedItem(naming, d, drafts, j);
      if items[i].kind == items[j].kind {
        ItemsOrdered(d, i, j);
        ContentsDistinct(naming, Flat(drafts, items[i].kind), items[i].ordinal, items[j].ordinal);
      }
    }
  }

  lemma PlannedItem(naming: Naming, d: Draft, drafts: seq<Draft>, i: nat)
    requires MergeDrafts(naming, drafts) == Some(d) && i < |RecordsIn(d)|
    ensures
      var item := RecordsIn(d)[i];
      var plan := Plan(naming, Flat(drafts, item.kind));
      item.ordinal < |plan| && plan[item.ordinal].content == item.record.content
  {
    hide Plan, Flat;
    var item := RecordsIn(d)[i];
    var plan := Plan(naming, Flat(drafts, item.kind));
    assert item.ordinal < |plan| && plan[item.ordinal].record == item.record;
    var r := ItemKeepsContent(naming, Flat(drafts, item.kind), item.ordinal);
  }

  lemma ItemsOrdered(d: Draft, i: nat, j: nat)
    requires i < j < |RecordsIn(d)| && RecordsIn(d)[i].kind == RecordsIn(d)[j].kind
    ensures RecordsIn(d)[i].ordinal < RecordsIn(d)[j].ordinal
  {
  }

  lemma SameSetOfRows(s: seq<(Kind, Text, Content)>, t: seq<(Kind, Text, Content)>)
    requires AllDifferent(s) && AllDifferent(t)
    ensures SameRows(s, t) <==> forall x :: x in s <==> x in t
  {
    DistinctMultiplicity(s);
    DistinctMultiplicity(t);
    if forall x :: x in s <==> x in t {
      forall x ensures multiset(s)[x] == multiset(t)[x] {
        assert x in s <==> x in multiset(s);
        assert x in t <==> x in multiset(t);
      }
    }
    if SameRows(s, t) {
      forall x ensures x in s <==> x in t {
        assert x in s <==> x in multiset(s);
        assert x in t <==> x in multiset(t);
      }
    }
  }

  // ---- The manifest rows ----

  function Row(ids: Ids, o: Origin): (Kind, Text, Content) {
    (o.key.kind, ids(o.key), o.key.content)
  }

  lemma RecordRowOrigin(ids: Ids, origins: seq<Origin>, records: seq<Joined>, row: (Kind, Text, Content)) returns (o: Origin)
    requires Mirrors(records, JoinedGroups(ids, origins))
    requires row in RecordRows(records)
    ensures o in Kept(ids, origins) && row == Row(ids, o)
  {
    hide Kept, JoinedGroups;
    var i :| 0 <= i < |records| && RecordRows(records)[i] == row;
    o := JoinedGroups(ids, origins)[i].1[0];
    assert o in JoinedGroups(ids, origins)[i].1;
    GroupsFit(ids, origins);
    MembersKept(ids, origins, i, o);
  }

  lemma OriginRecordRow(ids: Ids, origins: seq<Origin>, records: seq<Joined>, o: Origin)
    requires Mirrors(records, JoinedGroups(ids, origins))
    requires IdsApart(ids, origins) && o in Kept(ids, origins)
    ensures Row(ids, o) in RecordRows(records)
  {
    hide Kept, JoinedGroups;
    var i := RecordOf(ids, origins, records, JoinedGroups(ids, origins), o);
    var head := JoinedGroups(ids, origins)[i].1[0];
    assert head in JoinedGroups(ids, origins)[i].1;
    GroupsFit(ids, origins);
    MembersKept(ids, origins, i, head);
    assert SameEntry(ids, o, head);
    assert SameContent(o, head);
    assert RecordRows(records)[i] in RecordRows(records);
  }

  // Every origin has a merged identifier. The draft schema guarantees it: public identifiers are not empty.
  ghost predicate NoneLost(ids: Ids, origins: seq<Origin>) {
    forall o :: o in origins ==> ids(o.key) != []
  }

  // Rows that list the merged origins.
  ghost predicate RowsOfOrigins(ids: Ids, origins: seq<Origin>, rows: seq<(Kind, Text, Content)>) {
    && AllDifferent(rows)
    && (forall o :: o in origins ==> Row(ids, o) in rows)
    && forall row :: row in rows ==> exists o :: o in origins && row == Row(ids, o)
  }

  // The rows agree exactly when no origin is lost and no two contents share an identifier.
  lemma RowsAgreeExactly(ids: Ids, origins: seq<Origin>, rows: seq<(Kind, Text, Content)>, records: seq<Joined>)
    requires RowsOfOrigins(ids, origins, rows)
    requires Mirrors(records, JoinedGroups(ids, origins))
    ensures SameRows(rows, RecordRows(records)) <==> NoneLost(ids, origins) && IdsApart(ids, origins)
  {
    hide JoinedGroups, IdsApart, Mirrors, Kept, SameRows;
    RecordKeysDiffer(ids, origins, records);
    RecordRowsDiffer(records);
    SameSetOfRows(rows, RecordRows(records));
    forall row | row in RecordRows(records) ensures row in rows && row.1 != [] {
      var o := RecordRowOrigin(ids, origins, records, row);
      KeptNamed(ids, origins, o);
    }
    if !NoneLost(ids, origins) {
      var o :| o in origins && ids(o.key) == [];
      assert Row(ids, o) in rows && Row(ids, o) !in RecordRows(records);
    } else if IdsApart(ids, origins) {
      forall row | row in rows ensures row in RecordRows(records) {
        var o :| o in origins && row == Row(ids, o);
        KeptNamed(ids, origins, o);
        OriginRecordRow(ids, origins, records, o);
      }
    } else {
      MixedRows(ids, origins, rows, records);
    }
  }

  lemma RecordRowsDiffer(records: seq<Joined>)
    requires AllDifferent(RecordKeys(records))
    ensures AllDifferent(RecordRows(records))
    ensures forall x, y :: x in RecordRows(records) && y in RecordRows(records) && x.0 == y.0 && x.1 == y.1 ==> x == y
  {
    forall i, j | 0 <= i < j < |records| ensures RecordRows(records)[i].0 != RecordRows(records)[j].0 || RecordRows(records)[i].1 != RecordRows(records)[j].1 {
      assert RecordKeys(records)[i] != RecordKeys(records)[j];
    }
  }

  // One joined record cannot stand for two contents.
  lemma MixedRows(ids: Ids, origins: seq<Origin>, rows: seq<(Kind, Text, Content)>, records: seq<Joined>)
    requires RowsOfOrigins(ids, origins, rows) && AllDifferent(RecordKeys(records))
    requires !IdsApart(ids, origins)
    ensures exists row :: row in rows && row !in RecordRows(records)
  {
    RecordRowsDiffer(records);
    var o, p :| o in Kept(ids, origins) && p in Kept(ids, origins) && SameEntry(ids, o, p) && !SameContent(o, p);
    assert Row(ids, o) in rows && Row(ids, p) in rows;
    assert Row(ids, o) !in RecordRows(records) || Row(ids, p) !in RecordRows(records);
  }

  lemma KeptNamed(ids: Ids, origins: seq<Origin>, o: Origin)
    ensures o in Kept(ids, origins) <==> o in origins && ids(o.key) != []
  {
  }

  lemma DraftListsOrigins(naming: Naming, e: Evidence, batches: seq<Batch>, d: Draft)
    requires MergeDrafts(naming, DraftsOf(batches)) == Some(d)
    ensures RowsOfOrigins(IdsOf(naming, Origins(e, batches)), Origins(e, batches), DraftRows(d))
  {
    hide IdFor, Origins, MergeDrafts, DraftRows;
    var origins, rows := Origins(e, batches), DraftRows(d);
    var ids := IdsOf(naming, origins);
    DraftRowsDiffer(naming, d, DraftsOf(batches));
    forall o | o in origins ensures Row(ids, o) in rows { OriginDraftRow(naming, e, batches, d, o); }
    forall row | row in rows ensures exists o :: o in origins && row == Row(ids, o) {
      var o := DraftRowOrigin(naming, e, batches, d, row);
      assert row == Row(ids, o);
    }
  }

  // A manifest within capacity matches the merged draft exactly when it passes the checks and no identifier is empty.
  lemma ProducedMatchesDraftExactly(
      size: Payload -> nat, naming: Naming, e: Evidence, batches: seq<Batch>, merged: Option<Draft>, d: Draft)
    requires MergeDrafts(naming, DraftsOf(batches)) == Some(d)
    requires size(UnresolvedPayload(ReceiptCapacity)) <= MAX_RECEIPT_BYTES
    requires size(Receipt(naming, e, batches, merged)) <= MAX_RECEIPT_BYTES
    ensures
      var m := Produced(size, naming, e, batches, merged);
      MatchesDraft(size, m, d) <==> Integrity(size, m) && NoneLost(IdsOf(naming, Origins(e, batches)), Origins(e, batches))
  {
    hide IdsOf, Origins, MergeDrafts, ReceiptOf, Integrity, IdsApart, KeysApart, AllAgree, NoneLost, SameRows, Mirrors,
         RowsOfOrigins, DraftRows;
    var origins := Origins(e, batches);
    var ids := IdsOf(naming, origins);
    ProducedPassesExactly(size, naming, e, batches, merged);
    ReceiptFields(ids, origins, batches, merged);
    if Integrity(size, Produced(size, naming, e, batches, merged)) {
      DraftListsOrigins(naming, e, batches, d);
      RowsAgreeExactly(ids, origins, DraftRows(d), Receipt(naming, e, batches, merged).records);
    }
  }

  // The over-capacity fallback holds no records, so it matches only a draft without records.
  lemma FallbackMatchesOnlyEmpty(size: Payload -> nat, d: Draft)
    requires size(UnresolvedPayload(ReceiptCapacity)) <= MAX_RECEIPT_BYTES
    ensures MatchesDraft(size, AuthorityManifest.Unresolved(size, ReceiptCapacity), d) <==> RecordsIn(d) == []
  {
    hide Integrity, SameRows, DraftRows, RecordsIn;
    FallbackPasses(size, ReceiptCapacity);
    assert RecordRows([]) == [];
    EmptyRows(DraftRows(d));
    assert |DraftRows(d)| == |RecordsIn(d)| by { AsManyRows(d); }
  }

  lemma AsManyRows(d: Draft)
    ensures |DraftRows(d)| == |RecordsIn(d)|
  {
    hide RecordsIn;
  }

  lemma EmptyRows(rows: seq<(Kind, Text, Content)>)
    ensures SameRows(rows, []) <==> rows == []
  {
    if rows != [] { assert rows[0] in multiset(rows); }
  }

  lemma AllKept(ids: Ids, origins: seq<Origin>)
    requires NoneLost(ids, origins)
    ensures Kept(ids, origins) == origins
  {
    FilterAll(origins, (o: Origin) => ids(o.key) != []);
  }

  // Merged identifiers depend on the kind and the content alone.
  lemma SameContentSameId(naming: Naming, origins: seq<Origin>, j: OriginKey, k: OriginKey)
    requires j.kind == k.kind && j.content == k.content
    ensures IdFor(naming, origins, j) == IdFor(naming, origins, k)
  {
  }
}
