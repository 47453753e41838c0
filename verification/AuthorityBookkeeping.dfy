// When the origins, the identifier map and the joined records of a manifest fit together.
module AuthorityBookkeeping {
  import opened Sorting
  import opened Texts
  import opened Groups
  import opened CanonicalMerge
  import opened RecordAuthority
  import opened AuthorityManifest

  // No two origins have one key.
  ghost predicate KeysApart(ids: Ids, origins: seq<Origin>) {
    AllDifferent(KeysOf(Kept(ids, origins)))
  }

  // No two contents of one kind are merged under one identifier.
  ghost predicate IdsApart(ids: Ids, origins: seq<Origin>) {
    forall o, p :: o in Kept(ids, origins) && p in Kept(ids, origins) && SameEntry(ids, o, p) ==> SameContent(o, p)
  }

  predicate SameEntry(ids: Ids, o: Origin, p: Origin) {
    o.key.kind == p.key.kind && ids(o.key) == ids(p.key)
  }

  predicate SameContent(o: Origin, p: Origin) { o.key.content == p.key.content }

  // The records of the manifest list the groups, whether or not the receipt is complete.
  ghost predicate Mirrors(records: seq<Joined>, groups: Grouped<(Kind, Text), Origin>) {
    && |records| == |groups|
    && NonEmpty(groups)
    && forall i :: 0 <= i < |records| ==>
        && records[i].kind == groups[i].0.0
        && records[i].mergedId == groups[i].0.1
        && records[i].content == groups[i].1[0].key.content
        && records[i].contributors == KeysOf(groups[i].1)
  }

  function Pair(ids: Ids, o: Origin): (OriginKey, Text) {
    (o.key, ids(o.key))
  }

  function Pairs(ids: Ids, s: seq<Origin>): seq<(OriginKey, Text)> {
    seq(|s|, i requires 0 <= i < |s| => Pair(ids, s[i]))
  }

  ghost predicate IdsFit(ids: Ids, groups: Grouped<(Kind, Text), Origin>) {
    forall i, o :: 0 <= i < |groups| && o in groups[i].1 ==>
      o.key.kind == groups[i].0.0 && ids(o.key) == groups[i].0.1
  }

  lemma GroupsFit(ids: Ids, origins: seq<Origin>)
    ensures IdsFit(ids, JoinedGroups(ids, origins))
  {
    hide GroupBy;
    var kept, key := Kept(ids, origins), JoinKey(ids);
    var groups := JoinedGroups(ids, origins);
    forall i, o | 0 <= i < |groups| && o in groups[i].1
      ensures o.key.kind == groups[i].0.0 && ids(o.key) == groups[i].0.1
    {
      GroupExact(kept, key, i);
      assert key(o) == groups[i].0;
    }
  }

  lemma {:induction false} ContributorsAreMembers(
      ids: Ids, records: seq<Joined>, groups: Grouped<(Kind, Text), Origin>)
    requires Mirrors(records, groups) && IdsFit(ids, groups)
    ensures Contributors(records) == Pairs(ids, Flatten(groups))
  {
    if records != [] {
      var g := groups[0].1;
      ContributorsAreMembers(ids, records[1..], groups[1..]);
      forall i | 0 <= i < |g| ensures ContributorsOf(records[0])[i] == Pair(ids, g[i]) {
        assert g[i] in groups[0].1;
      }
      assert ContributorsOf(records[0]) == Pairs(ids, g);
      assert Pairs(ids, g + Flatten(groups[1..])) ==
             Pairs(ids, g) + Pairs(ids, Flatten(groups[1..]));
    }
  }

  lemma KeysDistinct(s: seq<Origin>)
    ensures AllDifferent(KeysOf(s)) <==> Distinct(s) && forall o, p :: o in s && p in s && o.key == p.key ==> o == p
  {
    if AllDifferent(KeysOf(s)) {
      forall i, j | 0 <= i < j < |s| ensures s[i] != s[j] { assert KeysOf(s)[i] != KeysOf(s)[j]; }
      forall o, p | o in s && p in s && o.key == p.key ensures o == p {
        var i :| 0 <= i < |s| && s[i] == o;
        var j :| 0 <= j < |s| && s[j] == p;
        assert KeysOf(s)[i] == KeysOf(s)[j];
      }
    } else {
      var i, j :| 0 <= i < j < |s| && KeysOf(s)[i] == KeysOf(s)[j];
      assert s[i] in s && s[j] in s;
    }
  }

  // Rearranging origins does not change whether their keys differ.
  lemma KeysRearranged(s: seq<Origin>, t: seq<Origin>)
    requires multiset(s) == multiset(t)
    ensures |s| == |t|
    ensures AllDifferent(KeysOf(s)) <==> AllDifferent(KeysOf(t))
    ensures forall o :: o in s <==> o in t
  {
    KeysDistinct(s);
    KeysDistinct(t);
    DistinctMultiplicity(s);
    DistinctMultiplicity(t);
    assert |multiset(s)| == |multiset(t)|;
    forall o ensures o in s <==> o in t {
      assert o in s <==> o in multiset(s);
      assert o in t <==> o in multiset(t);
    }
  }

  lemma {:induction false} CountKeys(s: seq<Origin>)
    requires AllDifferent(KeysOf(s))
    ensures |Keys(s)| == |s|
  {
    if s != [] {
      var rest := s[1..];
      forall i, j | 0 <= i < j < |rest| ensures KeysOf(rest)[i] != KeysOf(rest)[j] {
        assert KeysOf(s)[i + 1] != KeysOf(s)[j + 1];
      }
      CountKeys(rest);
      forall i | 0 <= i < |rest| ensures rest[i].key != s[0].key {
        assert KeysOf(s)[0] != KeysOf(s)[i + 1];
      }
      assert s[0].key !in Keys(rest);
      assert Keys(s) == {s[0].key} + Keys(rest);
    }
  }

  lemma MapKeys(ids: Ids, origins: seq<Origin>)
    ensures IdMap(ids, origins).Keys == Keys(Kept(ids, origins))
    ensures forall o :: o in Kept(ids, origins) ==> o.key in IdMap(ids, origins) && IdMap(ids, origins)[o.key] == ids(o.key)
  {
    var ids, kept := IdMap(ids, origins), Kept(ids, origins);
    forall k ensures k in ids <==> k in Keys(kept) {
      if k in ids {
        var o :| o in origins && o.key == k;
        assert o in kept;
      }
    }
  }

  // The entry of an origin among the records.
  lemma RecordOf(
      ids: Ids, origins: seq<Origin>, records: seq<Joined>, groups: Grouped<(Kind, Text), Origin>, o: Origin)
    returns (i: nat)
    requires groups == JoinedGroups(ids, origins) && Mirrors(records, groups)
    requires o in Kept(ids, origins)
    ensures i < |records| && records[i].kind == o.key.kind && records[i].mergedId == ids(o.key)
    ensures o in groups[i].1 && o.key in records[i].contributors
    ensures forall j :: 0 <= j < |records| && records[j].kind == o.key.kind && records[j].mergedId == records[i].mergedId ==> j == i
  {
    hide GroupBy;
    var kept, key := Kept(ids, origins), JoinKey(ids);
    GroupOfElement(kept, key, o);
    i :| 0 <= i < |groups| && groups[i].0 == key(o) && o in groups[i].1;
    var k :| 0 <= k < |groups[i].1| && groups[i].1[k] == o;
    assert KeysOf(groups[i].1)[k] == o.key;
    forall j | 0 <= j < |records| && records[j].kind == o.key.kind && records[j].mergedId == records[i].mergedId ensures j == i {
      if j < i { GroupKeysDistinct(kept, key, j, i); } else if i < j { GroupKeysDistinct(kept, key, i, j); }
    }
  }

  // The members of a group are kept origins with the group's kind and identifier.
  lemma MembersKept(ids: Ids, origins: seq<Origin>, i: nat, o: Origin)
    requires i < |JoinedGroups(ids, origins)| && o in JoinedGroups(ids, origins)[i].1
    ensures o in Kept(ids, origins)
  {
    hide GroupBy;
    GroupExact(Kept(ids, origins), JoinKey(ids), i);
  }

  ghost predicate AllRecorded(ids: Ids, origins: seq<Origin>, p: Payload, complete: bool) {
    forall o :: o in Kept(ids, origins) ==> Recorded(p, Publish(ids, complete, o))
  }

  lemma RecordedExactly(ids: Ids, origins: seq<Origin>, complete: bool, p: Payload, o: Origin)
    requires p.ids == IdMap(ids, origins)
    requires Mirrors(p.records, JoinedGroups(ids, origins))
    requires o in Kept(ids, origins)
    ensures Recorded(p, Publish(ids, complete, o)) <==> SameContent(o, GroupHead(ids, origins, o))
  {
    hide GroupBy, IdMap, Kept, JoinedGroups;
    MapKeys(ids, origins);
    var i := RecordOf(ids, origins, p.records, JoinedGroups(ids, origins), o);
    HeadAt(ids, origins, o, i);
    assert p.records[i] in p.records;
  }

  // The first member of the group of an origin.
  ghost function GroupHead(ids: Ids, origins: seq<Origin>, o: Origin): Origin
    requires o in Kept(ids, origins)
  {
    GroupOfElement(Kept(ids, origins), JoinKey(ids), o);
    var groups := JoinedGroups(ids, origins);
    var i :| 0 <= i < |groups| && groups[i].0 == JoinKey(ids)(o) && o in groups[i].1;
    groups[i].1[0]
  }

  lemma HeadAt(ids: Ids, origins: seq<Origin>, o: Origin, i: nat)
    requires o in Kept(ids, origins)
    requires i < |JoinedGroups(ids, origins)| && o in JoinedGroups(ids, origins)[i].1
    ensures GroupHead(ids, origins, o) == JoinedGroups(ids, origins)[i].1[0]
    ensures JoinedGroups(ids, origins)[i].1[0] in Kept(ids, origins)
    ensures JoinKey(ids)(JoinedGroups(ids, origins)[i].1[0]) == JoinKey(ids)(o)
  {
    hide GroupBy, Kept;
    var groups := JoinedGroups(ids, origins);
    GroupsFit(ids, origins);
    var head := groups[i].1[0];
    assert head in groups[i].1;
    MembersKept(ids, origins, i, head);
    GroupOfElement(Kept(ids, origins), JoinKey(ids), o);
    var j :| 0 <= j < |groups| && groups[j].0 == JoinKey(ids)(o) && o in groups[j].1 &&
             GroupHead(ids, origins, o) == groups[j].1[0];
    if j < i { GroupKeysDistinct(Kept(ids, origins), JoinKey(ids), j, i); }
    if i < j { GroupKeysDistinct(Kept(ids, origins), JoinKey(ids), i, j); }
  }

  lemma AllRecordedExactly(ids: Ids, origins: seq<Origin>, complete: bool, p: Payload)
    requires p.ids == IdMap(ids, origins)
    requires Mirrors(p.records, JoinedGroups(ids, origins))
    ensures AllRecorded(ids, origins, p, complete) <==> IdsApart(ids, origins)
  {
    hide GroupBy, IdMap, Kept, JoinedGroups, Recorded, Mirrors, Publish, GroupHead, SameContent;
    var kept := Kept(ids, origins);
    forall o | o in kept
      ensures Recorded(p, Publish(ids, complete, o)) <==> SameContent(o, GroupHead(ids, origins, o))
    {
      RecordedExactly(ids, origins, complete, p, o);
    }
    forall o, q | o in kept && q in kept && JoinKey(ids)(o) == JoinKey(ids)(q)
      ensures GroupHead(ids, origins, o) == GroupHead(ids, origins, q)
    {
      SameHead(ids, origins, o, q);
    }
    if IdsApart(ids, origins) {
      forall o | o in kept ensures SameContent(o, GroupHead(ids, origins, o)) { HeadKept(ids, origins, o); }
    } else {
      var o, q :| o in kept && q in kept && SameEntry(ids, o, q) && !SameContent(o, q);
      assert JoinKey(ids)(o) == JoinKey(ids)(q);
      OneDiffers(o, q, GroupHead(ids, origins, o));
    }
  }

  lemma OneDiffers(o: Origin, q: Origin, head: Origin)
    requires !SameContent(o, q)
    ensures !SameContent(o, head) || !SameContent(q, head)
  {
  }

  lemma HeadKept(ids: Ids, origins: seq<Origin>, o: Origin)
    requires o in Kept(ids, origins)
    ensures GroupHead(ids, origins, o) in Kept(ids, origins)
    ensures GroupHead(ids, origins, o).key.kind == o.key.kind
    ensures ids(GroupHead(ids, origins, o).key) == ids(o.key)
  {
    hide GroupBy, Kept;
    GroupOfElement(Kept(ids, origins), JoinKey(ids), o);
    var groups := JoinedGroups(ids, origins);
    var i :| 0 <= i < |groups| && groups[i].0 == JoinKey(ids)(o) && o in groups[i].1;
    HeadAt(ids, origins, o, i);
  }

  lemma SameHead(ids: Ids, origins: seq<Origin>, o: Origin, q: Origin)
    requires o in Kept(ids, origins) && q in Kept(ids, origins)
    requires JoinKey(ids)(o) == JoinKey(ids)(q)
    ensures GroupHead(ids, origins, o) == GroupHead(ids, origins, q)
  {
    hide GroupBy, Kept;
    var kept, key := Kept(ids, origins), JoinKey(ids);
    var groups := JoinedGroups(ids, origins);
    GroupOfElement(kept, key, o);
    GroupOfElement(kept, key, q);
    var i :| 0 <= i < |groups| && groups[i].0 == key(o) && o in groups[i].1;
    var j :| 0 <= j < |groups| && groups[j].0 == key(q) && q in groups[j].1;
    if j < i { GroupKeysDistinct(kept, key, j, i); }
    if i < j { GroupKeysDistinct(kept, key, i, j); }
    HeadAt(ids, origins, o, i);
    HeadAt(ids, origins, q, j);
  }

  // The bookkeeping of a produced manifest is valid exactly when neither origin keys nor merged identifiers clash.
  lemma BookkeepingExactly(ids: Ids, origins: seq<Origin>, complete: bool, p: Payload)
    requires p.ids == IdMap(ids, origins) && p.origins == PublishAll(ids, origins, complete)
    requires Mirrors(p.records, JoinedGroups(ids, origins))
    ensures BookkeepingValid(p) <==> KeysApart(ids, origins) && IdsApart(ids, origins)
    ensures |Contributors(p.records)| == |Kept(ids, origins)|
  {
    hide GroupBy, IdMap, Recorded, Publish, IdsApart, Contributors, AllDifferent, Mirrors, Kept, JoinedGroups, PublishAll,
         AllRecorded, Flatten, Keys;
    var kept, groups := Kept(ids, origins), JoinedGroups(ids, origins);
    var contributors := Contributors(p.records);
    ContributorKeys(ids, origins, p.records);
    PublishedKeys(ids, origins, complete);
    RecordKeysDiffer(ids, origins, p.records);
    MapKeys(ids, origins);
    AllRecordedExactly(ids, origins, complete, p);
    PublishedRecorded(ids, origins, complete, p);
    if KeysApart(ids, origins) { CountKeys(kept); }
    forall c | c in contributors ensures c.0 in p.ids && p.ids[c.0] == c.1 {
      var o :| o in kept && c == Pair(ids, o);
    }
    assert |p.ids| == |p.ids.Keys|;
    assert |p.origins| == |OriginKeys(p.origins)| == |KeysOf(kept)|;
  }

  // The contributors of all records are the kept origins, in another order.
  lemma ContributorKeys(ids: Ids, origins: seq<Origin>, records: seq<Joined>)
    requires Mirrors(records, JoinedGroups(ids, origins))
    ensures
      var contributors, kept := Contributors(records), Kept(ids, origins);
      && |contributors| == |kept|
      && (AllDifferent(FirstOf(contributors)) <==> AllDifferent(KeysOf(kept)))
      && forall c :: c in contributors ==> exists o :: o in kept && c == Pair(ids, o)
  {
    hide GroupBy, Contributors, AllDifferent, Kept, Mirrors, Flatten;
    var kept, groups := Kept(ids, origins), JoinedGroups(ids, origins);
    GroupsFit(ids, origins);
    ContributorsAreMembers(ids, records, groups);
    GroupsPartition(kept, JoinKey(ids));
    KeysRearranged(Flatten(groups), kept);
    var contributors := Contributors(records);
    assert FirstOf(contributors) == KeysOf(Flatten(groups));
    forall c | c in contributors ensures exists o :: o in kept && c == Pair(ids, o) {
      var i :| 0 <= i < |contributors| && contributors[i] == c;
      assert Flatten(groups)[i] in Flatten(groups);
    }
  }

  lemma PublishedKeys(ids: Ids, origins: seq<Origin>, complete: bool)
    ensures OriginKeys(PublishAll(ids, origins, complete)) == KeysOf(Kept(ids, origins))
  {
  }

  lemma PublishedRecorded(ids: Ids, origins: seq<Origin>, complete: bool, p: Payload)
    requires p.origins == PublishAll(ids, origins, complete)
    ensures (forall o :: o in p.origins ==> Recorded(p, o)) <==> AllRecorded(ids, origins, p, complete)
  {
    hide Recorded, Publish;
    var kept := Kept(ids, origins);
    forall o | o in kept ensures Publish(ids, complete, o) in p.origins {
      var i :| 0 <= i < |kept| && kept[i] == o;
      assert p.origins[i] == Publish(ids, complete, o);
    }
    forall x | x in p.origins ensures exists o :: o in kept && x == Publish(ids, complete, o) {
      var i :| 0 <= i < |kept| && p.origins[i] == x;
      assert kept[i] in kept;
    }
  }

  lemma RecordKeysDiffer(ids: Ids, origins: seq<Origin>, records: seq<Joined>)
    requires Mirrors(records, JoinedGroups(ids, origins))
    ensures AllDifferent(RecordKeys(records))
  {
    hide GroupBy;
    forall i, j | 0 <= i < j < |records| ensures RecordKeys(records)[i] != RecordKeys(records)[j] {
      GroupKeysDistinct(Kept(ids, origins), JoinKey(ids), i, j);
    }
  }
}
