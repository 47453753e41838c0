// What the checks of a stored manifest accept, for every manifest: a one-to-one bookkeeping of origins and contributors, and
// joined records that say what their members say.
module AuthorityChecks {
  import opened Sorting
  import opened Texts
  import opened CanonicalMerge
  import opened RecordAuthority
  import opened AuthorityManifest
  import opened AuthorityVeto

  // ---- Bookkeeping ----

  // No origin contributes to two records.
  ghost predicate NoneShared(records: seq<Joined>) {
    forall i, j, k :: 0 <= i < j < |records| && k in records[i].contributors ==> k !in records[j].contributors
  }

  ghost predicate KeysDiffer(records: seq<Joined>) {
    forall i, j :: 0 <= i < j < |records| ==> records[i].kind != records[j].kind || records[i].mergedId != records[j].mergedId
  }

  // Each record lists its contributors once, and no two records share one or have the same kind and identifier.
  ghost predicate RecordsApart(records: seq<Joined>) {
    && (forall r :: r in records ==> Distinct(r.contributors))
    && NoneShared(records)
    && KeysDiffer(records)
  }

  // A record of the same kind, identifier and content names the origin.
  ghost predicate NamedBy(records: seq<Joined>, o: VerifiedOrigin) {
    exists r :: r in records && r.kind == o.kind && r.mergedId == o.mergedId && r.content == o.content && o.key in r.contributors
  }

  ghost predicate HasOrigin(origins: seq<VerifiedOrigin>, key: OriginKey) {
    exists o :: o in origins && o.key == key
  }

  ghost predicate OriginsApart(origins: seq<VerifiedOrigin>) {
    forall i, j :: 0 <= i < j < |origins| ==> origins[i].key != origins[j].key
  }

  // Origins have different keys and are named by one record each, and neither records nor identifiers name anything else.
  ghost predicate OneToOne(p: Payload) {
    && RecordsApart(p.records)
    && OriginsApart(p.origins)
    && (forall o :: o in p.origins ==> NamedBy(p.records, o) && o.key in p.ids && p.ids[o.key] == o.mergedId)
    && (forall r, k :: r in p.records && k in r.contributors ==> HasOrigin(p.origins, k))
    && (forall k :: k in p.ids ==> HasOrigin(p.origins, k))
  }

  lemma DifferentIsDistinct<T(!new)>(s: seq<T>)
    ensures AllDifferent(s) <==> Distinct(s)
  {
  }

  lemma {:induction false} ContributedBy(records: seq<Joined>)
    ensures forall k :: k in FirstOf(Contributors(records)) <==> exists r :: r in records && k in r.contributors
    ensures forall c :: c in Contributors(records) <==> exists r :: r in records && c.0 in r.contributors && c.1 == r.mergedId
  {
    if records != [] {
      var own, rest := ContributorsOf(records[0]), Contributors(records[1..]);
      ContributedBy(records[1..]);
      assert FirstOf(own + rest) == FirstOf(own) + FirstOf(rest);
      assert FirstOf(own) == records[0].contributors;
      assert records == [records[0]] + records[1..];
      forall c ensures c in own <==> c.0 in records[0].contributors && c.1 == records[0].mergedId {
        if c.0 in records[0].contributors && c.1 == records[0].mergedId {
          var i :| 0 <= i < |records[0].contributors| && records[0].contributors[i] == c.0;
          assert own[i] == c;
        }
      }
    } else {
      assert FirstOf(Contributors(records)) == [];
    }
  }

  lemma {:induction false} ContributorsApart(records: seq<Joined>)
    ensures Distinct(FirstOf(Contributors(records))) <==>
            (forall r :: r in records ==> Distinct(r.contributors)) && NoneShared(records)
  {
    hide NoneShared, Distinct;
    if records == [] {
      assert FirstOf(Contributors(records)) == [];
      NothingShared();
    } else {
      var own, rest := ContributorsOf(records[0]), Contributors(records[1..]);
      ContributorsApart(records[1..]);
      ContributedBy(records[1..]);
      assert FirstOf(own) == records[0].contributors;
      assert FirstOf(own + rest) == FirstOf(own) + FirstOf(rest);
      DistinctAppend(FirstOf(own), FirstOf(rest));
      assert records == [records[0]] + records[1..];
      ApartStep(records);
    }
  }

  lemma NothingShared()
    ensures NoneShared([]) && Distinct<OriginKey>([])
  {
  }

  lemma ApartStep(records: seq<Joined>)
    requires records != []
    ensures NoneShared(records) <==>
      && NoneShared(records[1..])
      && forall k, r :: k in records[0].contributors && r in records[1..] ==> k !in r.contributors
  {
    var rest := records[1..];
    if NoneShared(records) {
      forall k, r | k in records[0].contributors && r in rest ensures k !in r.contributors {
        var j :| 0 <= j < |rest| && rest[j] == r;
        assert records[j + 1] == r;
      }
      forall i, j, k | 0 <= i < j < |rest| && k in rest[i].contributors ensures k !in rest[j].contributors {
        assert records[i + 1] == rest[i] && records[j + 1] == rest[j];
      }
    }
    if NoneShared(rest) && forall k, r :: k in records[0].contributors && r in rest ==> k !in r.contributors {
      forall i, j, k | 0 <= i < j < |records| && k in records[i].contributors ensures k !in records[j].contributors {
        assert records[j] == rest[j - 1] && records[j] in rest;
        if i > 0 { assert records[i] == rest[i - 1]; }
      }
    }
  }

  lemma DistinctAppend<T(!new)>(s: seq<T>, t: seq<T>)
    ensures Distinct(s + t) <==> Distinct(s) && Distinct(t) && forall x :: x in s ==> x !in t
  {
    var all := s + t;
    if Distinct(all) {
      forall i, j | 0 <= i < j < |s| ensures s[i] != s[j] { assert all[i] != all[j]; }
      forall i, j | 0 <= i < j < |t| ensures t[i] != t[j] { assert all[|s| + i] != all[|s| + j]; }
      forall i, j | 0 <= i < |s| && 0 <= j < |t| ensures s[i] != t[j] { assert all[i] != all[|s| + j]; }
    }
    if Distinct(s) && Distinct(t) && forall x :: x in s ==> x !in t {
      forall i, j | 0 <= i < j < |all| ensures all[i] != all[j] {
        if i < |s| <= j { assert all[i] == s[i] && all[j] == t[j - |s|] && s[i] in s && t[j - |s|] in t; }
        if |s| <= i { assert all[i] == t[i - |s|] && all[j] == t[j - |s|]; }
      }
    }
  }

  lemma KeysOfOrigins(origins: seq<VerifiedOrigin>)
    ensures forall k :: k in OriginKeys(origins) <==> HasOrigin(origins, k)
    ensures Distinct(OriginKeys(origins)) <==> OriginsApart(origins)
  {
    var keys := OriginKeys(origins);
    forall o | o in origins ensures o.key in keys {
      var i :| 0 <= i < |origins| && origins[i] == o;
      assert keys[i] == o.key;
    }
    if Distinct(keys) {
      forall i, j | 0 <= i < j < |origins| ensures origins[i].key != origins[j].key { assert keys[i] != keys[j]; }
    }
  }

  lemma KeysOfRecords(records: seq<Joined>)
    ensures Distinct(RecordKeys(records)) <==> KeysDiffer(records)
  {
    var keys := RecordKeys(records);
    if Distinct(keys) {
      forall i, j | 0 <= i < j < |records| ensures records[i].kind != records[j].kind || records[i].mergedId != records[j].mergedId {
        assert keys[i] != keys[j];
      }
    }
  }

  // Two lists without repetition, the first inside the second, have the same members exactly when they are equally long.
  lemma SameLength<T(!new)>(s: seq<T>, t: seq<T>)
    requires Distinct(s) && Distinct(t) && forall x :: x in s ==> x in t
    ensures |s| == |t| <==> forall x :: x in t ==> x in s
  {
    CountDistinct(s);
    CountDistinct(t);
    assert Elements(s) <= Elements(t);
    if |s| == |t| { SameSize(Elements(s), Elements(t)); }
    if forall x :: x in t ==> x in s { assert Elements(s) == Elements(t); }
  }

  lemma SameSize<T>(s: set<T>, t: set<T>)
    requires s <= t && |s| == |t|
    ensures s == t
  {
    assert t == s + (t - s);
    assert |t| == |s| + |t - s|;
  }

  lemma NamesExactly(p: Payload, o: VerifiedOrigin)
    ensures Recorded(p, o) <==> NamedBy(p.records, o) && o.key in p.ids && p.ids[o.key] == o.mergedId
  {
  }

  // A contributor's origin is recorded under the identifier of the record that lists it.
  lemma ContributorIds(p: Payload, c: (OriginKey, Text))
    requires OneToOne(p) && c in Contributors(p.records)
    ensures c.0 in p.ids && p.ids[c.0] == c.1
  {
    hide Contributors;
    ContributedBy(p.records);
    var r :| r in p.records && c.0 in r.contributors && c.1 == r.mergedId;
    assert HasOrigin(p.origins, c.0);
    var o :| o in p.origins && o.key == c.0;
    assert NamedBy(p.records, o);
    var q :| q in p.records && q.kind == o.kind && q.mergedId == o.mergedId && q.content == o.content && o.key in q.contributors;
    var i :| 0 <= i < |p.records| && p.records[i] == r;
    var j :| 0 <= j < |p.records| && p.records[j] == q;
    assert i == j;
  }

  lemma KeysNamed(p: Payload)
    requires OneToOne(p)
    ensures forall k :: k in FirstOf(Contributors(p.records)) <==> HasOrigin(p.origins, k)
  {
    hide Contributors;
    ContributedBy(p.records);
    forall k | HasOrigin(p.origins, k) ensures k in FirstOf(Contributors(p.records)) {
      var o :| o in p.origins && o.key == k;
      assert NamedBy(p.records, o);
    }
  }

  lemma KeysMapped(p: Payload)
    requires OneToOne(p)
    ensures forall k :: k in p.ids <==> HasOrigin(p.origins, k)
  {
    hide RecordsApart, NamedBy;
  }

  lemma OneToOneCounts(p: Payload)
    requires OneToOne(p)
    ensures |p.origins| == |Contributors(p.records)| == |p.ids|
  {
    hide Contributors, HasOrigin, NamedBy;
    var keys, named := OriginKeys(p.origins), FirstOf(Contributors(p.records));
    KeysNamed(p);
    KeysMapped(p);
    KeysOfOrigins(p.origins);
    ContributorsApart(p.records);
    SameLength(keys, named);
    CountDistinct(keys);
    assert Elements(keys) == p.ids.Keys;
  }

  lemma CountsOneToOne(p: Payload)
    requires BookkeepingValid(p)
    ensures forall r, k :: r in p.records && k in r.contributors ==> HasOrigin(p.origins, k)
    ensures forall k :: k in p.ids ==> HasOrigin(p.origins, k)
  {
    hide Contributors, HasOrigin;
    var contributors := Contributors(p.records);
    var keys, named := OriginKeys(p.origins), FirstOf(contributors);
    KeysOfOrigins(p.origins);
    ContributedBy(p.records);
    forall k | k in keys ensures k in named {
      var i :| 0 <= i < |keys| && keys[i] == k;
      assert Recorded(p, p.origins[i]);
    }
    SameLength(keys, named);
    CountDistinct(named);
    forall k | k in named ensures k in p.ids {
      var i :| 0 <= i < |named| && named[i] == k;
      assert contributors[i] in contributors;
    }
    SameSize(Elements(named), p.ids.Keys);
  }

  // The bookkeeping of any payload is valid exactly when origins, contributors and identifiers correspond one to one.
  lemma BookkeepingMeans(p: Payload)
    ensures BookkeepingValid(p) <==> OneToOne(p)
  {
    hide Contributors, Recorded, NamedBy, HasOrigin, FirstOf, OriginKeys, RecordKeys, AllDifferent;
    var contributors := Contributors(p.records);
    var keys, named := OriginKeys(p.origins), FirstOf(contributors);
    DifferentIsDistinct(RecordKeys(p.records));
    DifferentIsDistinct(keys);
    DifferentIsDistinct(named);
    KeysOfRecords(p.records);
    KeysOfOrigins(p.origins);
    ContributorsApart(p.records);
    ContributedBy(p.records);
    forall o ensures Recorded(p, o) <==> NamedBy(p.records, o) && o.key in p.ids && p.ids[o.key] == o.mergedId { NamesExactly(p, o); }
    if OneToOne(p) {
      OneToOneCounts(p);
      forall c | c in contributors ensures c.0 in p.ids && p.ids[c.0] == c.1 { ContributorIds(p, c); }
    }
    if BookkeepingValid(p) { CountsOneToOne(p); }
  }

  // ---- Joined records ----

  ghost function Joining(origins: seq<VerifiedOrigin>, r: Joined): set<VerifiedOrigin> {
    set o | o in origins && o.key in r.contributors
  }

  ghost predicate OneRelevance(members: set<VerifiedOrigin>) {
    members != {} && forall o, q :: o in members && q in members ==> o.relevance == q.relevance
  }

  ghost predicate SomeSource(members: set<VerifiedOrigin>, s: SourceBinding) {
    exists o :: o in members && o.source == s
  }

  ghost predicate SomeCrosscheck(members: set<VerifiedOrigin>, c: Crosscheck) {
    exists o :: o in members && o.crosscheck == c
  }

  // What a record must say of the origins that it joins.
  ghost predicate Sums(r: Joined, members: set<VerifiedOrigin>) {
    && (forall o :: o in members ==> o.kind == r.kind && o.mergedId == r.mergedId && o.content == r.content)
    && (if OneRelevance(members) then forall o :: o in members ==> o.relevance == r.relevance else r.relevance == None)
    && r.source == (
         if SomeSource(members, RelationConflict) then RelationConflict
         else if SomeSource(members, RelationGap) then RelationGap
         else if SomeSource(members, CoverageGap) then CoverageGap
         else if SomeSource(members, Unlocated) || members == {} then Unlocated
         else ExactBound)
    && (r.crosscheck == Disagrees <==>
          || SomeCrosscheck(members, Disagrees)
          || (!OneRelevance(members) && !SomeSource(members, Unlocated) && !SomeSource(members, CoverageGap)))
    && (r.crosscheck == Consistent <==> OneRelevance(members) && forall o :: o in members ==> o.crosscheck == Consistent)
    && (r.verified <==> r.crosscheck == Consistent && forall o :: o in members ==> o.verified)
  }

  lemma {:induction false} OriginFound(origins: seq<VerifiedOrigin>, key: OriginKey)
    requires OriginsApart(origins)
    ensures OriginAt(origins, key).Some? <==> HasOrigin(origins, key)
    ensures forall o :: o in origins && o.key == key ==> OriginAt(origins, key) == Some(o)
    ensures OriginAt(origins, key).Some? ==> OriginAt(origins, key).value in origins && OriginAt(origins, key).value.key == key
  {
    if origins != [] {
      var rest, last := origins[..|origins| - 1], origins[|origins| - 1];
      assert origins == rest + [last];
      OriginFound(rest, key);
      if last.key == key {
        assert last in origins;
        forall o | o in origins && o.key == key ensures o == last {
          var i :| 0 <= i < |origins| && origins[i] == o;
        }
      } else {
        assert forall o :: o in origins && o.key == key ==> o in rest;
      }
    }
  }

  lemma MembersJoined(origins: seq<VerifiedOrigin>, r: Joined)
    requires OriginsApart(origins)
    ensures AllPresent(origins, r.contributors) <==> forall k :: k in r.contributors ==> HasOrigin(origins, k)
    ensures AllPresent(origins, r.contributors) ==>
              forall o :: o in Members(origins, r.contributors) <==> o in Joining(origins, r)
  {
    hide OriginAt, HasOrigin;
    forall k ensures OriginAt(origins, k).Some? <==> HasOrigin(origins, k) { OriginFound(origins, k); }
    if AllPresent(origins, r.contributors) {
      var group := Members(origins, r.contributors);
      forall o ensures o in group <==> o in Joining(origins, r) {
        if o in group {
          var i :| 0 <= i < |group| && group[i] == o;
          OriginFound(origins, r.contributors[i]);
        }
        if o in Joining(origins, r) {
          OriginFound(origins, o.key);
          var i :| 0 <= i < |r.contributors| && r.contributors[i] == o.key;
          assert group[i] == o;
        }
      }
    }
  }

  lemma SummedExactly(r: Joined, group: seq<VerifiedOrigin>, members: set<VerifiedOrigin>)
    requires forall o :: o in group <==> o in members
    ensures JoinedAs(r, group) <==> Sums(r, members)
  {
    hide Worst, Sole;
    SoleRelevance(group, members);
    WorstSource(group, members);
  }

  lemma SoleRelevance(group: seq<VerifiedOrigin>, members: set<VerifiedOrigin>)
    requires forall o :: o in group <==> o in members
    ensures Sole(RelevancesAt(group)).Some? <==> OneRelevance(members)
    ensures OneRelevance(members) ==> forall o :: o in members ==> Sole(RelevancesAt(group)) == Some(o.relevance)
  {
    var values := RelevancesAt(group);
    if group != [] {
      assert group[0] in members;
      if OneRelevance(members) {
        forall v | v in values ensures v == values[0] {
          var i :| 0 <= i < |values| && values[i] == v;
          assert group[i] in members;
        }
      }
      forall o | o in members ensures o.relevance in values {
        var i :| 0 <= i < |group| && group[i] == o;
        assert values[i] == o.relevance;
      }
    } else {
      assert members == {};
    }
  }

  lemma WorstSource(group: seq<VerifiedOrigin>, members: set<VerifiedOrigin>)
    requires forall o :: o in group <==> o in members
    ensures Worst(SourcesAt(group)) == (
              if SomeSource(members, RelationConflict) then RelationConflict
              else if SomeSource(members, RelationGap) then RelationGap
              else if SomeSource(members, CoverageGap) then CoverageGap
              else if SomeSource(members, Unlocated) || members == {} then Unlocated
              else ExactBound)
  {
    hide Worst;
    var values := SourcesAt(group);
    forall s ensures s in values <==> SomeSource(members, s) {
      if s in values {
        var i :| 0 <= i < |values| && values[i] == s;
        assert group[i] in members;
      }
      if SomeSource(members, s) {
        var o :| o in members && o.source == s;
        var i :| 0 <= i < |group| && group[i] == o;
        assert values[i] == s;
      }
    }
    if values != [] { WorstExactly(values); assert group[0] in members; } else { assert members == {}; }
  }

  // ---- The checks ----

  ghost predicate WellShaped(o: VerifiedOrigin) {
    && |o.bindings| <= 3
    && (forall b :: b in o.bindings ==> |b.occurrences| <= 8 && forall x :: x in b.occurrences ==> 0 < x.span.page && x.span.start < x.span.end)
    && (o.verified ==> o.source == ExactBound && o.crosscheck == Consistent && o.relevance != None && o.reason == None)
  }

  ghost predicate Sound(p: Payload) {
    && (forall o :: o in p.origins ==> WellShaped(o))
    && OneToOne(p)
    && (p.complete ==> forall r :: r in p.records ==> Sums(r, Joining(p.origins, r)))
    && (!p.complete ==> forall r :: r in p.records ==> !r.verified && r.crosscheck == Undecided)
    && (forall r :: r in p.records && r.verified ==> r.source == ExactBound && r.relevance != None)
    && (p.veto <==> p.complete && exists r :: r in p.records && r.crosscheck == Disagrees)
  }

  lemma SemanticsSummed(p: Payload)
    requires OneToOne(p) && p.complete
    ensures SemanticsValid(p) <==> forall r :: r in p.records ==> Sums(r, Joining(p.origins, r))
  {
    hide JoinedAs, Sums, AllPresent, Joining, HasOrigin, NamedBy, RecordsApart;
    forall r | r in p.records ensures RecordChecks(r, p.origins) <==> Sums(r, Joining(p.origins, r)) {
      MembersJoined(p.origins, r);
      SummedExactly(r, Members(p.origins, r.contributors), Joining(p.origins, r));
    }
  }

  // A stored manifest passes the checks exactly when it is sealed under version 3 and the limit of 524,288 bytes and its
  // payload is sound.
  lemma ChecksExactly(size: Payload -> nat, m: Manifest)
    ensures Integrity(size, m) <==>
      && m.payload.version == 3 && m.capacityBytes == 524288
      && m.receiptBytes == size(m.payload) && m.receiptBytes <= 524288
      && m.digest == m.payload
      && Sound(m.payload)
  {
    hide BookkeepingValid, OneToOne, SemanticsValid, Sums, Joining, WellShaped, OriginShaped;
    var p := m.payload;
    BookkeepingMeans(p);
    forall o ensures OriginShaped(o) <==> WellShaped(o) { ShapedExactly(o); }
    if OneToOne(p) && p.complete { SemanticsSummed(p); VerifiedConsistent(p); }
    SemanticsIncomplete(p);
  }

  lemma ShapedExactly(o: VerifiedOrigin)
    ensures OriginShaped(o) <==> WellShaped(o)
  {
  }

  lemma VerifiedConsistent(p: Payload)
    ensures forall r :: r in p.records && Sums(r, Joining(p.origins, r)) && r.verified ==> r.crosscheck == Consistent
  {
    hide Joining, OneRelevance, SomeSource, SomeCrosscheck;
  }

  lemma SemanticsIncomplete(p: Payload)
    ensures !p.complete ==> (SemanticsValid(p) <==> !p.veto && forall r :: r in p.records ==> !r.verified && r.crosscheck == Undecided)
  {
  }

  // The check against the final draft: sound, and each record of the draft is joined once, under its kind, identifier and content.
  lemma DraftChecksExactly(size: Payload -> nat, m: Manifest, d: Draft)
    ensures MatchesDraft(size, m, d) <==>
      && Integrity(size, m)
      && Distinct(DraftRows(d))
      && Distinct(RecordRows(m.payload.records))
      && forall row :: row in DraftRows(d) <==> row in RecordRows(m.payload.records)
  {
    hide Integrity, DraftRows, RecordRows;
    SameRowsExactly(DraftRows(d), RecordRows(m.payload.records));
  }

  lemma SameRowsExactly(a: seq<(Kind, Text, Content)>, b: seq<(Kind, Text, Content)>)
    ensures SameRows(a, b) <==> Distinct(a) && Distinct(b) && forall row :: row in a <==> row in b
  {
    if Distinct(a) && Distinct(b) {
      forall row ensures multiset(a)[row] == (if row in a then 1 else 0) && multiset(b)[row] == (if row in b then 1 else 0) {
        DistinctCount(a, row);
        DistinctCount(b, row);
      }
      if multiset(a) == multiset(b) {
        forall row ensures row in a <==> row in b { assert multiset(a)[row] == multiset(b)[row]; }
      }
      if forall row :: row in a <==> row in b {
        assert forall row :: multiset(a)[row] == multiset(b)[row];
      }
    }
  }
}
