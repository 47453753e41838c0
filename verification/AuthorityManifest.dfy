// The record authority manifest: its producer, and the independent checks that a stored manifest must pass.
module AuthorityManifest {
  import opened Sorting
  import opened Texts
  import opened Groups
  import opened SubmissionLedger
  import opened CanonicalMerge
  import opened RecordAuthority

  datatype VerifiedOrigin = VerifiedOrigin(
    key: OriginKey, kind: Kind, content: Content, mergedId: Text, relevance: Option<Relevance>,
    source: SourceBinding, crosscheck: Crosscheck, verified: bool, reason: Option<AuthorityReason>,
    bindings: seq<CitationBinding>)

  datatype Joined = Joined(
    mergedId: Text, content: Content, kind: Kind, relevance: Option<Relevance>, source: SourceBinding,
    crosscheck: Crosscheck, verified: bool, reason: Option<AuthorityReason>, contributors: seq<OriginKey>,
    channels: set<Channel>)

  datatype Payload = Payload(
    version: nat, complete: bool, veto: bool, unresolved: set<AuthorityReason>, discarded: set<AuthorityReason>,
    ids: map<OriginKey, Text>, origins: seq<VerifiedOrigin>, records: seq<Joined>)

  // The manifest digest is injective, so the payload stands for it.
  datatype Manifest = Manifest(payload: Payload, receiptBytes: nat, capacityBytes: nat, digest: Payload)

  // ---- Joining ----

  function Concrete(group: seq<Origin>): seq<Relevance> {
    if group == [] then []
    else (if group[0].relevance.Some? then [group[0].relevance.value] else []) + Concrete(group[1..])
  }

  // The member of `new Set(values)` when that set has exactly one.
  function Sole<T(==)>(values: seq<T>): Option<T> {
    if values != [] && forall v :: v in values ==> v == values[0] then Some(values[0]) else None
  }

  function Rank(s: SourceBinding): nat {
    match s
    case ExactBound => 0
    case Unlocated => 1
    case CoverageGap => 2
    case RelationGap => 3
    case RelationConflict => 4
  }

  // The binding of the highest rank.
  function Worst(values: seq<SourceBinding>): (w: SourceBinding)
    ensures values != [] ==> w in values && forall v :: v in values ==> Rank(v) <= Rank(w)
    ensures values == [] ==> w == Unlocated
  {
    if values == [] then Unlocated
    else if |values| == 1 then values[0]
    else
      var rest := Worst(values[1..]);
      if Rank(values[0]) >= Rank(rest) then values[0] else rest
  }

  predicate Located(s: SourceBinding) { s != Unlocated && s != CoverageGap }

  predicate AllExact(group: seq<Origin>) {
    forall o :: o in group ==> Located(o.judgement.source)
  }

  function Combined(values: seq<Crosscheck>): Crosscheck {
    if Disagrees in values then Disagrees else if Undecided in values then Undecided else Consistent
  }

  function Sources(group: seq<Origin>): seq<SourceBinding> {
    seq(|group|, i requires 0 <= i < |group| => group[i].judgement.source)
  }

  function Crosschecks(group: seq<Origin>): seq<Crosscheck> {
    seq(|group|, i requires 0 <= i < |group| => group[i].judgement.crosscheck)
  }

  function KeysOf(group: seq<Origin>): seq<OriginKey> {
    seq(|group|, i requires 0 <= i < |group| => group[i].key)
  }

  function FirstReason(group: seq<Origin>): Option<AuthorityReason> {
    if group == [] then None
    else if group[0].judgement.reason.Some? then group[0].judgement.reason
    else FirstReason(group[1..])
  }

  function GroupChannels(group: seq<Origin>): set<Channel> {
    set o, c | o in group && c in o.judgement.channels :: c
  }

  function Join(kind: Kind, mergedId: Text, group: seq<Origin>): Joined
    requires group != []
  {
    var sole := Sole(Concrete(group));
    var crosscheck :=
      if sole == None then (if AllExact(group) then Disagrees else Undecided) else Combined(Crosschecks(group));
    Joined(
      mergedId, group[0].key.content, kind, sole, Worst(Sources(group)), crosscheck,
      (forall o :: o in group ==> Publishable(o.judgement)) && sole.Some? && crosscheck == Consistent,
      if sole == None then Some(RelevanceDisagreement) else FirstReason(group), KeysOf(group), GroupChannels(group))
  }

  // The merged identifier of each origin; the empty one stands for none.
  type Ids = OriginKey -> Text

  function IdsOf(naming: Naming, origins: seq<Origin>): Ids {
    (k: OriginKey) => IdFor(naming, origins, k)
  }

  function JoinKey(ids: Ids): Origin -> (Kind, Text) {
    (o: Origin) => (o.key.kind, ids(o.key))
  }

  // The origins that have a merged identifier.
  function Kept(ids: Ids, origins: seq<Origin>): seq<Origin> {
    Filter(origins, (o: Origin) => ids(o.key) != [])
  }

  function JoinedGroups(ids: Ids, origins: seq<Origin>): (groups: Grouped<(Kind, Text), Origin>)
    ensures NonEmpty(groups)
  {
    GroupsNonEmpty(Kept(ids, origins), JoinKey(ids));
    GroupBy(Kept(ids, origins), JoinKey(ids))
  }

  function JoinAll(groups: Grouped<(Kind, Text), Origin>): seq<Joined>
    requires NonEmpty(groups)
  {
    seq(|groups|, i requires 0 <= i < |groups| => Join(groups[i].0.0, groups[i].0.1, groups[i].1))
  }

  // ---- The receipt ----

  function ContributorsOf(r: Joined): seq<(OriginKey, Text)> {
    seq(|r.contributors|, i requires 0 <= i < |r.contributors| => (r.contributors[i], r.mergedId))
  }

  function Contributors(records: seq<Joined>): seq<(OriginKey, Text)> {
    if records == [] then [] else ContributorsOf(records[0]) + Contributors(records[1..])
  }

  function DraftRows(d: Draft): seq<(Kind, Text, Content)> {
    var items := RecordsIn(d);
    seq(|items|, i requires 0 <= i < |items| => (items[i].kind, items[i].record.id, items[i].record.content))
  }

  function RecordRows(records: seq<Joined>): seq<(Kind, Text, Content)> {
    seq(|records|, i requires 0 <= i < |records| => (records[i].kind, records[i].mergedId, records[i].content))
  }

  // Both lists are free of repetitions and sort to the same list.
  predicate SameRows(expected: seq<(Kind, Text, Content)>, actual: seq<(Kind, Text, Content)>) {
    AllDifferent(expected) && AllDifferent(actual) && multiset(expected) == multiset(actual)
  }

  function BatchIds(batches: seq<Batch>): seq<string> {
    seq(|batches|, i requires 0 <= i < |batches| => batches[i].batchId)
  }

  function Lost(n: nat): seq<AuthorityReason> { seq(n, i => LostOrigin) }

  function ReceiptReasons(
      ids: Ids, batches: seq<Batch>, origins: seq<Origin>, joined: seq<Joined>, merged: Option<Draft>): seq<AuthorityReason>
  {
    (if AllDifferent(BatchIds(batches)) then [] else [RepeatedBatch]) +
    BatchesReasons(batches) +
    Lost(|origins| - |Kept(ids, origins)|) +
    (if merged.Some? && !SameRows(DraftRows(merged.value), RecordRows(joined)) then [MergedRecordMappingMismatch] else [])
  }

  function VetoReasons(origins: seq<Origin>, joined: seq<Joined>): set<AuthorityReason> {
    (set o | o in origins && o.judgement.crosscheck == Disagrees ::
       if o.judgement.reason.Some? then o.judgement.reason.value else SemanticDisagreement) +
    (if exists r :: r in joined && r.relevance == None && r.crosscheck == Disagrees then {RelevanceDisagreement} else {})
  }

  function DiscardedReasons(origins: seq<Origin>, joined: seq<Joined>): set<AuthorityReason> {
    (set o | o in origins && o.judgement.reason.Some? :: o.judgement.reason.value) +
    (if exists r :: r in joined && r.relevance == None then {RelevanceDisagreement} else {})
  }

  function Keys(origins: seq<Origin>): set<OriginKey> {
    set o | o in origins :: o.key
  }

  function IdMap(ids: Ids, origins: seq<Origin>): map<OriginKey, Text> {
    map k | k in Keys(origins) && ids(k) != [] :: ids(k)
  }

  function Publish(ids: Ids, complete: bool, o: Origin): VerifiedOrigin {
    VerifiedOrigin(
      o.key, o.key.kind, o.key.content, ids(o.key), o.relevance, o.judgement.source,
      o.judgement.crosscheck, complete && Publishable(o.judgement), o.judgement.reason, o.judgement.bindings)
  }

  function PublishAll(ids: Ids, origins: seq<Origin>, complete: bool): seq<VerifiedOrigin> {
    var kept := Kept(ids, origins);
    seq(|kept|, i requires 0 <= i < |kept| => Publish(ids, complete, kept[i]))
  }

  // An incomplete receipt decides nothing.
  function Safe(r: Joined, receipt: seq<AuthorityReason>): Joined {
    r.(verified := false, crosscheck := Undecided,
       reason := if r.reason.Some? then r.reason else if receipt != [] then Some(receipt[0]) else Some(ReceiptIntegrity))
  }

  function SafeAll(joined: seq<Joined>, receipt: seq<AuthorityReason>): seq<Joined> {
    seq(|joined|, i requires 0 <= i < |joined| => Safe(joined[i], receipt))
  }

  predicate Vetoes(records: seq<Joined>) {
    exists r :: r in records && r.crosscheck == Disagrees
  }

  function ReceiptOf(ids: Ids, origins: seq<Origin>, batches: seq<Batch>, merged: Option<Draft>): Payload {
    var joined := JoinAll(JoinedGroups(ids, origins));
    var receipt := ReceiptReasons(ids, batches, origins, joined, merged);
    var complete := receipt == [] && |origins| == |Contributors(joined)|;
    var records := if complete then joined else SafeAll(joined, receipt);
    Payload(
      VERSION, complete, complete && Vetoes(records),
      (set r | r in receipt) + VetoReasons(origins, joined), DiscardedReasons(origins, joined),
      IdMap(ids, origins), PublishAll(ids, origins, complete), records)
  }

  function Receipt(naming: Naming, e: Evidence, batches: seq<Batch>, merged: Option<Draft>): Payload {
    var origins := Origins(e, batches);
    ReceiptOf(IdsOf(naming, origins), origins, batches, merged)
  }

  function Seal(size: Payload -> nat, p: Payload): Manifest {
    Manifest(p, size(p), MAX_RECEIPT_BYTES, p)
  }

  function UnresolvedPayload(reason: AuthorityReason): Payload {
    Payload(VERSION, false, false, {reason}, {}, map[], [], [])
  }

  function Unresolved(size: Payload -> nat, reason: AuthorityReason): Manifest {
    Seal(size, UnresolvedPayload(reason))
  }

  // A manifest over its capacity is replaced by the unresolved one.
  function SealOrGiveUp(size: Payload -> nat, p: Payload): Manifest {
    if size(p) <= MAX_RECEIPT_BYTES then Seal(size, p) else Unresolved(size, ReceiptCapacity)
  }

  function Produced(
      size: Payload -> nat, naming: Naming, e: Evidence, batches: seq<Batch>, merged: Option<Draft>): Manifest
  {
    SealOrGiveUp(size, Receipt(naming, e, batches, merged))
  }

  // ---- The loops ----

  method JoinOrigins(naming: Naming, origins: seq<Origin>, ids: map<OriginKey, Text>)
    returns (groups: Grouped<(Kind, Text), Origin>, lost: nat)
    requires IsIdMap(naming, origins, ids)
    ensures groups == JoinedGroups(IdsOf(naming, origins), origins)
    ensures lost == |origins| - |Kept(IdsOf(naming, origins), origins)|
  {
    hide IdFor, GroupBy, Append, NonEmpty, Kept, JoinKey;
    ghost var idOf := IdsOf(naming, origins);
    groups, lost := [], 0;
    NothingKept(idOf);
    for i := 0 to |origins|
      invariant groups == GroupBy(Kept(idOf, origins[..i]), JoinKey(idOf))
      invariant lost == i - |Kept(idOf, origins[..i])|
    {
      var o := origins[i];
      KeptStep(idOf, origins, i);
      assert o in origins && idOf(o.key) == IdFor(naming, origins, o.key);
      if o.key in ids {
        assert idOf(o.key) == ids[o.key] != [];
        GroupBySnoc(Kept(idOf, origins[..i]), JoinKey(idOf), o);
        JoinKeyOf(idOf, o);
        groups := Append(groups, (o.key.kind, ids[o.key]), o);
      } else {
        lost := lost + 1;
      }
    }
    assert origins[..|origins|] == origins;
    GroupsAreJoined(idOf, origins);
  }

  lemma NothingKept(ids: Ids)
    ensures Kept(ids, []) == [] && GroupBy(Kept(ids, []), JoinKey(ids)) == []
  {
  }

  lemma JoinKeyOf(ids: Ids, o: Origin)
    ensures JoinKey(ids)(o) == (o.key.kind, ids(o.key))
  {
  }

  lemma GroupsAreJoined(ids: Ids, origins: seq<Origin>)
    ensures GroupBy(Kept(ids, origins), JoinKey(ids)) == JoinedGroups(ids, origins)
  {
    hide GroupBy;
  }

  lemma KeptStep(ids: Ids, origins: seq<Origin>, i: nat)
    requires i < |origins|
    ensures Kept(ids, origins[..i + 1]) ==
            if ids(origins[i].key) != [] then Kept(ids, origins[..i]) + [origins[i]] else Kept(ids, origins[..i])
  {
    assert origins[..i + 1] == origins[..i] + [origins[i]];
    FilterAppend(origins[..i], [origins[i]], (o: Origin) => ids(o.key) != []);
  }

  method JoinGroups(groups: Grouped<(Kind, Text), Origin>) returns (joined: seq<Joined>)
    requires NonEmpty(groups)
    ensures joined == JoinAll(groups)
  {
    hide Join;
    joined := [];
    for i := 0 to |groups|
      invariant |joined| == i
      invariant forall j :: 0 <= j < i ==> joined[j] == Join(groups[j].0.0, groups[j].0.1, groups[j].1)
    {
      joined := joined + [Join(groups[i].0.0, groups[i].0.1, groups[i].1)];
    }
  }

  lemma IdsAreIdMap(naming: Naming, origins: seq<Origin>, ids: map<OriginKey, Text>)
    requires IsIdMap(naming, origins, ids)
    ensures ids == IdMap(IdsOf(naming, origins), origins)
  {
    hide IdFor;
    forall k ensures k in ids <==> k in IdMap(IdsOf(naming, origins), origins) {
      if k in Keys(origins) && IdFor(naming, origins, k) != [] {
        var o :| o in origins && o.key == k;
      }
    }
  }

  method VerifyRecordAuthorities(
      size: Payload -> nat, naming: Naming, e: Evidence, batches: seq<Batch>, merged: Option<Draft>) returns (m: Manifest)
    ensures m == Produced(size, naming, e, batches, merged)
  {
    hide Origins, IdFor, JoinAll, BatchesReasons, Kept, JoinedGroups, IdMap, Contributors, SameRows, VetoReasons,
         DiscardedReasons, PublishAll, SafeAll;
    var receipt: seq<AuthorityReason> := if AllDifferent(BatchIds(batches)) then [] else [RepeatedBatch];
    var origins, batchReasons := CollectOrigins(e, batches);
    receipt := receipt + batchReasons;
    var ids := MergedIds(naming, origins);
    var groups, lost := JoinOrigins(naming, origins, ids);
    receipt := receipt + Lost(lost);
    var joined := JoinGroups(groups);
    if merged.Some? && !SameRows(DraftRows(merged.value), RecordRows(joined)) {
      receipt := receipt + [MergedRecordMappingMismatch];
    }
    assert receipt == ReceiptReasons(IdsOf(naming, origins), batches, origins, joined, merged);
    var complete := receipt == [] && |origins| == |Contributors(joined)|;
    var records := if complete then joined else SafeAll(joined, receipt);
    IdsAreIdMap(naming, origins, ids);
    m := Seal(size, Payload(
      VERSION, complete, complete && Vetoes(records),
      (set r | r in receipt) + VetoReasons(origins, joined), DiscardedReasons(origins, joined),
      ids, PublishAll(IdsOf(naming, origins), origins, complete), records));
    if m.receiptBytes > MAX_RECEIPT_BYTES {
      m := Unresolved(size, ReceiptCapacity);
    }
  }

  // ---- The checks ----

  predicate OccurrenceShaped(o: Occurrence) {
    o.span.page > 0 && o.span.end > o.span.start
  }

  predicate OriginShaped(o: VerifiedOrigin) {
    && |o.bindings| <= MAX_CITATIONS
    && (forall b :: b in o.bindings ==>
          |b.occurrences| <= MAX_OCCURRENCES && forall x :: x in b.occurrences ==> OccurrenceShaped(x))
    && (o.verified ==> o.source == ExactBound && o.crosscheck == Consistent && o.relevance.Some? && o.reason == None)
  }

  // The last origin stored under a key, as `new Map` keeps it.
  function OriginAt(origins: seq<VerifiedOrigin>, key: OriginKey): Option<VerifiedOrigin> {
    if origins == [] then None
    else if origins[|origins| - 1].key == key then Some(origins[|origins| - 1])
    else OriginAt(origins[..|origins| - 1], key)
  }

  predicate AllPresent(origins: seq<VerifiedOrigin>, keys: seq<OriginKey>) {
    forall k :: k in keys ==> OriginAt(origins, k).Some?
  }

  function Members(origins: seq<VerifiedOrigin>, keys: seq<OriginKey>): seq<VerifiedOrigin>
    requires AllPresent(origins, keys)
  {
    seq(|keys|, i requires 0 <= i < |keys| => OriginAt(origins, keys[i]).value)
  }

  // The joined fields recomputed from the members.
  predicate JoinedAs(r: Joined, group: seq<VerifiedOrigin>) {
    var sole := Sole(RelevancesAt(group));
    var crosscheck := ExpectedCrosscheck(group, sole.Some?);
    && r.relevance == (if sole.Some? then sole.value else None)
    && r.source == Worst(SourcesAt(group))
    && r.crosscheck == crosscheck
    && r.verified == ((forall o :: o in group ==> o.verified) && sole.Some? && crosscheck == Consistent)
    && forall o :: o in group ==> o.kind == r.kind && o.mergedId == r.mergedId && o.content == r.content
  }

  function RelevancesAt(group: seq<VerifiedOrigin>): seq<Option<Relevance>> {
    seq(|group|, i requires 0 <= i < |group| => group[i].relevance)
  }

  function SourcesAt(group: seq<VerifiedOrigin>): seq<SourceBinding> {
    seq(|group|, i requires 0 <= i < |group| => group[i].source)
  }

  function ExpectedCrosscheck(group: seq<VerifiedOrigin>, sole: bool): Crosscheck {
    if (exists o :: o in group && o.crosscheck == Disagrees) || (!sole && forall o :: o in group ==> Located(o.source)) then
      Disagrees
    else if (exists o :: o in group && o.crosscheck == Undecided) || !sole then Undecided
    else Consistent
  }

  predicate RecordChecks(r: Joined, origins: seq<VerifiedOrigin>) {
    AllPresent(origins, r.contributors) && JoinedAs(r, Members(origins, r.contributors))
  }

  predicate SemanticsValid(p: Payload) {
    if p.complete then forall r :: r in p.records ==> RecordChecks(r, p.origins)
    else !p.veto && forall r :: r in p.records ==> !r.verified && r.crosscheck == Undecided
  }

  function RecordKeys(records: seq<Joined>): seq<(Kind, Text)> {
    seq(|records|, i requires 0 <= i < |records| => (records[i].kind, records[i].mergedId))
  }

  function OriginKeys(origins: seq<VerifiedOrigin>): seq<OriginKey> {
    seq(|origins|, i requires 0 <= i < |origins| => origins[i].key)
  }

  function FirstOf(pairs: seq<(OriginKey, Text)>): seq<OriginKey> {
    seq(|pairs|, i requires 0 <= i < |pairs| => pairs[i].0)
  }

  predicate Recorded(p: Payload, o: VerifiedOrigin) {
    && o.key in p.ids && p.ids[o.key] == o.mergedId
    && exists r :: r in p.records && r.kind == o.kind && r.mergedId == o.mergedId && r.content == o.content && o.key in r.contributors
  }

  predicate BookkeepingValid(p: Payload) {
    var contributors := Contributors(p.records);
    && AllDifferent(RecordKeys(p.records))
    && AllDifferent(OriginKeys(p.origins))
    && |p.origins| == |contributors|
    && AllDifferent(FirstOf(contributors))
    && |contributors| == |p.ids|
    && (forall c :: c in contributors ==> c.0 in p.ids && p.ids[c.0] == c.1)
    && forall o :: o in p.origins ==> Recorded(p, o)
  }

  // `recordAuthorityManifestIntegrity`.
  predicate Integrity(size: Payload -> nat, m: Manifest) {
    var p := m.payload;
    && p.version == VERSION
    && m.capacityBytes == MAX_RECEIPT_BYTES
    && m.receiptBytes == size(p) <= MAX_RECEIPT_BYTES
    && m.digest == p
    && (forall o :: o in p.origins ==> OriginShaped(o))
    && SemanticsValid(p)
    && BookkeepingValid(p)
    && p.veto == (p.complete && Vetoes(p.records))
    && forall r :: r in p.records && r.verified ==> r.source == ExactBound && r.crosscheck == Consistent && r.relevance.Some?
  }

  // `recordAuthorityManifestMatchesDraft`.
  predicate MatchesDraft(size: Payload -> nat, m: Manifest, d: Draft) {
    Integrity(size, m) && SameRows(DraftRows(d), RecordRows(m.payload.records))
  }
}
