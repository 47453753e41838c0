// Merging of model records that say the same thing under different public identifiers.
module CanonicalMerge {
  import opened Sorting
  import opened Groups
  import opened Texts

  datatype Kind = Claim | Requirement | Risk | Rule

  datatype Citation = Citation(document: string, quote: Text)

  // Everything of a record but its public identifier: the canonical serialization, with the document and the citations that
  // are read from the same fields (module FieldMerge). The content stands for the serialization and for its digest.
  datatype Content = Content(document: string, citations: seq<Citation>, serialization: Text)

  datatype Record = Record(id: Text, content: Content)

  datatype Draft = Draft(claims: seq<Record>, requirements: seq<Record>, risks: seq<Record>, rules: seq<Record>)

  // `localeCompare(left, right) < 0`, and the first 16 digits of a content digest.
  datatype Naming = Naming(before: (Text, Text) -> bool, tag: Content -> Text)

  datatype Merge = Merge(content: Content, mergedId: Text, record: Record)

  function ContentOf(r: Record): Content { r.content }

  function Less(naming: Naming): (Record, Record) -> bool {
    (r: Record, s: Record) => naming.before(r.id, s.id)
  }

  function Representative(naming: Naming, group: seq<Record>): (r: Record)
    requires group != []
    ensures r in group
  {
    SortMembers(group, Less(naming));
    Sort(group, Less(naming))[0]
  }

  predicate NonEmpty<K, T>(groups: Grouped<K, T>) {
    forall i :: 0 <= i < |groups| ==> groups[i].1 != []
  }

  lemma GroupsNonEmpty<K, T(!new)>(s: seq<T>, key: T -> K)
    ensures NonEmpty(GroupBy(s, key))
  {
    forall i | 0 <= i < |GroupBy(s, key)| ensures GroupBy(s, key)[i].1 != [] { GroupExact(s, key, i); }
  }

  function BaseIds(naming: Naming, groups: Grouped<Content, Record>): seq<Text>
    requires NonEmpty(groups)
  {
    seq(|groups|, i requires 0 <= i < |groups| => Representative(naming, groups[i].1).id)
  }

  const TILDE: Utf16 := 0x7E

  function Prefix(s: Text): Text { if |s| > 180 then s[..180] else s }

  // A base identifier that several contents share is cut and told apart by a piece of the digest.
  function MergedId(naming: Naming, bases: seq<Text>, base: Text, content: Content): Text {
    if multiset(bases)[base] == 1 then base else Prefix(base) + [TILDE] + naming.tag(content)
  }

  function PlanItem(naming: Naming, groups: Grouped<Content, Record>, i: nat): Merge
    requires NonEmpty(groups) && i < |groups|
  {
    var representative := Representative(naming, groups[i].1);
    var mergedId := MergedId(naming, BaseIds(naming, groups), representative.id, groups[i].0);
    Merge(groups[i].0, mergedId, representative.(id := mergedId))
  }

  function Plan(naming: Naming, records: seq<Record>): seq<Merge> {
    GroupsNonEmpty(records, ContentOf);
    var groups := GroupBy(records, ContentOf);
    seq(|groups|, i requires 0 <= i < |groups| => PlanItem(naming, groups, i))
  }

  method CollectBaseIds(naming: Naming, groups: Grouped<Content, Record>) returns (bases: seq<Text>)
    requires NonEmpty(groups)
    ensures bases == BaseIds(naming, groups)
  {
    hide Representative;
    bases := [];
    for i := 0 to |groups|
      invariant |bases| == i
      invariant forall j :: 0 <= j < i ==> bases[j] == Representative(naming, groups[j].1).id
    {
      bases := bases + [Representative(naming, groups[i].1).id];
    }
  }

  method CountBaseIds(bases: seq<Text>) returns (counts: map<Text, nat>)
    ensures forall b :: b in bases ==> b in counts && counts[b] == multiset(bases)[b]
  {
    counts := map[];
    for i := 0 to |bases|
      invariant forall b :: b in bases[..i] <==> b in counts
      invariant forall b :: b in counts ==> counts[b] == multiset(bases[..i])[b]
    {
      assert bases[..i + 1] == bases[..i] + [bases[i]];
      counts := counts[bases[i] := (if bases[i] in counts then counts[bases[i]] else 0) + 1];
    }
    assert bases[..|bases|] == bases;
  }

  method PlanCanonicalRecordMerge(naming: Naming, records: seq<Record>) returns (plan: seq<Merge>)
    ensures plan == Plan(naming, records)
  {
    hide Representative, GroupBy;
    GroupsNonEmpty(records, ContentOf);
    var groups := Collect(records, ContentOf);
    var bases := CollectBaseIds(naming, groups);
    var counts := CountBaseIds(bases);
    plan := [];
    for i := 0 to |groups|
      invariant |plan| == i
      invariant forall j :: 0 <= j < i ==> plan[j] == PlanItem(naming, groups, j)
    {
      var representative := Representative(naming, groups[i].1);
      assert representative.id == bases[i] && bases[i] in bases;
      var mergedId := if counts[bases[i]] == 1 then bases[i] else Prefix(bases[i]) + [TILDE] + naming.tag(groups[i].0);
      plan := plan + [Merge(groups[i].0, mergedId, representative.(id := mergedId))];
    }
  }

  // The plan has one item for each content, and that item keeps the content.
  lemma ItemKeepsContent(naming: Naming, records: seq<Record>, i: nat) returns (r: Record)
    requires i < |Plan(naming, records)|
    ensures Plan(naming, records)[i].record == Record(Plan(naming, records)[i].mergedId, Plan(naming, records)[i].content)
    ensures r in records && r.content == Plan(naming, records)[i].content
    ensures |GroupBy(records, ContentOf)| == |Plan(naming, records)| && NonEmpty(GroupBy(records, ContentOf))
    ensures |BaseIds(naming, GroupBy(records, ContentOf))| == |Plan(naming, records)|
    ensures BaseIds(naming, GroupBy(records, ContentOf))[i] == r.id
    ensures Plan(naming, records)[i].mergedId ==
            MergedId(naming, BaseIds(naming, GroupBy(records, ContentOf)), r.id, r.content)
  {
    hide GroupBy, Representative, MergedId;
    GroupsNonEmpty(records, ContentOf);
    var groups := GroupBy(records, ContentOf);
    GroupExact(records, ContentOf, i);
    r := Representative(naming, groups[i].1);
    assert r in groups[i].1 && ContentOf(r) == groups[i].0;
  }

  lemma ContentsDistinct(naming: Naming, records: seq<Record>, i: nat, j: nat)
    requires i < j < |Plan(naming, records)|
    ensures Plan(naming, records)[i].content != Plan(naming, records)[j].content
  {
    hide GroupBy, Representative, MergedId;
    GroupKeysDistinct(records, ContentOf, i, j);
  }

  lemma ContentIsPlanned(naming: Naming, records: seq<Record>, r: Record) returns (i: nat)
    requires r in records
    ensures i < |Plan(naming, records)| && Plan(naming, records)[i].content == r.content
  {
    hide GroupBy, Representative, MergedId;
    GroupOfElement(records, ContentOf, r);
    var groups := GroupBy(records, ContentOf);
    i :| 0 <= i < |groups| && groups[i].0 == ContentOf(r) && r in groups[i].1;
  }

  // `plan.get(canonical)?.mergedId`
  function LookUp(plan: seq<Merge>, content: Content): Text {
    if plan == [] then []
    else if plan[0].content == content then plan[0].mergedId
    else LookUp(plan[1..], content)
  }

  lemma {:induction false} LookUpAt(plan: seq<Merge>, i: nat)
    requires i < |plan|
    requires forall j, k :: 0 <= j < k < |plan| ==> plan[j].content != plan[k].content
    ensures LookUp(plan, plan[i].content) == plan[i].mergedId
  {
    if i > 0 {
      LookUpAt(plan[1..], i - 1);
    }
  }

  // Two records receive the same merged content exactly when they differ at most in their public identifier.
  ghost predicate MergedTogether(naming: Naming, records: seq<Record>, r: Record, s: Record) {
    exists i :: 0 <= i < |Plan(naming, records)| && Plan(naming, records)[i].content == r.content && Plan(naming, records)[i].content == s.content
  }

  lemma MergesExactlyEqualContents(naming: Naming, records: seq<Record>, r: Record, s: Record)
    requires r in records && s in records
    ensures MergedTogether(naming, records, r, s) <==> r.(id := s.id) == s
  {
    hide Plan;
    if r.content == s.content {
      var i := ContentIsPlanned(naming, records, r);
      assert Plan(naming, records)[i].content == s.content;
    }
  }

  // ---- When merged identifiers differ ----

  // The base identifiers of the plan, one for each of its items.
  function Bases(naming: Naming, records: seq<Record>): (bases: seq<Text>)
    ensures |bases| == |Plan(naming, records)|
  {
    GroupsNonEmpty(records, ContentOf);
    BaseIds(naming, GroupBy(records, ContentOf))
  }

  // Under a comparison that orders all identifiers, the base identifier of a content is the least one it comes with, in
  // whatever order the records are listed.
  lemma BaseIsLeast(naming: Naming, records: seq<Record>, i: nat, r: Record)
    requires WeakOrder(naming.before)
    requires i < |Plan(naming, records)| && r in records && r.content == Plan(naming, records)[i].content
    ensures !naming.before(r.id, Bases(naming, records)[i])
    ensures Record(Bases(naming, records)[i], r.content) in records
  {
    hide GroupBy;
    var groups := GroupBy(records, ContentOf);
    GroupExact(records, ContentOf, i);
    var group := groups[i].1;
    assert r in group;
    var sorted := Sort(group, Less(naming));
    SortMembers(group, Less(naming));
    WeakByIds(naming);
    SortNeverDescends(group, Less(naming));
    var j :| 0 <= j < |sorted| && sorted[j] == r;
    assert j == 0 || !Less(naming)(sorted[j], sorted[0]);
    var s := Representative(naming, group);
    assert ContentOf(s) == groups[i].0;
    assert s == Record(s.id, r.content);
  }

  lemma WeakByIds(naming: Naming)
    requires WeakOrder(naming.before)
    ensures WeakOrder(Less(naming))
  {
    forall r, s | Less(naming)(r, s) ensures !Less(naming)(s, r) { assert naming.before(r.id, s.id); }
    forall r, s, u | Less(naming)(r, u) ensures Less(naming)(r, s) || Less(naming)(s, u) {
      assert naming.before(r.id, s.id) || naming.before(s.id, u.id);
    }
  }

  // Several contents share the base identifier of item `i`.
  predicate Ambiguous(bases: seq<Text>, i: nat)
    requires i < |bases|
  {
    multiset(bases)[bases[i]] > 1
  }

  function Renamed(naming: Naming, base: Text, content: Content): Text {
    Prefix(base) + [TILDE] + naming.tag(content)
  }

  // An identifier that one content has for itself is the one that an ambiguous content is renamed to.
  ghost predicate NameTaken(naming: Naming, records: seq<Record>) {
    exists i, j :: TakenAt(naming, records, i, j)
  }

  ghost predicate TakenAt(naming: Naming, records: seq<Record>, i: int, j: int) {
    var bases, plan := Bases(naming, records), Plan(naming, records);
    && 0 <= i < |bases| && 0 <= j < |bases|
    && !Ambiguous(bases, i) && Ambiguous(bases, j)
    && bases[i] == Renamed(naming, bases[j], plan[j].content)
  }

  // Two ambiguous contents agree in what is kept of their identifiers and in their digest pieces.
  ghost predicate NameShared(naming: Naming, records: seq<Record>) {
    exists i, j :: SharedAt(naming, records, i, j)
  }

  ghost predicate SharedAt(naming: Naming, records: seq<Record>, i: int, j: int) {
    var bases, plan := Bases(naming, records), Plan(naming, records);
    && 0 <= i < j < |bases|
    && Ambiguous(bases, i) && Ambiguous(bases, j)
    && Prefix(bases[i]) == Prefix(bases[j]) && naming.tag(plan[i].content) == naming.tag(plan[j].content)
  }

  // The first 16 digits of a digest.
  predicate DigestPieces(naming: Naming, records: seq<Record>) {
    forall r :: r in records ==> |naming.tag(r.content)| == 16
  }

  ghost predicate MergedIdsDiffer(naming: Naming, records: seq<Record>) {
    var plan := Plan(naming, records);
    forall i, j :: 0 <= i < j < |plan| ==> plan[i].mergedId != plan[j].mergedId
  }

  lemma ItemId(naming: Naming, records: seq<Record>, i: nat)
    requires i < |Plan(naming, records)|
    ensures
      var bases, plan := Bases(naming, records), Plan(naming, records);
      && plan[i].mergedId == (if Ambiguous(bases, i) then Renamed(naming, bases[i], plan[i].content) else bases[i])
      && (DigestPieces(naming, records) ==> |naming.tag(plan[i].content)| == 16)
  {
    hide GroupBy, Representative, BaseIds, Plan;
    var r := ItemKeepsContent(naming, records, i);
    assert Bases(naming, records)[i] in Bases(naming, records);
  }

  lemma ItemsCollide(naming: Naming, records: seq<Record>, i: nat, j: nat)
    requires DigestPieces(naming, records) && i < j < |Plan(naming, records)|
    ensures Plan(naming, records)[i].mergedId == Plan(naming, records)[j].mergedId <==>
            || TakenAt(naming, records, i, j) || TakenAt(naming, records, j, i) || SharedAt(naming, records, i, j)
  {
    hide Plan, Bases;
    var bases, plan := Bases(naming, records), Plan(naming, records);
    ItemId(naming, records, i);
    ItemId(naming, records, j);
    if !Ambiguous(bases, i) && !Ambiguous(bases, j) {
      if bases[i] == bases[j] { TwiceCounted(bases, i, j); }
    } else if Ambiguous(bases, i) && Ambiguous(bases, j) {
      SameRenamed(Prefix(bases[i]), naming.tag(plan[i].content), Prefix(bases[j]), naming.tag(plan[j].content));
    }
  }

  // All merged identifiers differ exactly when no renaming hits an identifier in use, and none hits another renaming.
  lemma MergedIdsDifferExactly(naming: Naming, records: seq<Record>)
    requires DigestPieces(naming, records)
    ensures MergedIdsDiffer(naming, records) <==> !NameTaken(naming, records) && !NameShared(naming, records)
  {
    hide Plan, TakenAt, SharedAt;
    var plan := Plan(naming, records);
    forall i, j | 0 <= i < j < |plan|
      ensures plan[i].mergedId == plan[j].mergedId <==>
              || TakenAt(naming, records, i, j) || TakenAt(naming, records, j, i) || SharedAt(naming, records, i, j)
    {
      ItemsCollide(naming, records, i, j);
    }
    forall i, j | TakenAt(naming, records, i, j) ensures 0 <= i < |plan| && 0 <= j < |plan| && i != j {
      TakenRange(naming, records, i, j);
    }
    forall i, j | SharedAt(naming, records, i, j) ensures 0 <= i < j < |plan| { SharedRange(naming, records, i, j); }
  }

  lemma TakenRange(naming: Naming, records: seq<Record>, i: int, j: int)
    requires TakenAt(naming, records, i, j)
    ensures 0 <= i < |Plan(naming, records)| && 0 <= j < |Plan(naming, records)| && i != j
  {
    hide Plan, Bases;
  }

  lemma SharedRange(naming: Naming, records: seq<Record>, i: int, j: int)
    requires SharedAt(naming, records, i, j)
    ensures 0 <= i < j < |Plan(naming, records)|
  {
    hide Plan, Bases;
  }

  // Digest pieces that tell the contents of the records apart.
  ghost predicate PiecesSeparate(naming: Naming, records: seq<Record>) {
    && DigestPieces(naming, records)
    && forall r, s :: r in records && s in records && r.content != s.content ==> naming.tag(r.content) != naming.tag(s.content)
  }

  // When no two digests begin alike, only an identifier in use can be hit.
  lemma MergedIdsDifferUnlessTaken(naming: Naming, records: seq<Record>)
    requires PiecesSeparate(naming, records)
    ensures MergedIdsDiffer(naming, records) <==> !NameTaken(naming, records)
  {
    hide Plan, Bases, NameTaken;
    MergedIdsDifferExactly(naming, records);
    forall i, j ensures !SharedAt(naming, records, i, j) {
      if SharedAt(naming, records, i, j) {
        var r := ItemKeepsContent(naming, records, i);
        var s := ItemKeepsContent(naming, records, j);
        ContentsDistinct(naming, records, i, j);
      }
    }
  }

  predicate HasTilde(s: Text) { TILDE in s }

  // Sufficient for distinct merged identifiers: no tilde in a public identifier, and digest pieces that tell the
  // contents apart.
  ghost predicate Separable(naming: Naming, records: seq<Record>) {
    PiecesSeparate(naming, records) && forall r :: r in records ==> !HasTilde(r.id)
  }

  lemma SeparableIdsDiffer(naming: Naming, records: seq<Record>)
    requires Separable(naming, records)
    ensures MergedIdsDiffer(naming, records) && !NameTaken(naming, records)
  {
    hide Plan, Bases, MergedIdsDiffer;
    MergedIdsDifferUnlessTaken(naming, records);
    forall i, j | TakenAt(naming, records, i, j) ensures exists r :: r in records && HasTilde(r.id) {
      TakenHasTilde(naming, records, i, j);
    }
  }

  lemma TakenHasTilde(naming: Naming, records: seq<Record>, i: int, j: int)
    requires TakenAt(naming, records, i, j)
    ensures exists r :: r in records && HasTilde(r.id)
  {
    hide Plan, BaseIds;
    var r := ItemKeepsContent(naming, records, i);
    TildeIn(Prefix(Bases(naming, records)[j]), naming.tag(Plan(naming, records)[j].content));
  }

  lemma TwiceCounted(s: seq<Text>, i: nat, j: nat)
    requires i < j < |s| && s[i] == s[j]
    ensures multiset(s)[s[i]] >= 2
  {
    assert s == s[..j] + [s[j]] + s[j + 1..];
    assert s[i] in s[..j];
  }

  lemma TildeIn(a: Text, b: Text)
    ensures HasTilde(a + [TILDE] + b)
  {
    assert (a + [TILDE] + b)[|a|] == TILDE;
  }

  lemma SameRenamed(a: Text, b: Text, c: Text, d: Text)
    requires |b| == |d|
    ensures a + [TILDE] + b == c + [TILDE] + d <==> a == c && b == d
  {
    var s, t := a + [TILDE] + b, c + [TILDE] + d;
    assert a == s[..|a|] && b == s[|a| + 1..];
    assert c == t[..|c|] && d == t[|c| + 1..];
  }

  // Whatever the order of identifiers and the digests are: a record that is already called what an ambiguous identifier is
  // renamed to collides with it, while the two contents of that identifier are told apart.
  lemma MergedIdsMayCollide(naming: Naming, base: Text, x: Content, y: Content, z: Content)
    requires x != y && y != z && x != z && naming.tag(x) != naming.tag(y) && Renamed(naming, base, x) != base
    ensures
      var records := [Record(base, x), Record(base, y), Record(Renamed(naming, base, x), z)];
      var plan := Plan(naming, records);
      && |plan| == 3
      && plan[0].mergedId == plan[2].mergedId && plan[0].content != plan[2].content
      && plan[0].mergedId != plan[1].mergedId
      && NameTaken(naming, records)
  {
    hide Plan, Bases, Renamed, Ambiguous;
    var records := [Record(base, x), Record(base, y), Record(Renamed(naming, base, x), z)];
    CollisionBases(naming, records, base, x, y, z);
    CollisionCounts(base, Renamed(naming, base, x));
    ItemId(naming, records, 0);
    ItemId(naming, records, 1);
    ItemId(naming, records, 2);
    RenamedApart(naming, base, x, y);
    assert TakenAt(naming, records, 2, 0);
  }

  lemma CollisionCounts(base: Text, other: Text)
    requires base != other
    ensures
      var bases := [base, base, other];
      Ambiguous(bases, 0) && Ambiguous(bases, 1) && !Ambiguous(bases, 2)
  {
  }

  lemma RenamedApart(naming: Naming, base: Text, x: Content, y: Content)
    ensures Renamed(naming, base, x) == Renamed(naming, base, y) <==> naming.tag(x) == naming.tag(y)
  {
    var front := Prefix(base) + [TILDE];
    assert naming.tag(x) == (front + naming.tag(x))[|front|..];
    assert naming.tag(y) == (front + naming.tag(y))[|front|..];
  }

  lemma CollisionBases(naming: Naming, records: seq<Record>, base: Text, x: Content, y: Content, z: Content)
    requires x != y && y != z && x != z
    requires records == [Record(base, x), Record(base, y), Record(Renamed(naming, base, x), z)]
    ensures Bases(naming, records) == [base, base, Renamed(naming, base, x)]
    ensures
      var plan := Plan(naming, records);
      |plan| == 3 && plan[0].content == x && plan[1].content == y && plan[2].content == z
  {
    hide Representative, GroupBy, Renamed;
    FirstAlone(records, ContentOf);
    FirstAlone(records[1..], ContentOf);
    FirstAlone(records[2..], ContentOf);
    assert records[1..][1..] == records[2..] && records[2..][1..] == [];
    GroupsNonEmpty(records, ContentOf);
    var groups := GroupBy(records, ContentOf);
    EmptyGroups<Content, Record>(ContentOf);
    assert |groups| == 3 && groups[0].1 == [records[0]] && groups[1].1 == [records[1]] && groups[2].1 == [records[2]];
  }

  // `mergeDrafts`: the records of each kind are merged over all drafts; too many records are an error.
  function Flat(drafts: seq<Draft>, kind: Kind): seq<Record> {
    if drafts == [] then [] else Flat(drafts[..|drafts| - 1], kind) + RecordsOfKind(drafts[|drafts| - 1], kind)
  }

  function RecordsOfKind(d: Draft, kind: Kind): seq<Record> {
    match kind
    case Claim => d.claims
    case Requirement => d.requirements
    case Risk => d.risks
    case Rule => d.rules
  }

  function Limit(kind: Kind): nat {
    match kind
    case Claim => 1_000
    case Requirement => 1_000
    case Risk => 500
    case Rule => 100
  }

  function MergedRecords(naming: Naming, values: seq<Record>): seq<Record> {
    var plan := Plan(naming, values);
    seq(|plan|, i requires 0 <= i < |plan| => plan[i].record)
  }

  function MergeDrafts(naming: Naming, drafts: seq<Draft>): Option<Draft> {
    if drafts == [] || exists kind :: |Plan(naming, Flat(drafts, kind))| > Limit(kind) then None
    else Some(Draft(MergedRecords(naming, Flat(drafts, Claim)), MergedRecords(naming, Flat(drafts, Requirement)),
                    MergedRecords(naming, Flat(drafts, Risk)), MergedRecords(naming, Flat(drafts, Rule))))
  }

  // ---- The answers on the identifiers themselves ----

  ghost predicate SharesBase(bases: seq<Text>, i: int) {
    0 <= i < |bases| && exists j :: 0 <= j < |bases| && j != i && bases[j] == bases[i]
  }

  lemma AmbiguousExactly(bases: seq<Text>, i: nat)
    requires i < |bases|
    ensures Ambiguous(bases, i) <==> SharesBase(bases, i)
  {
    if j :| 0 <= j < |bases| && j != i && bases[j] == bases[i] {
      TwiceCounted(bases, if i < j then i else j, if i < j then j else i);
    } else {
      var b := bases[i];
      assert bases == bases[..i] + [b] + bases[i + 1..];
      assert b !in bases[..i] && b !in bases[i + 1..];
      assert multiset(bases)[b] == multiset(bases[..i])[b] + 1 + multiset(bases[i + 1..])[b];
    }
  }

  // Each content keeps its least identifier, unless another content has the same one: then at most 180 units of it are
  // kept, followed by a tilde and the digest piece.
  lemma ItemExactly(naming: Naming, records: seq<Record>, i: nat)
    requires i < |Plan(naming, records)|
    ensures
      var item, bases := Plan(naming, records)[i], Bases(naming, records);
      && item.record.id == item.mergedId && item.record.content == item.content
      && item.mergedId ==
         if SharesBase(bases, i)
         then (if |bases[i]| <= 180 then bases[i] else bases[i][..180]) + [0x7E] + naming.tag(item.content)
         else bases[i]
  {
    hide Plan, Bases, Ambiguous, SharesBase;
    AmbiguousExactly(Bases(naming, records), i);
    ItemId(naming, records, i);
    var r := ItemKeepsContent(naming, records, i);
  }

  ghost function Contents(records: seq<Record>): set<Content> {
    set r | r in records :: r.content
  }

  lemma {:induction false} CountDistinct<T(!new)>(s: seq<T>)
    requires Distinct(s)
    ensures |Elements(s)| == |s|
  {
    if s != [] {
      CountDistinct(s[1..]);
      assert s[0] !in Elements(s[1..]);
      assert Elements(s) == {s[0]} + Elements(s[1..]);
    }
  }

  // The plan has one item for each content of the records.
  lemma PlanCounts(naming: Naming, records: seq<Record>)
    ensures |Plan(naming, records)| == |Contents(records)|
  {
    hide Plan;
    var plan := Plan(naming, records);
    var contents := seq(|plan|, i requires 0 <= i < |plan| => plan[i].content);
    forall i, j | 0 <= i < j < |contents| ensures contents[i] != contents[j] { ContentsDistinct(naming, records, i, j); }
    CountDistinct(contents);
    forall c ensures c in Elements(contents) <==> c in Contents(records) {
      if c in contents {
        var i :| 0 <= i < |contents| && contents[i] == c;
        var r := ItemKeepsContent(naming, records, i);
      }
      if c in Contents(records) {
        var r :| r in records && r.content == c;
        var i := ContentIsPlanned(naming, records, r);
        assert contents[i] == c;
      }
    }
    assert Elements(contents) == Contents(records);
  }

  // Merging fails without drafts, and when a kind has too many different contents: 1,000 claims, 1,000 requirements,
  // 500 risks or 100 rules. Otherwise the merged draft lists the planned records of each kind.
  lemma MergeDraftsExactly(naming: Naming, drafts: seq<Draft>)
    ensures MergeDrafts(naming, drafts) == None <==>
      || |drafts| == 0
      || |Contents(Flat(drafts, Claim))| > 1000 || |Contents(Flat(drafts, Requirement))| > 1000
      || |Contents(Flat(drafts, Risk))| > 500 || |Contents(Flat(drafts, Rule))| > 100
    ensures MergeDrafts(naming, drafts).Some? ==>
      forall kind ::
        var merged, plan := RecordsOfKind(MergeDrafts(naming, drafts).value, kind), Plan(naming, Flat(drafts, kind));
        |merged| == |plan| && forall i :: 0 <= i < |plan| ==> merged[i] == plan[i].record
  {
    hide Plan, Flat, Contents;
    forall kind ensures |Plan(naming, Flat(drafts, kind))| == |Contents(Flat(drafts, kind))| { PlanCounts(naming, Flat(drafts, kind)); }
    assert |Plan(naming, Flat(drafts, Claim))| <= Limit(Claim) && |Plan(naming, Flat(drafts, Requirement))| <= Limit(Requirement) &&
           |Plan(naming, Flat(drafts, Risk))| <= Limit(Risk) && |Plan(naming, Flat(drafts, Rule))| <= Limit(Rule) ==>
           forall kind :: |Plan(naming, Flat(drafts, kind))| <= Limit(kind);
  }
}
