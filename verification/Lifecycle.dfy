/** What becomes of the facts of one group: the declarative side of `reconcileVersionedFacts`.
    `s` is always a group sorted by `compareFacts`, `u` the set of unauthorized mutation ids. */
module Lifecycle {
  import opened Sorting
  import opened Facts

  datatype Status = Active | Superseded | Conflicted
  datatype Reconciled = Reconciled(fact: Fact, status: Status)

  /** The public conflict record is a function of the first fact of its stage (id and topic) and of its
      candidates (values, citations, safe answer, lineage). */
  datatype Conflict = Conflict(head: Fact, candidates: seq<Fact>)

  predicate IsCandidate(o: TextRules, u: set<string>, f: Fact) {
    HasVerifiedCitations(o, f) && f.effect != Delete && f.id !in u
  }

  predicate Replaces(o: TextRules, u: set<string>, f: Fact) {
    HasVerifiedCitations(o, f) && f.id !in u && (f.effect == Replace || f.effect == Delete)
  }

  // ---- conflict predicates, over a list of candidates ----

  function ConflictIdentity(o: TextRules, f: Fact): Option<string> {
    match o.closedIdentity(f)
    case Some(k) => Some(k)
    case None => if CanonicalTopicKey(o, f) == HORIZON_KEY then Some(HORIZON_KEY) else None
  }

  predicate SharedIdentity(o: TextRules, c: seq<Fact>) {
    |c| >= 2 && ConflictIdentity(o, c[0]).Some? &&
    forall f :: f in c ==> ConflictIdentity(o, f) == ConflictIdentity(o, c[0])
  }

  predicate ScalarConflict(o: TextRules, c: seq<Fact>) {
    && SharedIdentity(o, c)
    && (forall f :: f in c ==> o.signature(f) != "")
    && exists f :: f in c && o.signature(f) != o.signature(c[0])
  }

  predicate ReplacementConflict(o: TextRules, c: seq<Fact>) {
    (exists f :: f in c && f.effect == Replace) && SharedIdentity(o, c)
  }

  function OwnedKey(o: TextRules, f: Fact): Option<string> {
    if f.factKey.Some? && f.factKey.value != "" then Some(o.normalize(f.factKey.value)) else o.sourceKey(f)
  }

  predicate TwoValues(o: TextRules, c: seq<Fact>) {
    c != [] && exists f :: f in c && o.normalize(f.value) != o.normalize(c[0].value)
  }

  predicate CategoricalConflict(o: TextRules, c: seq<Fact>) {
    |c| >= 2 && (forall f :: f in c ==> OwnedKey(o, f) == Some(CHECKLIST_KEY)) && TwoValues(o, c)
  }

  predicate ConflictAtStage(o: TextRules, c: seq<Fact>) {
    TwoValues(o, c) && (ReplacementConflict(o, c) || ScalarConflict(o, c) || CategoricalConflict(o, c))
  }

  predicate ConflictAtEnd(o: TextRules, c: seq<Fact>) {
    ScalarConflict(o, c) || CategoricalConflict(o, c)
  }

  // ---- the lifecycle of a group ----

  predicate LaterReplaced(o: TextRules, u: set<string>, s: seq<Fact>, f: Fact) {
    exists g :: g in s && Replaces(o, u, g) && StageLess(o, f, g)
  }

  predicate Survives(o: TextRules, u: set<string>, s: seq<Fact>, f: Fact) {
    IsCandidate(o, u, f) && !LaterReplaced(o, u, s, f)
  }

  function Survivors(o: TextRules, u: set<string>, s: seq<Fact>): seq<Fact> {
    Filter(s, f => Survives(o, u, s, f))
  }

  function StageMates(o: TextRules, s: seq<Fact>, f: Fact): seq<Fact> {
    Filter(s, g => SameStage(o, g, f))
  }

  function StageCandidates(o: TextRules, u: set<string>, s: seq<Fact>, f: Fact): seq<Fact> {
    Filter(StageMates(o, s, f), g => IsCandidate(o, u, g))
  }

  predicate StageConflict(o: TextRules, u: set<string>, s: seq<Fact>, f: Fact) {
    ConflictAtStage(o, StageCandidates(o, u, s, f))
  }

  /** Status before the cross-stage check at the end of the group. */
  function StagedStatus(o: TextRules, u: set<string>, s: seq<Fact>, f: Fact): Status {
    if !Survives(o, u, s, f) then Superseded
    else if StageConflict(o, u, s, f) then Conflicted
    else Active
  }

  function Hits(o: TextRules, u: set<string>, s: seq<Fact>): seq<Fact> {
    Filter(Survivors(o, u, s), f => StageConflict(o, u, s, f))
  }

  /** The conflict of the last surviving stage that is in conflict. */
  function Latest(o: TextRules, u: set<string>, s: seq<Fact>): Option<Conflict> {
    var hits := Hits(o, u, s);
    if hits == [] then None
    else Some(StageRecord(o, u, s, hits[|hits| - 1]))
  }

  function StageRecord(o: TextRules, u: set<string>, s: seq<Fact>, f: Fact): Conflict
    requires f in s
  {
    assert SameStage(o, f, f);
    Conflict(StageMates(o, s, f)[0], StageCandidates(o, u, s, f))
  }

  predicate FinalConflict(o: TextRules, u: set<string>, s: seq<Fact>) {
    Latest(o, u, s).None? && ConflictAtEnd(o, Survivors(o, u, s))
  }

  function FinalStatus(o: TextRules, u: set<string>, s: seq<Fact>, f: Fact): Status {
    if !Survives(o, u, s, f) then Superseded
    else if StageConflict(o, u, s, f) || FinalConflict(o, u, s) then Conflicted
    else Active
  }

  function Emitted(o: TextRules, u: set<string>, s: seq<Fact>): Option<Conflict> {
    if Latest(o, u, s).Some? then Latest(o, u, s)
    else if FinalConflict(o, u, s) then
      var c := Survivors(o, u, s);
      Some(Conflict(c[0], c))
    else None
  }

  /** A group emits a conflict exactly when it ends with a conflicted fact. */
  lemma ConflictIffEmitted(o: TextRules, u: set<string>, s: seq<Fact>)
    ensures Emitted(o, u, s).Some? <==> exists f :: f in s && FinalStatus(o, u, s, f) == Conflicted
  {
    var c := Survivors(o, u, s);
    if Latest(o, u, s).Some? {
      var f := Hits(o, u, s)[0];
      assert f in Hits(o, u, s);
      assert FinalStatus(o, u, s, f) == Conflicted;
    } else if FinalConflict(o, u, s) {
      assert c[0] in c;
      assert FinalStatus(o, u, s, c[0]) == Conflicted;
    } else {
      forall f | f in s ensures FinalStatus(o, u, s, f) != Conflicted {
        assert f in c && StageConflict(o, u, s, f) ==> f in Hits(o, u, s);
      }
    }
  }

  /** A survivor in conflict shares its stage with candidates that survive and are in conflict as well. */
  lemma StageMatesConflicted(o: TextRules, u: set<string>, s: seq<Fact>, h: Fact, f: Fact)
    requires WellBehaved(o)
    requires Survives(o, u, s, h) && StageConflict(o, u, s, h) && f in StageCandidates(o, u, s, h)
    ensures f in s && Survives(o, u, s, f) && StageConflict(o, u, s, f)
  {
    hide ConflictAtStage, StageLess, WellBehaved, Replaces, IsCandidate;
    assert f in StageMates(o, s, h);
    forall g | g in s && StageLess(o, f, g) ensures StageLess(o, h, g) {
      StageLessTransitive(o, h, f, g);
    }
    FilterCongruence(s, g => SameStage(o, g, h), g => SameStage(o, g, f));
    assert StageCandidates(o, u, s, h) == StageCandidates(o, u, s, f);
  }

  /** Whoever is named in the emitted conflict is itself conflicted. */
  lemma EmittedCandidatesConflicted(o: TextRules, u: set<string>, s: seq<Fact>, f: Fact)
    requires WellBehaved(o)
    requires Emitted(o, u, s).Some? && f in Emitted(o, u, s).value.candidates
    ensures f in s && FinalStatus(o, u, s, f) == Conflicted
  {
    hide ConflictAtStage, ConflictAtEnd, StageConflict, Survives, WellBehaved;
    if Latest(o, u, s).Some? {
      var hits := Hits(o, u, s);
      var h := hits[|hits| - 1];
      assert h in hits;
      StageMatesConflicted(o, u, s, h, f);
    } else {
      assert f in Survivors(o, u, s);
    }
  }

  // ---- one stage more ----

  /** `t` is the next stage after the sorted prefix `p`. */
  ghost predicate NextStage(o: TextRules, p: seq<Fact>, t: seq<Fact>) {
    && t != []
    && (forall f, g :: f in p && g in t ==> StageLess(o, f, g))
    && (forall f, g :: f in t && g in t ==> SameStage(o, f, g))
  }

  predicate StageReplaces(o: TextRules, u: set<string>, t: seq<Fact>) {
    exists g :: g in t && Replaces(o, u, g)
  }

  function Candidates(o: TextRules, u: set<string>, t: seq<Fact>): seq<Fact> {
    Filter(t, g => IsCandidate(o, u, g))
  }

  lemma StageOrderFacts(o: TextRules, p: seq<Fact>, t: seq<Fact>)
    requires WellBehaved(o) && NextStage(o, p, t)
    ensures forall f, g :: f in t && g in p + t ==> !StageLess(o, f, g)
    ensures forall f, g :: f in p && g in t ==> !SameStage(o, f, g) && !SameStage(o, g, f)
    ensures forall f :: f in p ==> f !in t
  {
    forall f, g | f in t && g in p + t ensures !StageLess(o, f, g) {
      if g in p {
        StageLessTransitive(o, g, f, g);
      }
    }
  }

  lemma SurvivorsStep(o: TextRules, u: set<string>, p: seq<Fact>, t: seq<Fact>)
    requires WellBehaved(o) && NextStage(o, p, t)
    ensures Survivors(o, u, p + t) ==
            (if StageReplaces(o, u, t) then [] else Survivors(o, u, p)) + Candidates(o, u, t)
    ensures forall f :: f in p ==>
              (Survives(o, u, p + t, f) <==> Survives(o, u, p, f) && !StageReplaces(o, u, t))
    ensures forall f :: f in t ==> (Survives(o, u, p + t, f) <==> IsCandidate(o, u, f))
  {
    StageOrderFacts(o, p, t);
    var s := p + t;
    forall f | f in p
      ensures Survives(o, u, s, f) <==> Survives(o, u, p, f) && !StageReplaces(o, u, t)
    {
      if LaterReplaced(o, u, p, f) {
        var g :| g in p && Replaces(o, u, g) && StageLess(o, f, g);
        assert g in s;
      }
      if StageReplaces(o, u, t) {
        var g :| g in t && Replaces(o, u, g);
        assert g in s;
      }
    }
    FilterAppend(p, t, f => Survives(o, u, s, f));
    FilterCongruence(t, f => Survives(o, u, s, f), f => IsCandidate(o, u, f));
    if StageReplaces(o, u, t) {
      FilterNone(p, f => Survives(o, u, s, f));
    } else {
      FilterCongruence(p, f => Survives(o, u, s, f), f => Survives(o, u, p, f));
    }
  }

  lemma StageMatesStep(o: TextRules, u: set<string>, p: seq<Fact>, t: seq<Fact>, f: Fact)
    requires WellBehaved(o) && NextStage(o, p, t)
    ensures f in p ==> StageMates(o, p + t, f) == StageMates(o, p, f) &&
                       StageCandidates(o, u, p + t, f) == StageCandidates(o, u, p, f)
    ensures f in t ==> StageMates(o, p + t, f) == t &&
                       StageCandidates(o, u, p + t, f) == Candidates(o, u, t)
  {
    StageOrderFacts(o, p, t);
    FilterAppend(p, t, g => SameStage(o, g, f));
    if f in p {
      FilterNone(t, g => SameStage(o, g, f));
    }
    if f in t {
      FilterNone(p, g => SameStage(o, g, f));
      FilterAll(t, g => SameStage(o, g, f));
    }
  }

  function NewStatus(o: TextRules, u: set<string>, t: seq<Fact>, f: Fact): Status {
    if !IsCandidate(o, u, f) then Superseded
    else if ConflictAtStage(o, Candidates(o, u, t)) then Conflicted
    else Active
  }

  lemma StagedStatusStep(o: TextRules, u: set<string>, p: seq<Fact>, t: seq<Fact>)
    requires WellBehaved(o) && NextStage(o, p, t)
    ensures forall f :: f in p ==>
              (StagedStatus(o, u, p + t, f) ==
               if StageReplaces(o, u, t) then Superseded else StagedStatus(o, u, p, f))
    ensures forall f :: f in t ==> StagedStatus(o, u, p + t, f) == NewStatus(o, u, t, f)
  {
    SurvivorsStep(o, u, p, t);
    forall f | f in p
      ensures StagedStatus(o, u, p + t, f) == if StageReplaces(o, u, t) then Superseded else StagedStatus(o, u, p, f)
    {
      StageMatesStep(o, u, p, t, f);
    }
    forall f | f in t
      ensures StagedStatus(o, u, p + t, f) == NewStatus(o, u, t, f)
    {
      StageMatesStep(o, u, p, t, f);
    }
  }

  lemma HitsStep(o: TextRules, u: set<string>, p: seq<Fact>, t: seq<Fact>)
    requires WellBehaved(o) && NextStage(o, p, t)
    ensures Hits(o, u, p + t) ==
            (if StageReplaces(o, u, t) then [] else Hits(o, u, p)) +
            (if ConflictAtStage(o, Candidates(o, u, t)) then Candidates(o, u, t) else [])
  {
    hide ConflictAtStage, WellBehaved, StageReplaces;
    var s := p + t;
    SurvivorsStep(o, u, p, t);
    var kept := if StageReplaces(o, u, t) then [] else Survivors(o, u, p);
    var c := Candidates(o, u, t);
    var hit := f => StageConflict(o, u, s, f);
    FilterAppend(kept, c, hit);
    forall f | f in c ensures hit(f) == ConflictAtStage(o, c) { StageMatesStep(o, u, p, t, f); }
    forall f | f in kept ensures hit(f) == StageConflict(o, u, p, f) { StageMatesStep(o, u, p, t, f); }
    FilterCongruence(kept, hit, f => StageConflict(o, u, p, f));
    if ConflictAtStage(o, c) {
      FilterAll(c, hit);
    } else {
      FilterNone(c, hit);
    }
  }

  lemma ConflictNeedsCandidates(o: TextRules, u: set<string>, t: seq<Fact>)
    requires ConflictAtStage(o, Candidates(o, u, t))
    ensures Candidates(o, u, t) != []
    ensures Candidates(o, u, t)[|Candidates(o, u, t)| - 1] in t
  {
    var c := Candidates(o, u, t);
    assert c[|c| - 1] in c;
  }

  lemma HitsFromList(o: TextRules, u: set<string>, s: seq<Fact>)
    requires Hits(o, u, s) != []
    ensures Hits(o, u, s)[|Hits(o, u, s)| - 1] in s
  {
    hide StageConflict, Survives;
    var hits := Hits(o, u, s);
    assert hits[|hits| - 1] in hits;
  }

  lemma StageRecordStep(o: TextRules, u: set<string>, p: seq<Fact>, t: seq<Fact>, f: Fact)
    requires WellBehaved(o) && NextStage(o, p, t)
    ensures f in p ==> StageRecord(o, u, p + t, f) == StageRecord(o, u, p, f)
    ensures f in t ==> StageRecord(o, u, p + t, f) == Conflict(t[0], Candidates(o, u, t))
  {
    StageMatesStep(o, u, p, t, f);
  }

  lemma LatestIs(o: TextRules, u: set<string>, s: seq<Fact>)
    ensures Hits(o, u, s) == [] ==> Latest(o, u, s) == None
    ensures Hits(o, u, s) != [] ==>
              Hits(o, u, s)[|Hits(o, u, s)| - 1] in s &&
              Latest(o, u, s) == Some(StageRecord(o, u, s, Hits(o, u, s)[|Hits(o, u, s)| - 1]))
  {
    hide Hits, StageRecord;
    if Hits(o, u, s) != [] { HitsFromList(o, u, s); }
  }

  lemma LatestStep(o: TextRules, u: set<string>, p: seq<Fact>, t: seq<Fact>)
    requires WellBehaved(o) && NextStage(o, p, t)
    ensures Latest(o, u, p + t) ==
            if ConflictAtStage(o, Candidates(o, u, t)) then Some(Conflict(t[0], Candidates(o, u, t)))
            else if StageReplaces(o, u, t) then None
            else Latest(o, u, p)
  {
    hide WellBehaved, NextStage, StageReplaces, ConflictAtStage, Hits, Candidates, Latest, StageRecord;
    HitsStep(o, u, p, t);
    LatestIs(o, u, p);
    LatestIs(o, u, p + t);
    var c, hits := Candidates(o, u, t), Hits(o, u, p);
    if ConflictAtStage(o, c) {
      ConflictNeedsCandidates(o, u, t);
      StageRecordStep(o, u, p, t, c[|c| - 1]);
    } else if !StageReplaces(o, u, t) && hits != [] {
      assert Hits(o, u, p + t) == hits;
      StageRecordStep(o, u, p, t, hits[|hits| - 1]);
    }
  }
}
