/** What reconciliation promises, in terms of the fields of the facts alone: which document overtakes which,
    which facts stay current, which of them conflict, and what every conflict names. */
module ReconcileProperties {
  import opened Sorting
  import opened Facts
  import opened Grouping
  import opened Lifecycle
  import opened ReconcileFacts

  // ---- the order of documents ----

  /** An amendment whose number holds the numeral `n`. */
  ghost predicate Numbered(o: TextRules, f: Fact, n: nat) {
    f.role == Amendment && f.amendmentNumber.Some? && o.firstNumber(f.amendmentNumber.value) == Some(n)
  }

  ghost predicate Unnumbered(o: TextRules, f: Fact) {
    f.role == Amendment && (f.amendmentNumber.Some? ==> o.firstNumber(f.amendmentNumber.value).None?)
  }

  ghost predicate Labelled(o: TextRules, f: Fact, text: string) {
    text == match f.amendmentNumber case None => "" case Some(number) => o.foldLabel(number)
  }

  ghost predicate LabelBefore(o: TextRules, f: Fact, g: Fact) {
    exists x, y :: Labelled(o, f, x) && Labelled(o, g, y) && o.localeLess(x, y)
  }

  /** The document of `g` comes after the one of `f`: an amendment after every base document, amendments by
      their numerals, those without one at the place of the largest safe integer, and ties by label. */
  ghost predicate Overtakes(o: TextRules, g: Fact, f: Fact) {
    && g.role == Amendment
    && (|| f.role == Base
        || (exists m: nat, n: nat :: Numbered(o, f, m) && Numbered(o, g, n) && (m < n || (m == n && LabelBefore(o, f, g))))
        || (exists m: nat :: Numbered(o, f, m) && Unnumbered(o, g) &&
              (m < 9007199254740991 || (m == 9007199254740991 && LabelBefore(o, f, g))))
        || (exists n: nat :: Unnumbered(o, f) && Numbered(o, g, n) &&
              (9007199254740991 < n || (n == 9007199254740991 && LabelBefore(o, f, g))))
        || (Unnumbered(o, f) && Unnumbered(o, g) && LabelBefore(o, f, g)))
  }

  /** Facts of one stage: neither document overtakes the other. */
  ghost predicate Abreast(o: TextRules, f: Fact, g: Fact) {
    !Overtakes(o, f, g) && !Overtakes(o, g, f)
  }

  lemma OvertakesExactly(o: TextRules, f: Fact, g: Fact)
    requires WellBehaved(o)
    ensures Overtakes(o, g, f) <==> StageLess(o, f, g)
  {
    if f.role == Amendment && g.role == Amendment {
      AmendmentOvertakes(o, f, g);
    }
  }

  lemma AmendmentOvertakes(o: TextRules, f: Fact, g: Fact)
    requires f.role == Amendment && g.role == Amendment
    ensures Overtakes(o, g, f) <==> StageLess(o, f, g)
  {
    hide LabelBefore, RankLabel, RankNumber, Numbered, Unnumbered;
    LabelBeforeIs(o, f, g);
    RankOfAmendment(o, f);
    RankOfAmendment(o, g);
    var m, n := RankNumber(o, f), RankNumber(o, g);
    if Numbered(o, f, m) && Numbered(o, g, n) {
      assert Overtakes(o, g, f) <==> m < n || (m == n && LabelBefore(o, f, g));
    } else if Numbered(o, f, m) {
      assert forall k: nat :: !Numbered(o, g, k);
      assert Overtakes(o, g, f) <==> m < n || (m == n && LabelBefore(o, f, g));
    } else if Numbered(o, g, n) {
      assert forall k: nat :: !Numbered(o, f, k);
      assert Overtakes(o, g, f) <==> m < n || (m == n && LabelBefore(o, f, g));
    }
  }

  lemma RankOfAmendment(o: TextRules, f: Fact)
    requires f.role == Amendment
    ensures RankNumber(o, f) >= 0
    ensures Numbered(o, f, RankNumber(o, f)) || (Unnumbered(o, f) && RankNumber(o, f) == 9007199254740991)
    ensures Unnumbered(o, f) <==> !Numbered(o, f, RankNumber(o, f))
    ensures forall n: nat :: Numbered(o, f, n) ==> n == RankNumber(o, f)
  {
  }

  lemma LabelBeforeIs(o: TextRules, f: Fact, g: Fact)
    requires f.role == Amendment && g.role == Amendment
    ensures LabelBefore(o, f, g) <==> o.localeLess(RankLabel(o, f), RankLabel(o, g))
  {
    assert Labelled(o, f, RankLabel(o, f)) && Labelled(o, g, RankLabel(o, g));
  }

  lemma AbreastExactly(o: TextRules, f: Fact, g: Fact)
    requires WellBehaved(o)
    ensures Abreast(o, f, g) <==> SameStage(o, f, g)
  {
    hide Overtakes, RankNumber, RankLabel;
    OvertakesExactly(o, f, g);
    OvertakesExactly(o, g, f);
  }

  // ---- which facts belong together, and the order of the lists ----

  ghost predicate KeyedBy(o: TextRules, f: Fact, key: string) {
    o.closedIdentity(f) == Some(key) || (o.closedIdentity(f) == None && o.fallbackKey(f) == key)
  }

  /** Two facts are linked if and only if one key names both, or they are aliases. */
  lemma LinkedExactly(o: TextRules, f: Fact, g: Fact)
    ensures Linked(o, f, g) <==> o.alias(f, g) || exists key :: KeyedBy(o, f, key) && KeyedBy(o, g, key)
  {
    assert KeyedBy(o, f, CanonicalTopicKey(o, f)) && KeyedBy(o, g, CanonicalTopicKey(o, g));
  }

  /** Reconciled facts are in the order of their ids, conflicts in the order of the slugs of their keys. */
  lemma ListingOrder(o: TextRules, d: set<Fact>, facts: seq<Reconciled>, conflicts: seq<Conflict>)
    requires Outcome(o, d, facts, conflicts) && NeverDescends(conflicts, SlugOrder(o))
    ensures forall i, j :: 0 <= i < j < |facts| ==> o.localeLess(facts[i].fact.id, facts[j].fact.id)
    ensures forall i, j, x, y :: 0 <= i < j < |conflicts| && KeyedBy(o, conflicts[i].head, x) && KeyedBy(o, conflicts[j].head, y) ==>
              !o.localeLess(o.slug(y), o.slug(x))
  {
    hide GroupOf, HasFinalStatus, Emitted;
    forall i, j | 0 <= i < j < |facts| ensures o.localeLess(facts[i].fact.id, facts[j].fact.id) {
      assert IdOrder(o)(facts[i], facts[j]);
    }
    forall i, j, x, y | 0 <= i < j < |conflicts| && KeyedBy(o, conflicts[i].head, x) && KeyedBy(o, conflicts[j].head, y)
      ensures !o.localeLess(o.slug(y), o.slug(x))
    {
      assert !SlugOrder(o)(conflicts[j], conflicts[i]);
    }
  }

  // ---- which facts are current ----

  ghost predicate Evidenced(o: TextRules, f: Fact) {
    && |f.citations| > 0
    && forall i :: 0 <= i < |f.citations| ==>
         && f.citations[i].verified
         && f.citations[i].page != None
         && o.lower(f.documentSha256) == f.citations[i].documentSha256
  }

  /** A fact that may be asserted: an addition, or a replacement that the package authorizes. */
  ghost predicate Usable(o: TextRules, d: set<Fact>, f: Fact) {
    Evidenced(o, f) && (f.effect == Add || (f.effect == Replace && o.authorized(f, d)))
  }

  /** A fact that removes what precedes it. */
  ghost predicate Removes(o: TextRules, d: set<Fact>, g: Fact) {
    Evidenced(o, g) && (g.effect == Replace || g.effect == Delete) && o.authorized(g, d)
  }

  ghost predicate Current(o: TextRules, d: set<Fact>, f: Fact) {
    && Usable(o, d, f)
    && !(exists g :: g in d && Connected(o, d, f, g) && Removes(o, d, g) && Overtakes(o, g, f))
  }

  lemma EvidencedExactly(o: TextRules, f: Fact)
    ensures Evidenced(o, f) <==> HasVerifiedCitations(o, f)
  {
  }

  lemma UsableExactly(o: TextRules, d: set<Fact>, f: Fact)
    requires UniqueIds(d) && f in d
    ensures Usable(o, d, f) <==> IsCandidate(o, Unauthorized(o, d), f)
    ensures Removes(o, d, f) <==> Replaces(o, Unauthorized(o, d), f)
  {
    EvidencedExactly(o, f);
    assert f.id in Unauthorized(o, d) <==> f.effect != Add && !o.authorized(f, d);
  }

  /** A fact ends active or conflicted if and only if it is current. */
  lemma CurrentExactly(o: TextRules, d: set<Fact>, facts: seq<Reconciled>, conflicts: seq<Conflict>, r: Reconciled)
    requires WellBehaved(o) && UniqueIds(d) && Outcome(o, d, facts, conflicts) && r in facts
    ensures r.status != Superseded <==> Current(o, d, r.fact)
  {
    hide WellBehaved, FinalStatus, HasVerifiedCitations, Evidenced, Overtakes, StageLess, GroupOf, Emitted;
    ExactLifecycle(o, d, facts, conflicts, r);
    EvidencedExactly(o, r.fact);
    forall g ensures Evidenced(o, g) <==> HasVerifiedCitations(o, g) { EvidencedExactly(o, g); }
    forall g ensures Overtakes(o, g, r.fact) <==> StageLess(o, r.fact, g) { OvertakesExactly(o, r.fact, g); }
  }

  /** An authorized replacement or deletion of an amendment supersedes every base fact of its component. */
  lemma AmendmentsSupersedeBase(o: TextRules, d: set<Fact>, facts: seq<Reconciled>, conflicts: seq<Conflict>,
                                r: Reconciled, g: Fact)
    requires WellBehaved(o) && UniqueIds(d) && Outcome(o, d, facts, conflicts) && r in facts
    requires g in d && Connected(o, d, r.fact, g) && Removes(o, d, g)
    requires r.fact.role == Base && g.role == Amendment
    ensures r.status == Superseded
  {
    hide Outcome, WellBehaved, Removes, Usable, Connected;
    CurrentExactly(o, d, facts, conflicts, r);
    assert Overtakes(o, g, r.fact);
  }

  /** A base fact never supersedes an amendment: if only base facts remove anything in its component, a usable
      amendment fact stays current. */
  lemma BaseNeverSupersedes(o: TextRules, d: set<Fact>, facts: seq<Reconciled>, conflicts: seq<Conflict>, r: Reconciled)
    requires WellBehaved(o) && UniqueIds(d) && Outcome(o, d, facts, conflicts) && r in facts
    requires Usable(o, d, r.fact)
    requires forall g :: g in d && Connected(o, d, r.fact, g) && Removes(o, d, g) ==> g.role == Base
    ensures r.status != Superseded
  {
    hide Outcome, WellBehaved, Removes, Usable, Connected;
    CurrentExactly(o, d, facts, conflicts, r);
  }

  // ---- which current facts conflict ----

  /** The facts that compete with `f` in its stage. */
  ghost function Rivals(o: TextRules, d: set<Fact>, f: Fact): set<Fact> {
    set g | g in d && Connected(o, d, f, g) && Abreast(o, f, g) && Usable(o, d, g)
  }

  ghost function CurrentRelatives(o: TextRules, d: set<Fact>, f: Fact): set<Fact> {
    set g | g in d && Connected(o, d, f, g) && Current(o, d, g)
  }

  ghost predicate IdentifiedBy(o: TextRules, f: Fact, key: string) {
    || o.closedIdentity(f) == Some(key)
    || (o.closedIdentity(f) == None && o.fallbackKey(f) == key == "derived:projection-horizon")
  }

  ghost predicate OnChecklist(o: TextRules, f: Fact) {
    if f.factKey == None || f.factKey == Some("")
    then o.sourceKey(f) == Some("document:security-requirements-checklist:annex")
    else o.normalize(f.factKey.value) == "document:security-requirements-checklist:annex"
  }

  ghost predicate DifferentValues(o: TextRules, a: Fact, b: Fact) {
    o.normalize(a.value) != o.normalize(b.value)
  }

  ghost predicate DifferentScalars(o: TextRules, a: Fact, b: Fact) {
    o.signature(a) != o.signature(b)
  }

  /** All facts of `s` have one identity that the server closed. */
  ghost predicate OneIdentity(o: TextRules, s: set<Fact>) {
    exists key :: AllIdentified(o, s, key)
  }

  ghost predicate AllIdentified(o: TextRules, s: set<Fact>, key: string) {
    forall f :: f in s ==> IdentifiedBy(o, f, key)
  }

  ghost predicate ScalarsDisagree(o: TextRules, s: set<Fact>) {
    && OneIdentity(o, s)
    && (exists a, b :: a in s && b in s && DifferentScalars(o, a, b))
    && (forall f :: f in s ==> |o.signature(f)| > 0)
  }

  ghost predicate ChecklistDisagrees(o: TextRules, s: set<Fact>) {
    && (exists a, b :: a in s && b in s && DifferentValues(o, a, b))
    && (forall f :: f in s ==> OnChecklist(o, f))
  }

  ghost predicate StageDisagrees(o: TextRules, s: set<Fact>) {
    && (exists a, b :: a in s && b in s && DifferentValues(o, a, b))
    && (|| ((exists f :: f in s && f.effect == Replace) && OneIdentity(o, s))
        || ScalarsDisagree(o, s)
        || (forall f :: f in s ==> OnChecklist(o, f)))
  }

  ghost predicate EndDisagrees(o: TextRules, s: set<Fact>) {
    ScalarsDisagree(o, s) || ChecklistDisagrees(o, s)
  }

  lemma IdentityIs(o: TextRules, f: Fact, key: string)
    ensures IdentifiedBy(o, f, key) <==> ConflictIdentity(o, f) == Some(key)
  {
  }

  lemma SharedIdentityIs(o: TextRules, c: seq<Fact>)
    requires |c| >= 2
    ensures SharedIdentity(o, c) <==> OneIdentity(o, Elements(c))
  {
    hide IdentifiedBy, ConflictIdentity;
    forall f, key ensures IdentifiedBy(o, f, key) <==> ConflictIdentity(o, f) == Some(key) { IdentityIs(o, f, key); }
    assert c[0] in Elements(c);
    if SharedIdentity(o, c) {
      assert AllIdentified(o, Elements(c), ConflictIdentity(o, c[0]).value);
    }
    if OneIdentity(o, Elements(c)) {
      var key :| AllIdentified(o, Elements(c), key);
      forall f | f in c ensures ConflictIdentity(o, f) == Some(key) { assert f in Elements(c); }
    }
  }

  lemma ScalarConflictIs(o: TextRules, c: seq<Fact>)
    ensures ScalarConflict(o, c) <==> ScalarsDisagree(o, Elements(c))
  {
    hide OneIdentity, SharedIdentity;
    if |c| >= 2 {
      SharedIdentityIs(o, c);
      assert c[0] in Elements(c);
    }
    if ScalarsDisagree(o, Elements(c)) {
      var a, b :| a in Elements(c) && b in Elements(c) && DifferentScalars(o, a, b);
      TwoMembers(c, a, b);
      assert o.signature(a) != o.signature(c[0]) || o.signature(b) != o.signature(c[0]);
    }
    if ScalarConflict(o, c) {
      SharedHasTwo(o, c);
      var f :| f in c && o.signature(f) != o.signature(c[0]);
      assert DifferentScalars(o, f, c[0]) && c[0] in Elements(c);
    }
  }

  lemma TwoMembers(c: seq<Fact>, a: Fact, b: Fact)
    requires a in c && b in c && a != b
    ensures |c| >= 2
  {
  }

  lemma SharedHasTwo(o: TextRules, c: seq<Fact>)
    requires SharedIdentity(o, c)
    ensures |c| >= 2
  {
  }

  lemma TwoValuesIs(o: TextRules, c: seq<Fact>)
    ensures TwoValues(o, c) <==> exists a, b :: a in Elements(c) && b in Elements(c) && DifferentValues(o, a, b)
    ensures TwoValues(o, c) ==> |c| >= 2
  {
    if TwoValues(o, c) {
      var f :| f in c && o.normalize(f.value) != o.normalize(c[0].value);
      assert c[0] in Elements(c) && DifferentValues(o, f, c[0]);
      TwoMembers(c, f, c[0]);
    }
    if a, b :| a in Elements(c) && b in Elements(c) && DifferentValues(o, a, b) {
      assert o.normalize(a.value) != o.normalize(c[0].value) || o.normalize(b.value) != o.normalize(c[0].value);
    }
  }

  lemma OnChecklistIs(o: TextRules, f: Fact)
    ensures OnChecklist(o, f) <==> OwnedKey(o, f) == Some(CHECKLIST_KEY)
  {
  }

  lemma CategoricalConflictIs(o: TextRules, c: seq<Fact>)
    ensures CategoricalConflict(o, c) <==> ChecklistDisagrees(o, Elements(c))
  {
    hide OnChecklist, OwnedKey, TwoValues, DifferentValues;
    TwoValuesIs(o, c);
    forall f ensures OnChecklist(o, f) <==> OwnedKey(o, f) == Some(CHECKLIST_KEY) { OnChecklistIs(o, f); }
  }

  /** The tests of the fold on a list of candidates, in terms of pairs of facts. */
  lemma StageDisagreesExactly(o: TextRules, c: seq<Fact>)
    ensures ConflictAtStage(o, c) <==> StageDisagrees(o, Elements(c))
    ensures ConflictAtEnd(o, c) <==> EndDisagrees(o, Elements(c))
  {
    hide DifferentValues, ScalarConflict, CategoricalConflict, TwoValues, SharedIdentity, OnChecklist;
    hide ScalarsDisagree, OneIdentity;
    TwoValuesIs(o, c);
    ScalarConflictIs(o, c);
    CategoricalConflictIs(o, c);
    if |c| >= 2 { SharedIdentityIs(o, c); }
  }

  // ---- from the sorted group to the set of facts ----

  lemma GroupMembers(o: TextRules, d: set<Fact>, f: Fact, s: seq<Fact>)
    requires GroupOf(o, d, f, s)
    ensures forall g :: g in s <==> g in d && Connected(o, d, f, g)
  {
    forall g ensures g in s <==> g in d && Connected(o, d, f, g) {
      assert g in Elements(s) <==> g in Component(o, d, f);
    }
  }

  lemma SurvivesExactly(o: TextRules, d: set<Fact>, f: Fact, s: seq<Fact>, g: Fact)
    requires WellBehaved(o) && UniqueIds(d) && f in d && GroupOf(o, d, f, s) && g in s
    ensures Survives(o, Unauthorized(o, d), s, g) <==> Current(o, d, g)
  {
    hide IsCandidate, Replaces, Usable, Removes, Overtakes, StageLess, WellBehaved, GroupOf, Connected, Unauthorized;
    var u := Unauthorized(o, d);
    GroupMembers(o, d, f, s);
    UsableExactly(o, d, g);
    forall h | h in s ensures h in d && Connected(o, d, g, h) {
      RelativesShared(o, d, f, g, h);
    }
    forall h | h in d && Connected(o, d, g, h) ensures h in s {
      ConnectedTransitive(o, d, f, g, h);
    }
    forall h | h in s ensures (Removes(o, d, h) <==> Replaces(o, u, h)) && (Overtakes(o, h, g) <==> StageLess(o, g, h)) {
      UsableExactly(o, d, h);
      OvertakesExactly(o, g, h);
    }
  }

  lemma RelativesShared(o: TextRules, d: set<Fact>, f: Fact, g: Fact, h: Fact)
    requires WellBehaved(o) && Connected(o, d, f, g) && Connected(o, d, f, h)
    ensures Connected(o, d, g, h)
  {
    hide WellBehaved, Connected;
    ConnectedSymmetric(o, d, f, g);
    ConnectedTransitive(o, d, g, f, h);
  }

  lemma CandidatesAreRivals(o: TextRules, d: set<Fact>, f: Fact, s: seq<Fact>, g: Fact)
    requires WellBehaved(o) && UniqueIds(d) && f in d && GroupOf(o, d, f, s) && g in s
    ensures Elements(StageCandidates(o, Unauthorized(o, d), s, g)) == Rivals(o, d, g)
    ensures StageConflict(o, Unauthorized(o, d), s, g) <==> StageDisagrees(o, Rivals(o, d, g))
  {
    hide IsCandidate, Usable, SameStage, Overtakes, WellBehaved, GroupOf, Connected, Unauthorized, ConflictAtStage,
      StageDisagrees, Abreast, StageCandidates;
    var u := Unauthorized(o, d);
    GroupMembers(o, d, f, s);
    forall h ensures h in StageCandidates(o, u, s, g) <==> h in Rivals(o, d, g) {
      CandidateMember(o, u, s, g, h);
      if h in s {
        RelativesShared(o, d, f, g, h);
        UsableExactly(o, d, h);
        AbreastExactly(o, g, h);
        SameStageSymmetric(o, g, h);
      }
      if h in Rivals(o, d, g) {
        ConnectedTransitive(o, d, f, g, h);
      }
    }
    StageDisagreesExactly(o, StageCandidates(o, u, s, g));
  }

  lemma SameStageSymmetric(o: TextRules, f: Fact, g: Fact)
    ensures SameStage(o, f, g) <==> SameStage(o, g, f)
  {
  }

  lemma CandidateMember(o: TextRules, u: set<string>, s: seq<Fact>, g: Fact, h: Fact)
    ensures h in StageCandidates(o, u, s, g) <==> h in s && SameStage(o, h, g) && IsCandidate(o, u, h)
  {
    hide SameStage, IsCandidate;
    assert h in StageMates(o, s, g) <==> h in s && SameStage(o, h, g);
  }

  /** Some current relative of `f` disagrees within its stage. */
  ghost predicate SomeStageDisagrees(o: TextRules, d: set<Fact>, f: Fact) {
    exists g :: g in CurrentRelatives(o, d, f) && StageDisagrees(o, Rivals(o, d, g))
  }

  lemma LatestExactly(o: TextRules, d: set<Fact>, f: Fact, s: seq<Fact>)
    requires WellBehaved(o) && UniqueIds(d) && f in d && GroupOf(o, d, f, s)
    ensures Elements(Survivors(o, Unauthorized(o, d), s)) == CurrentRelatives(o, d, f)
    ensures Latest(o, Unauthorized(o, d), s).Some? <==> SomeStageDisagrees(o, d, f)
    ensures FinalConflict(o, Unauthorized(o, d), s) <==>
            !SomeStageDisagrees(o, d, f) && EndDisagrees(o, CurrentRelatives(o, d, f))
  {
    hide WellBehaved, GroupOf, Connected, Unauthorized, StageDisagrees, EndDisagrees, Current, Rivals, Survives,
      StageConflict, ConflictAtStage, ConflictAtEnd;
    var u := Unauthorized(o, d);
    GroupMembers(o, d, f, s);
    forall g | g in s
      ensures Survives(o, u, s, g) <==> Current(o, d, g)
      ensures StageConflict(o, u, s, g) <==> StageDisagrees(o, Rivals(o, d, g))
    {
      SurvivesExactly(o, d, f, s, g);
      CandidatesAreRivals(o, d, f, s, g);
    }
    forall g ensures g in Survivors(o, u, s) <==> g in CurrentRelatives(o, d, f) { }
    StageDisagreesExactly(o, Survivors(o, u, s));
    var hits := Hits(o, u, s);
    if hits != [] { assert hits[0] in hits; }
    if SomeStageDisagrees(o, d, f) {
      var g :| g in CurrentRelatives(o, d, f) && StageDisagrees(o, Rivals(o, d, g));
      assert g in Survivors(o, u, s);
      assert g in hits;
    }
  }

  /** A fact ends conflicted if and only if it is current and either its rivals disagree, or no current stage of
      its component disagrees and the current facts of the component do. */
  lemma ConflictedExactly(o: TextRules, d: set<Fact>, facts: seq<Reconciled>, conflicts: seq<Conflict>, r: Reconciled)
    requires WellBehaved(o) && UniqueIds(d) && Outcome(o, d, facts, conflicts) && r in facts
    ensures r.status == Conflicted <==>
            && Current(o, d, r.fact)
            && (|| StageDisagrees(o, Rivals(o, d, r.fact))
                || (!SomeStageDisagrees(o, d, r.fact) && EndDisagrees(o, CurrentRelatives(o, d, r.fact))))
  {
    hide WellBehaved, Unauthorized, Current, Rivals, CurrentRelatives, SomeStageDisagrees, StageDisagrees, EndDisagrees,
      Survives, StageConflict, FinalConflict, GroupOf, Emitted;
    var s :| GroupOf(o, d, r.fact, s) && r.status == FinalStatus(o, Unauthorized(o, d), s, r.fact);
    ConnectedSelf(o, d, r.fact);
    GroupMembers(o, d, r.fact, s);
    SurvivesExactly(o, d, r.fact, s, r.fact);
    CandidatesAreRivals(o, d, r.fact, s, r.fact);
    LatestExactly(o, d, r.fact, s);
  }

  // ---- what every conflict names ----

  /** The listing order: by document, then by digest, then by id. */
  ghost predicate ListedBefore(o: TextRules, f: Fact, g: Fact) {
    || Overtakes(o, g, f)
    || (Abreast(o, f, g) &&
        (|| o.localeLess(f.documentSha256, g.documentSha256)
         || (f.documentSha256 == g.documentSha256 && o.localeLess(f.id, g.id))))
  }

  /** `c` enumerates `s` in listing order. */
  ghost predicate Lists(o: TextRules, c: seq<Fact>, s: set<Fact>) {
    && (forall f :: f in c <==> f in s)
    && forall i, j :: 0 <= i < j < |c| ==> ListedBefore(o, c[i], c[j])
  }

  ghost predicate FirstOfStage(o: TextRules, d: set<Fact>, f: Fact, head: Fact) {
    && head in d && Connected(o, d, f, head) && Abreast(o, f, head)
    && forall g :: g in d && Connected(o, d, f, g) && Abreast(o, f, g) && g != head ==> ListedBefore(o, head, g)
  }

  /** `c` reports the stage of the current fact `f`, the last one of its component whose rivals disagree. */
  ghost predicate ReportsStage(o: TextRules, d: set<Fact>, c: Conflict, f: Fact) {
    && f in d && Current(o, d, f) && StageDisagrees(o, Rivals(o, d, f))
    && (forall g :: g in CurrentRelatives(o, d, f) && StageDisagrees(o, Rivals(o, d, g)) ==> !Overtakes(o, g, f))
    && Lists(o, c.candidates, Rivals(o, d, f))
    && FirstOfStage(o, d, f, c.head)
  }

  /** `c` reports the current facts of the component of `f`, where no stage disagrees by itself. */
  ghost predicate ReportsAll(o: TextRules, d: set<Fact>, c: Conflict, f: Fact) {
    && f in d && !SomeStageDisagrees(o, d, f) && EndDisagrees(o, CurrentRelatives(o, d, f))
    && Lists(o, c.candidates, CurrentRelatives(o, d, f))
    && c.candidates != [] && c.head == c.candidates[0]
  }

  lemma ListedBeforeExactly(o: TextRules, f: Fact, g: Fact)
    requires WellBehaved(o)
    ensures ListedBefore(o, f, g) <==> FactLess(o, f, g)
  {
    hide Overtakes, StageLess, SameStage, Abreast;
    OvertakesExactly(o, f, g);
    AbreastExactly(o, f, g);
  }

  lemma ListsExactly(o: TextRules, c: seq<Fact>, s: set<Fact>)
    requires WellBehaved(o)
    ensures Lists(o, c, s) <==> Elements(c) == s && Ascending(c, FactOrder(o))
  {
    hide WellBehaved, FactLess, ListedBefore;
    forall f, g ensures ListedBefore(o, f, g) <==> FactOrder(o)(f, g) { ListedBeforeExactly(o, f, g); }
    if Lists(o, c, s) { assert Elements(c) == s; }
    if Elements(c) == s {
      forall f ensures f in c <==> f in s { assert f in Elements(c) <==> f in s; }
    }
  }

  /** The survivors and the candidates of a stage are listed in order. */
  lemma SurvivorsListed(o: TextRules, d: set<Fact>, f: Fact, s: seq<Fact>)
    requires WellBehaved(o) && UniqueIds(d) && f in d && GroupOf(o, d, f, s)
    ensures Lists(o, Survivors(o, Unauthorized(o, d), s), CurrentRelatives(o, d, f))
  {
    hide Survives, FactOrder, CurrentRelatives, Elements, Lists, Unauthorized, WellBehaved;
    var u := Unauthorized(o, d);
    LatestExactly(o, d, f, s);
    FilterAscending(s, g => Survives(o, u, s, g), FactOrder(o));
    ListsExactly(o, Survivors(o, u, s), CurrentRelatives(o, d, f));
  }

  lemma StageListed(o: TextRules, d: set<Fact>, f: Fact, s: seq<Fact>, g: Fact)
    requires WellBehaved(o) && UniqueIds(d) && f in d && GroupOf(o, d, f, s) && g in s
    ensures Lists(o, StageCandidates(o, Unauthorized(o, d), s, g), Rivals(o, d, g))
    ensures FirstOfStage(o, d, g, StageRecord(o, Unauthorized(o, d), s, g).head)
  {
    hide FactOrder, SameStage, IsCandidate, Rivals, Elements, Lists, Unauthorized, WellBehaved, ListedBefore, Abreast;
    hide Connected;
    var u := Unauthorized(o, d);
    GroupMembers(o, d, f, s);
    var mates := StageMates(o, s, g);
    FilterAscending(s, h => SameStage(o, h, g), FactOrder(o));
    FilterAscending(mates, h => IsCandidate(o, u, h), FactOrder(o));
    CandidatesAreRivals(o, d, f, s, g);
    ListsExactly(o, StageCandidates(o, u, s, g), Rivals(o, d, g));
    assert SameStage(o, g, g) by { AbreastSelf(o, g); }
    forall h ensures h in mates <==> h in d && Connected(o, d, g, h) && Abreast(o, g, h) {
      AbreastExactly(o, g, h);
      SameStageSymmetric(o, g, h);
      if h in s { RelativesShared(o, d, f, g, h); }
      if Connected(o, d, g, h) { ConnectedTransitive(o, d, f, g, h); }
    }
    var head := StageRecord(o, u, s, g).head;
    assert head == mates[0];
    forall h | h in mates && h != head ensures ListedBefore(o, head, h) {
      var k :| 0 <= k < |mates| && mates[k] == h;
      FirstIsBefore(o, mates, k);
    }
  }

  lemma FirstIsBefore(o: TextRules, c: seq<Fact>, k: nat)
    requires WellBehaved(o) && Ascending(c, FactOrder(o)) && 0 < k < |c|
    ensures ListedBefore(o, c[0], c[k])
  {
    hide ListedBefore, FactLess;
    ListedBeforeExactly(o, c[0], c[k]);
    assert FactOrder(o)(c[0], c[k]);
  }

  lemma AbreastSelf(o: TextRules, g: Fact)
    ensures SameStage(o, g, g)
  {
  }

  /** The last current fact of a disagreeing stage, in the sorted group. */
  lemma LastHit(o: TextRules, d: set<Fact>, f: Fact, s: seq<Fact>) returns (h: Fact)
    requires WellBehaved(o) && UniqueIds(d) && f in d && GroupOf(o, d, f, s)
    requires Latest(o, Unauthorized(o, d), s).Some?
    ensures h in s && Latest(o, Unauthorized(o, d), s).value == StageRecord(o, Unauthorized(o, d), s, h)
    ensures h in d && Connected(o, d, f, h) && Current(o, d, h) && StageDisagrees(o, Rivals(o, d, h))
    ensures forall g :: g in s && Current(o, d, g) && StageDisagrees(o, Rivals(o, d, g)) ==> !Overtakes(o, g, h)
  {
    hide Survives, StageConflict, FactLess, StageRecord, Current, Rivals, StageDisagrees, Unauthorized, WellBehaved,
      Overtakes, Connected, Filter;
    var u := Unauthorized(o, d);
    var hits := Hits(o, u, s);
    h := hits[|hits| - 1];
    assert h in hits;
    GroupMembers(o, d, f, s);
    forall g | g in s
      ensures Survives(o, u, s, g) <==> Current(o, d, g)
      ensures StageConflict(o, u, s, g) <==> StageDisagrees(o, Rivals(o, d, g))
    {
      SurvivesExactly(o, d, f, s, g);
      CandidatesAreRivals(o, d, f, s, g);
    }
    FilterAscending(s, g => Survives(o, u, s, g), FactOrder(o));
    FilterAscending(Survivors(o, u, s), g => StageConflict(o, u, s, g), FactOrder(o));
    forall g | g in s && Current(o, d, g) && StageDisagrees(o, Rivals(o, d, g)) ensures !Overtakes(o, g, h) {
      assert g in Survivors(o, u, s);
      assert g in hits;
      var k :| 0 <= k < |hits| && hits[k] == g;
      if k < |hits| - 1 { assert FactOrder(o)(g, h); }
      NotOvertaken(o, g, h);
    }
  }

  lemma NotOvertaken(o: TextRules, g: Fact, h: Fact)
    requires WellBehaved(o) && (g == h || FactLess(o, g, h))
    ensures !Overtakes(o, g, h)
  {
    hide Overtakes, RankNumber, RankLabel;
    OvertakesExactly(o, h, g);
  }

  lemma RelativesSame(o: TextRules, d: set<Fact>, f: Fact, g: Fact)
    requires WellBehaved(o) && Connected(o, d, f, g)
    ensures forall h :: Connected(o, d, f, h) <==> Connected(o, d, g, h)
  {
    hide WellBehaved, Connected;
    ConnectedSymmetric(o, d, f, g);
    forall h ensures Connected(o, d, f, h) <==> Connected(o, d, g, h) {
      if Connected(o, d, f, h) { ConnectedTransitive(o, d, g, f, h); }
      if Connected(o, d, g, h) { ConnectedTransitive(o, d, f, g, h); }
    }
  }

  /** The conflict of a sorted group reports a stage of it or all its current facts. */
  lemma EmittedReports(o: TextRules, d: set<Fact>, f: Fact, s: seq<Fact>) returns (h: Fact)
    requires WellBehaved(o) && UniqueIds(d) && f in d && GroupOf(o, d, f, s)
    requires Emitted(o, Unauthorized(o, d), s).Some?
    ensures h in d && Connected(o, d, f, h)
    ensures var c := Emitted(o, Unauthorized(o, d), s).value; ReportsStage(o, d, c, h) || ReportsAll(o, d, c, h)
  {
    hide Latest, FinalConflict, Survivors, StageRecord, StageCandidates, StageMates, Current, Rivals, StageDisagrees,
      EndDisagrees, Unauthorized, WellBehaved, Overtakes, Connected, Lists, FirstOfStage, GroupOf, SomeStageDisagrees;
    var u := Unauthorized(o, d);
    LatestExactly(o, d, f, s);
    GroupMembers(o, d, f, s);
    var c := Emitted(o, u, s).value;
    if Latest(o, u, s).Some? {
      h := LastHit(o, d, f, s);
      RecordIs(o, u, s, h);
      StageListed(o, d, f, s, h);
      RelativesSame(o, d, f, h);
    } else {
      h := f;
      ConnectedSelf(o, d, f);
      SurvivorsListed(o, d, f, s);
      EndHasFacts(o, u, s);
    }
  }

  lemma RecordIs(o: TextRules, u: set<string>, s: seq<Fact>, h: Fact)
    requires h in s
    ensures StageRecord(o, u, s, h).candidates == StageCandidates(o, u, s, h)
  {
  }

  lemma EndHasFacts(o: TextRules, u: set<string>, s: seq<Fact>)
    requires FinalConflict(o, u, s)
    ensures Survivors(o, u, s) != []
  {
    hide Survivors;
    EndConflictHasCandidates(o, Survivors(o, u, s));
  }

  lemma ListedOnce(o: TextRules, c: seq<Fact>, e: seq<Fact>, s: set<Fact>)
    requires WellBehaved(o) && UniqueIds(s) && Lists(o, c, s) && Lists(o, e, s)
    ensures c == e
  {
    hide Lists, FactOrder, WellBehaved, UniqueIds;
    ListsExactly(o, c, s);
    ListsExactly(o, e, s);
    FactOrderIsStrict(o, s);
    AscendingUnique(c, e, FactOrder(o));
  }

  lemma OneFirst(o: TextRules, d: set<Fact>, f: Fact, x: Fact, y: Fact)
    requires WellBehaved(o) && UniqueIds(d) && FirstOfStage(o, d, f, x) && FirstOfStage(o, d, f, y)
    ensures x == y
  {
    hide ListedBefore, FactLess, Connected, Abreast;
    if x != y {
      ListedBeforeExactly(o, x, y);
      ListedBeforeExactly(o, y, x);
      NotBothBefore(o, x, y);
    }
  }

  lemma NotBothBefore(o: TextRules, x: Fact, y: Fact)
    requires WellBehaved(o)
    ensures !(FactLess(o, x, y) && FactLess(o, y, x))
  {
  }

  /** Facts of one stage have the same rivals and the same first fact. */
  lemma StageShared(o: TextRules, d: set<Fact>, f: Fact, h: Fact)
    requires WellBehaved(o) && f in d && h in d && Connected(o, d, f, h) && Abreast(o, f, h)
    ensures Rivals(o, d, f) == Rivals(o, d, h)
    ensures forall x :: FirstOfStage(o, d, f, x) <==> FirstOfStage(o, d, h, x)
  {
    hide Abreast, Usable, Connected, ListedBefore, WellBehaved;
    RelativesSame(o, d, f, h);
    forall g ensures Abreast(o, f, g) <==> Abreast(o, h, g) { AbreastTransitive(o, f, h, g); }
  }

  lemma AbreastTransitive(o: TextRules, f: Fact, h: Fact, g: Fact)
    requires WellBehaved(o) && Abreast(o, f, h)
    ensures Abreast(o, f, g) <==> Abreast(o, h, g)
  {
    hide Abreast;
    AbreastExactly(o, f, h);
    AbreastExactly(o, f, g);
    AbreastExactly(o, h, g);
  }

  /** Two reports about one component are equal. */
  lemma OneReport(o: TextRules, d: set<Fact>, c: Conflict, f: Fact, e: Conflict, h: Fact)
    requires WellBehaved(o) && UniqueIds(d) && f in d && h in d && Connected(o, d, f, h)
    requires ReportsStage(o, d, c, f) || ReportsAll(o, d, c, f)
    requires ReportsStage(o, d, e, h) || ReportsAll(o, d, e, h)
    ensures c == e
  {
    hide Current, Rivals, StageDisagrees, EndDisagrees, WellBehaved, Overtakes, Connected, Lists, FirstOfStage, UniqueIds;
    RelativesSame(o, d, f, h);
    SelfRelated(o, d, f, h);
    RelativeIds(o, d, f);
    assert CurrentRelatives(o, d, f) == CurrentRelatives(o, d, h);
    if ReportsStage(o, d, c, f) {
      assert f in CurrentRelatives(o, d, h) && h in CurrentRelatives(o, d, f);
      StageShared(o, d, f, h);
      ListedOnce(o, c.candidates, e.candidates, Rivals(o, d, f));
      OneFirst(o, d, f, c.head, e.head);
    } else {
      ListedOnce(o, c.candidates, e.candidates, CurrentRelatives(o, d, f));
    }
  }

  lemma SelfRelated(o: TextRules, d: set<Fact>, f: Fact, h: Fact)
    requires WellBehaved(o) && f in d && h in d && Connected(o, d, f, h)
    ensures Connected(o, d, f, f) && Connected(o, d, h, h) && Connected(o, d, h, f)
  {
    ConnectedSelf(o, d, f);
    ConnectedSelf(o, d, h);
    ConnectedSymmetric(o, d, f, h);
  }

  lemma RelativeIds(o: TextRules, d: set<Fact>, f: Fact)
    requires UniqueIds(d)
    ensures UniqueIds(Rivals(o, d, f)) && UniqueIds(CurrentRelatives(o, d, f))
  {
  }

  /** The conflicts listed are exactly the reports: of the last current stage of a component that disagrees, or
      else of all its current facts when they disagree. */
  lemma ConflictsExactly(o: TextRules, d: set<Fact>, facts: seq<Reconciled>, conflicts: seq<Conflict>, c: Conflict)
    requires WellBehaved(o) && UniqueIds(d) && Outcome(o, d, facts, conflicts)
    ensures c in conflicts <==> exists f :: ReportsStage(o, d, c, f) || ReportsAll(o, d, c, f)
  {
    hide Emitted, GroupOf, WellBehaved, ReportsStage, ReportsAll, UniqueIds, FinalStatus, Unauthorized, Connected;
    var u := Unauthorized(o, d);
    if c in conflicts {
      var f, s :| f in d && GroupOf(o, d, f, s) && Emitted(o, u, s) == Some(c);
      var h := EmittedReports(o, d, f, s);
    }
    if f :| ReportsStage(o, d, c, f) || ReportsAll(o, d, c, f) {
      ReportedFact(o, d, c, f);
      var r :| r in facts && r.fact == f;
      var s :| GroupOf(o, d, f, s);
      ReportIsEmitted(o, d, c, f, s);
    }
  }

  lemma ReportIsEmitted(o: TextRules, d: set<Fact>, c: Conflict, f: Fact, s: seq<Fact>)
    requires WellBehaved(o) && UniqueIds(d) && f in d && GroupOf(o, d, f, s)
    requires ReportsStage(o, d, c, f) || ReportsAll(o, d, c, f)
    ensures Emitted(o, Unauthorized(o, d), s) == Some(c)
  {
    hide Latest, FinalConflict, Survivors, StageRecord, StageCandidates, StageMates, Current, Rivals, StageDisagrees,
      EndDisagrees, Unauthorized, WellBehaved, Overtakes, Connected, Lists, FirstOfStage, GroupOf, UniqueIds;
    LatestExactly(o, d, f, s);
    ConnectedSelf(o, d, f);
    assert f in CurrentRelatives(o, d, f) <==> Current(o, d, f);
    var h := EmittedReports(o, d, f, s);
    OneReport(o, d, c, f, Emitted(o, Unauthorized(o, d), s).value, h);
  }

  lemma ReportedFact(o: TextRules, d: set<Fact>, c: Conflict, f: Fact)
    requires ReportsStage(o, d, c, f) || ReportsAll(o, d, c, f)
    ensures f in d
  {
  }
}
