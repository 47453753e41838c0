/** The whole of `reconcileVersionedFacts`, its exact outcome and its independence of input order. */
module ReconcileFacts {
  import opened Sorting
  import opened Facts
  import opened Grouping
  import opened Lifecycle
  import opened Reconciliation

  ghost predicate UniqueInput(input: seq<Fact>) {
    forall i, j :: 0 <= i < j < |input| ==> input[i].id != input[j].id
  }

  function Unauthorized(o: TextRules, s: set<Fact>): set<string> {
    set f | f in s && f.effect != Add && !o.authorized(f, s) :: f.id
  }

  predicate IdLess(o: TextRules, a: Reconciled, b: Reconciled) {
    o.localeLess(a.fact.id, b.fact.id)
  }

  function IdOrder(o: TextRules): (Reconciled, Reconciled) -> bool {
    (a, b) => IdLess(o, a, b)
  }

  predicate SlugLess(o: TextRules, a: Conflict, b: Conflict) {
    o.localeLess(o.slug(CanonicalTopicKey(o, a.head)), o.slug(CanonicalTopicKey(o, b.head)))
  }

  function SlugOrder(o: TextRules): (Conflict, Conflict) -> bool {
    (a, b) => SlugLess(o, a, b)
  }

  /** `s` is the sorted component of `f`. */
  ghost predicate GroupOf(o: TextRules, d: set<Fact>, f: Fact, s: seq<Fact>) {
    Ascending(s, FactOrder(o)) && Elements(s) == Component(o, d, f)
  }

  /** The exact outcome for the fact set `d`: one status per fact, sorted by id, and one conflict for
      each component that emits one. */
  ghost predicate Outcome(o: TextRules, d: set<Fact>, facts: seq<Reconciled>, conflicts: seq<Conflict>) {
    var u := Unauthorized(o, d);
    && Ascending(facts, IdOrder(o))
    && (forall r :: r in facts ==> r.fact in d && HasFinalStatus(o, d, r))
    && (forall f :: f in d ==> exists r :: r in facts && r.fact == f)
    && Distinct(conflicts)
    && (forall c :: c in conflicts ==> exists f, s :: f in d && GroupOf(o, d, f, s) && Emitted(o, u, s) == Some(c))
    && (forall f, s :: f in d && GroupOf(o, d, f, s) && Emitted(o, u, s).Some? ==>
          Emitted(o, u, s).value in conflicts)
  }

  ghost predicate HasFinalStatus(o: TextRules, d: set<Fact>, r: Reconciled) {
    exists s :: GroupOf(o, d, r.fact, s) && r.status == FinalStatus(o, Unauthorized(o, d), s, r.fact)
  }

  // ---- consequences of the outcome ----

  lemma GroupUnique(o: TextRules, d: set<Fact>, f: Fact, s: seq<Fact>, t: seq<Fact>)
    requires WellBehaved(o) && UniqueIds(d)
    requires GroupOf(o, d, f, s) && GroupOf(o, d, f, t)
    ensures s == t
  {
    forall g | g in Elements(s) ensures g in d { }
    FactOrderIsStrict(o, Elements(s));
    AscendingUnique(s, t, FactOrder(o));
  }

  /** A fact is current iff it is verified, not a deletion, not an unauthorized mutation, and no strictly
      later stage of its component holds a verified, authorized replacement or deletion. */
  lemma ExactLifecycle(o: TextRules, d: set<Fact>, facts: seq<Reconciled>, conflicts: seq<Conflict>, r: Reconciled)
    requires WellBehaved(o) && UniqueIds(d) && Outcome(o, d, facts, conflicts) && r in facts
    ensures r.status != Superseded <==>
            && HasVerifiedCitations(o, r.fact)
            && r.fact.effect != Delete
            && !(r.fact.effect != Add && !o.authorized(r.fact, d))
            && !(exists g :: g in d && Connected(o, d, r.fact, g) && StageLess(o, r.fact, g) &&
                   HasVerifiedCitations(o, g) && g.effect != Add && o.authorized(g, d))
  {
    hide StageConflict, FinalConflict, HasVerifiedCitations, WellBehaved, StageLess;
    var u := Unauthorized(o, d);
    var s :| GroupOf(o, d, r.fact, s) && r.status == FinalStatus(o, u, s, r.fact);
    forall g | g in d ensures g.id in u <==> g.effect != Add && !o.authorized(g, d) { }
    forall g ensures g in s <==> g in d && Connected(o, d, r.fact, g) {
      assert g in Elements(s) <==> g in Component(o, d, r.fact);
    }
    assert LaterReplaced(o, u, s, r.fact) <==>
           exists g :: g in d && Connected(o, d, r.fact, g) && StageLess(o, r.fact, g) && Replaces(o, u, g);
  }

  lemma IdsAreOrdered(o: TextRules, d: set<Fact>, facts: seq<Reconciled>)
    requires WellBehaved(o) && UniqueIds(d)
    requires forall r :: r in facts ==> r.fact in d && HasFinalStatus(o, d, r)
    ensures StrictOrderOn(IdOrder(o), Elements(facts))
  {
    hide FinalStatus;
    forall a, b | a in facts && b in facts && a != b ensures IdLess(o, a, b) || IdLess(o, b, a) {
      if a.fact.id == b.fact.id {
        assert a.fact == b.fact;
        SameStatus(o, d, a, b);
      }
    }
  }

  lemma SameStatus(o: TextRules, d: set<Fact>, a: Reconciled, b: Reconciled)
    requires WellBehaved(o) && UniqueIds(d) && a.fact == b.fact
    requires HasFinalStatus(o, d, a) && HasFinalStatus(o, d, b)
    ensures a == b
  {
    hide FinalStatus;
    var s :| GroupOf(o, d, a.fact, s) && a.status == FinalStatus(o, Unauthorized(o, d), s, a.fact);
    var t :| GroupOf(o, d, b.fact, t) && b.status == FinalStatus(o, Unauthorized(o, d), t, b.fact);
    GroupUnique(o, d, a.fact, s, t);
  }

  lemma SameMembers(o: TextRules, d: set<Fact>, a: seq<Reconciled>, b: seq<Reconciled>, r: Reconciled)
    requires WellBehaved(o) && UniqueIds(d)
    requires forall r :: r in a ==> r.fact in d && HasFinalStatus(o, d, r)
    requires forall r :: r in b ==> r.fact in d && HasFinalStatus(o, d, r)
    requires forall f :: f in d ==> exists r :: r in b && r.fact == f
    requires r in a
    ensures r in b
  {
    var q :| q in b && q.fact == r.fact;
    SameStatus(o, d, r, q);
  }

  /** Reconciliation is a function of the fact set: permuting the input changes neither the reconciled
      facts nor the multiset of conflicts. */
  lemma OrderIndependent(o: TextRules, in1: seq<Fact>, in2: seq<Fact>,
                         facts1: seq<Reconciled>, conflicts1: seq<Conflict>,
                         facts2: seq<Reconciled>, conflicts2: seq<Conflict>)
    requires WellBehaved(o) && UniqueInput(in1) && multiset(in1) == multiset(in2)
    requires Outcome(o, Elements(in1), facts1, conflicts1)
    requires Outcome(o, Elements(in2), facts2, conflicts2)
    ensures Unauthorized(o, Elements(in1)) == Unauthorized(o, Elements(in2))
    ensures facts1 == facts2
    ensures multiset(conflicts1) == multiset(conflicts2)
  {
    hide Emitted, Unauthorized, GroupOf, HasFinalStatus, WellBehaved;
    var d := Elements(in1);
    forall f ensures f in in1 <==> f in in2 { assert f in multiset(in1) <==> f in multiset(in2); }
    assert d == Elements(in2);
    forall f, g | f in d && g in d && f.id == g.id ensures f == g {
      var i :| 0 <= i < |in1| && in1[i] == f;
      var j :| 0 <= j < |in1| && in1[j] == g;
    }
    forall r ensures r in facts1 <==> r in facts2 {
      if r in facts1 { SameMembers(o, d, facts1, facts2, r); }
      if r in facts2 { SameMembers(o, d, facts2, facts1, r); }
    }
    assert Elements(facts1) == Elements(facts2);
    IdsAreOrdered(o, d, facts1);
    AscendingUnique(facts1, facts2, IdOrder(o));
    DistinctMultisets(conflicts1, conflicts2);
  }

  // ---- the method ----

  lemma {:induction false} FlattenMember(gs: seq<seq<Fact>>, k: nat, f: Fact)
    requires k < |gs|
    ensures multiset(gs[k])[f] <= multiset(Flatten(gs))[f]
  {
    if k > 0 {
      FlattenMember(gs[1..], k - 1, f);
    }
  }

  lemma {:induction false} MemberOfGroup(gs: seq<seq<Fact>>, f: Fact)
    requires f in Flatten(gs)
    ensures exists k :: 0 <= k < |gs| && f in gs[k]
  {
    if f in gs[0] {
    } else {
      MemberOfGroup(gs[1..], f);
      var k :| 0 <= k < |gs[1..]| && f in gs[1..][k];
      assert f in gs[k + 1];
    }
  }

  lemma {:induction false} CountsAreDistinct(s: seq<Fact>)
    requires forall x :: multiset(s)[x] <= 1
    ensures Distinct(s)
  {
    if s != [] {
      assert s == [s[0]] + s[1..];
      forall x ensures multiset(s[1..])[x] <= 1 {
        assert multiset(s)[x] == multiset{s[0]}[x] + multiset(s[1..])[x];
      }
      CountsAreDistinct(s[1..]);
      assert multiset(s)[s[0]] == 1 + multiset(s[1..])[s[0]];
      assert s[0] !in multiset(s[1..]);
    }
  }

  lemma UniqueInputFacts(input: seq<Fact>)
    requires UniqueInput(input)
    ensures UniqueIds(Elements(input)) && Distinct(input)
  {
    forall f, g | f in Elements(input) && g in Elements(input) && f.id == g.id ensures f == g {
      var i :| 0 <= i < |input| && input[i] == f;
      var j :| 0 <= j < |input| && input[j] == g;
    }
  }

  lemma GroupIsComponent(o: TextRules, input: seq<Fact>, groups: seq<seq<Fact>>, k: nat)
    requires WellBehaved(o) && UniqueInput(input) && IsPartition(o, input, groups) && k < |groups|
    ensures SortedGroup(o, Sort(groups[k], FactOrder(o)))
    ensures forall f :: f in groups[k] <==> f in Sort(groups[k], FactOrder(o))
    ensures forall f :: f in groups[k] ==>
              f in input && GroupOf(o, Elements(input), f, Sort(groups[k], FactOrder(o)))
  {
    var d := Elements(input);
    var g := groups[k];
    UniqueInputFacts(input);
    forall f ensures multiset(g)[f] <= multiset(input)[f] <= 1 {
      FlattenMember(groups, k, f);
      DistinctCount(input, f);
    }
    CountsAreDistinct(g);
    forall f | f in g ensures f in input {
      assert multiset(g)[f] >= 1;
      assert f in multiset(input);
    }
    var s := Sort(g, FactOrder(o));
    SortMembers(g, FactOrder(o));
    FactOrderIsStrict(o, Elements(g));
    SortAscending(g, FactOrder(o));
    UniqueSub(input, s);
    forall f | f in g ensures Elements(s) == Component(o, d, f) {
      forall h | h in d && Connected(o, d, f, h) ensures h in g {
        assert h in multiset(Flatten(groups));
        MemberOfGroup(groups, h);
        var l :| 0 <= l < |groups| && h in groups[l];
        ConnectedSymmetric(o, d, f, h);
      }
    }
  }

  ghost predicate GroupRecorded(o: TextRules, u: set<string>, g: seq<Fact>, result: Results) {
    forall f :: f in g ==> Recorded(result, f, FinalStatus(o, u, Sort(g, FactOrder(o)), f))
  }

  ghost predicate ConflictOf(o: TextRules, u: set<string>, g: seq<Fact>, c: Conflict) {
    Emitted(o, u, Sort(g, FactOrder(o))) == Some(c)
  }

  /** The conflicts of the groups seen so far, in group order, without repetition. */
  ghost predicate ConflictsOf(o: TextRules, u: set<string>, groups: seq<seq<Fact>>, n: nat, conflicts: seq<Conflict>)
    requires n <= |groups|
  {
    && (forall c :: c in conflicts ==> exists k :: 0 <= k < n && ConflictOf(o, u, groups[k], c))
    && (forall k, c :: 0 <= k < n && ConflictOf(o, u, groups[k], c) ==> c in conflicts)
    && Distinct(conflicts)
  }

  lemma ConflictNamesGroup(o: TextRules, u: set<string>, g: seq<Fact>, c: Conflict)
    requires WellBehaved(o) && ConflictOf(o, u, g, c)
    ensures c.candidates != [] && c.candidates[0] in g
  {
    var s := Sort(g, FactOrder(o));
    SortMembers(g, FactOrder(o));
    EmittedNonempty(o, u, s);
    EmittedCandidatesConflicted(o, u, s, c.candidates[0]);
  }

  lemma EmittedNonempty(o: TextRules, u: set<string>, s: seq<Fact>)
    requires Emitted(o, u, s).Some?
    ensures Emitted(o, u, s).value.candidates != []
  {
    hide LaterReplaced, Survives, StageConflict, ScalarConflict, CategoricalConflict;
    if Latest(o, u, s).Some? {
      var hits := Hits(o, u, s);
      var h := hits[|hits| - 1];
      assert h in hits && StageConflict(o, u, s, h);
      ConflictHasCandidates(o, u, s, h);
    } else {
      EndConflictHasCandidates(o, Survivors(o, u, s));
    }
  }

  lemma ConflictHasCandidates(o: TextRules, u: set<string>, s: seq<Fact>, f: Fact)
    requires StageConflict(o, u, s, f)
    ensures StageCandidates(o, u, s, f) != []
  {
    hide ReplacementConflict, ScalarConflict, CategoricalConflict, StageCandidates;
  }

  lemma EndConflictHasCandidates(o: TextRules, c: seq<Fact>)
    requires ConflictAtEnd(o, c)
    ensures c != []
  {
  }

  lemma AddConflict(o: TextRules, u: set<string>, input: seq<Fact>, groups: seq<seq<Fact>>, n: nat,
                    conflicts: seq<Conflict>, emitted: Option<Conflict>)
    requires WellBehaved(o) && UniqueInput(input) && IsPartition(o, input, groups) && n < |groups|
    requires ConflictsOf(o, u, groups, n, conflicts)
    requires emitted == Emitted(o, u, Sort(groups[n], FactOrder(o)))
    ensures ConflictsOf(o, u, groups, n + 1, if emitted.Some? then conflicts + [emitted.value] else conflicts)
  {
    hide Emitted, WellBehaved, FactOrder, IsPartition, UniqueInput, ConflictOf;
    OwnConflict(o, u, groups[n], emitted);
    if emitted.Some? {
      ConflictIsNew(o, u, input, groups, n, conflicts, emitted.value);
      OneMoreConflict(o, u, groups, n, conflicts, emitted.value);
    }
  }

  lemma OwnConflict(o: TextRules, u: set<string>, g: seq<Fact>, emitted: Option<Conflict>)
    requires emitted == Emitted(o, u, Sort(g, FactOrder(o)))
    ensures forall c :: ConflictOf(o, u, g, c) <==> emitted == Some(c)
  {
    hide Emitted;
  }

  lemma OneMoreConflict(o: TextRules, u: set<string>, groups: seq<seq<Fact>>, n: nat, conflicts: seq<Conflict>, c: Conflict)
    requires n < |groups| && ConflictsOf(o, u, groups, n, conflicts) && c !in conflicts
    requires forall e :: ConflictOf(o, u, groups[n], e) <==> e == c
    ensures ConflictsOf(o, u, groups, n + 1, conflicts + [c])
  {
    hide ConflictOf;
    forall k, e | 0 <= k < n + 1 && ConflictOf(o, u, groups[k], e) ensures e in conflicts + [c] {
      if k < n { assert e in conflicts; }
    }
    forall e | e in conflicts + [c] ensures exists k :: 0 <= k < n + 1 && ConflictOf(o, u, groups[k], e) {
      if e in conflicts {
        var k :| 0 <= k < n && ConflictOf(o, u, groups[k], e);
      } else {
        assert ConflictOf(o, u, groups[n], e);
      }
    }
  }

  lemma ConflictIsNew(o: TextRules, u: set<string>, input: seq<Fact>, groups: seq<seq<Fact>>, n: nat,
                      conflicts: seq<Conflict>, c: Conflict)
    requires WellBehaved(o) && UniqueInput(input) && IsPartition(o, input, groups) && n < |groups|
    requires ConflictsOf(o, u, groups, n, conflicts) && ConflictOf(o, u, groups[n], c)
    ensures c !in conflicts
  {
    hide Emitted, WellBehaved, FactOrder, IsPartition, UniqueInput, ConflictOf;
    ConflictNamesGroup(o, u, groups[n], c);
    forall k | 0 <= k < n ensures !ConflictOf(o, u, groups[k], c) {
      GroupsApart(o, input, groups, k, n, c.candidates[0]);
      if ConflictOf(o, u, groups[k], c) {
        ConflictNamesGroup(o, u, groups[k], c);
      }
    }
  }

  lemma GroupsApart(o: TextRules, input: seq<Fact>, groups: seq<seq<Fact>>, k: nat, n: nat, f: Fact)
    requires WellBehaved(o) && UniqueInput(input) && IsPartition(o, input, groups) && k < n < |groups|
    ensures !(f in groups[k] && f in groups[n])
  {
    if f in groups[k] && f in groups[n] {
      GroupIsComponent(o, input, groups, k);
      ConnectedSelf(o, Elements(input), f);
    }
  }

  lemma OtherGroupsUntouched(o: TextRules, u: set<string>, input: seq<Fact>, groups: seq<seq<Fact>>,
                             k: nat, n: nat, before: Results, after: Results)
    requires WellBehaved(o) && UniqueInput(input) && IsPartition(o, input, groups) && k < n < |groups|
    requires GroupRecorded(o, u, groups[k], before)
    requires OnlyIds(before, after, Sort(groups[n], FactOrder(o)))
    ensures GroupRecorded(o, u, groups[k], after)
  {
    hide FinalStatus;
    GroupIsComponent(o, input, groups, k);
    GroupIsComponent(o, input, groups, n);
    UniqueInputFacts(input);
    forall f | f in groups[k] ensures !HasId(Sort(groups[n], FactOrder(o)), f.id) {
      GroupsApart(o, input, groups, k, n, f);
      OtherId(input, Sort(groups[n], FactOrder(o)), f);
    }
  }

  /** The facts of the first `n` groups have their final statuses. */
  ghost predicate RecordedUpTo(o: TextRules, u: set<string>, groups: seq<seq<Fact>>, n: nat, result: Results) {
    n <= |groups| && forall k :: 0 <= k < n ==> GroupRecorded(o, u, groups[k], result)
  }

  lemma OneMoreGroup(o: TextRules, u: set<string>, input: seq<Fact>, groups: seq<seq<Fact>>, n: nat, before: Results,
                     after: Results)
    requires WellBehaved(o) && UniqueInput(input) && IsPartition(o, input, groups) && n < |groups|
    requires RecordedUpTo(o, u, groups, n, before)
    requires OnlyIds(before, after, Sort(groups[n], FactOrder(o)))
    requires forall f :: f in Sort(groups[n], FactOrder(o)) ==>
               Recorded(after, f, FinalStatus(o, u, Sort(groups[n], FactOrder(o)), f))
    ensures RecordedUpTo(o, u, groups, n + 1, after)
  {
    hide FinalStatus, FactOrder, WellBehaved, UniqueInput, IsPartition, OnlyIds, Recorded;
    forall k | 0 <= k < n ensures GroupRecorded(o, u, groups[k], after) {
      OtherGroupsUntouched(o, u, input, groups, k, n, before, after);
    }
    SortMembers(groups[n], FactOrder(o));
  }

  method ReconcileVersionedFacts(o: TextRules, input: seq<Fact>)
    returns (facts: seq<Reconciled>, conflicts: seq<Conflict>, unauthorized: set<string>)
    requires WellBehaved(o) && UniqueInput(input)
    ensures Outcome(o, Elements(input), facts, conflicts)
    ensures forall x :: x in unauthorized <==>
              exists f :: f in Elements(input) && f.id == x && f.effect != Add && !o.authorized(f, Elements(input))
    ensures NeverDescends(conflicts, SlugOrder(o))
  {
    hide FinalStatus, Emitted, FactOrder, WellBehaved, UniqueInput, IsPartition, GroupRecorded, RecordedUpTo, ConflictsOf,
         NeverDescends, Unauthorized, HasFinalStatus, GroupOf, OnlyIds, Recorded, SortedGroup;
    unauthorized := Unauthorized(o, set f | f in input);
    assert Elements(input) == set f | f in input;
    UnauthorizedIds(o, Elements(input));
    var groups := GroupedFacts(o, input);
    var result: Results := map[];
    conflicts := [];
    NothingYet(o, unauthorized, groups);
    for n := 0 to |groups|
      invariant RecordedUpTo(o, unauthorized, groups, n, result)
      invariant ConflictsOf(o, unauthorized, groups, n, conflicts)
    {
      GroupIsComponent(o, input, groups, n);
      ghost var before := result;
      var conflict;
      result, conflict := ReconcileGroup(o, unauthorized, Sort(groups[n], FactOrder(o)), result);
      OneMoreGroup(o, unauthorized, input, groups, n, before, result);
      AddConflict(o, unauthorized, input, groups, n, conflicts, conflict);
      if conflict.Some? {
        conflicts := conflicts + [conflict.value];
      }
    }
    facts := CollectFacts(o, input, groups, result);
    ConflictsComplete(o, input, groups, conflicts);
    conflicts := SortConflicts(o, conflicts);
  }

  lemma UnauthorizedIds(o: TextRules, s: set<Fact>)
    ensures forall x :: x in Unauthorized(o, s) <==> exists f :: f in s && f.id == x && f.effect != Add && !o.authorized(f, s)
  {
  }

  lemma NothingYet(o: TextRules, u: set<string>, groups: seq<seq<Fact>>)
    ensures RecordedUpTo(o, u, groups, 0, map[]) && ConflictsOf(o, u, groups, 0, [])
  {
  }

  lemma SlugOrderIsWeak(o: TextRules)
    requires WellBehaved(o)
    ensures WeakOrder(SlugOrder(o))
  {
    hide CanonicalTopicKey;
    forall x, y, z | SlugOrder(o)(x, z) ensures SlugOrder(o)(x, y) || SlugOrder(o)(y, z) {
      assert SlugLess(o, x, z);
    }
  }

  /** Conflicts are listed in slug order; conflicts with one slug may come in either order. */
  method SortConflicts(o: TextRules, conflicts: seq<Conflict>) returns (r: seq<Conflict>)
    requires WellBehaved(o) && Distinct(conflicts)
    ensures multiset(r) == multiset(conflicts) && Distinct(r)
    ensures forall c :: c in r <==> c in conflicts
    ensures NeverDescends(r, SlugOrder(o))
  {
    hide SlugOrder, WellBehaved, WeakOrder, NeverDescends;
    r := Sort(conflicts, SlugOrder(o));
    SortMembers(conflicts, SlugOrder(o));
    assert WeakOrder(SlugOrder(o)) by { SlugOrderIsWeak(o); }
    SortNeverDescends(conflicts, SlugOrder(o));
    SortedDistinct(conflicts, r);
  }

  lemma SortedDistinct<T(!new)>(a: seq<T>, b: seq<T>)
    requires multiset(a) == multiset(b) && Distinct(a)
    ensures Distinct(b)
  {
    DistinctMultiplicity(a);
    DistinctMultiplicity(b);
  }

  lemma ConflictsComplete(o: TextRules, input: seq<Fact>, groups: seq<seq<Fact>>, conflicts: seq<Conflict>)
    requires WellBehaved(o) && UniqueInput(input) && IsPartition(o, input, groups)
    requires ConflictsOf(o, Unauthorized(o, Elements(input)), groups, |groups|, conflicts)
    ensures Distinct(conflicts)
    ensures var d, u := Elements(input), Unauthorized(o, Elements(input));
            && (forall c :: c in conflicts ==>
                  exists f, s :: f in d && GroupOf(o, d, f, s) && Emitted(o, u, s) == Some(c))
            && (forall f, s :: f in d && GroupOf(o, d, f, s) && Emitted(o, u, s).Some? ==>
                  Emitted(o, u, s).value in conflicts)
  {
    hide Emitted, Unauthorized, FactOrder, WellBehaved;
    var d, u := Elements(input), Unauthorized(o, Elements(input));
    UniqueInputFacts(input);
    forall c | c in conflicts
      ensures exists f, s :: f in d && GroupOf(o, d, f, s) && Emitted(o, u, s) == Some(c)
    {
      var k :| 0 <= k < |groups| && ConflictOf(o, u, groups[k], c);
      GroupIsComponent(o, input, groups, k);
      assert groups[k][0] in groups[k];
      assert GroupOf(o, d, groups[k][0], Sort(groups[k], FactOrder(o)));
    }
    forall f, s | f in d && GroupOf(o, d, f, s) && Emitted(o, u, s).Some?
      ensures Emitted(o, u, s).value in conflicts
    {
      assert f in multiset(input);
      MemberOfGroup(groups, f);
      var k :| 0 <= k < |groups| && f in groups[k];
      GroupIsComponent(o, input, groups, k);
      GroupUnique(o, d, f, s, Sort(groups[k], FactOrder(o)));
      assert ConflictOf(o, u, groups[k], Emitted(o, u, s).value);
    }
  }

  /** The last loop of the function, and the sort by id. */
  method CollectFacts(o: TextRules, input: seq<Fact>, ghost groups: seq<seq<Fact>>, result: Results)
    returns (facts: seq<Reconciled>)
    requires WellBehaved(o) && UniqueInput(input) && IsPartition(o, input, groups)
    requires RecordedUpTo(o, Unauthorized(o, Elements(input)), groups, |groups|, result)
    ensures Ascending(facts, IdOrder(o)) && |facts| == |input|
    ensures forall r :: r in facts ==> r.fact in Elements(input) && HasFinalStatus(o, Elements(input), r)
    ensures forall f :: f in Elements(input) ==> exists r :: r in facts && r.fact == f
  {
    hide FinalStatus, Unauthorized, FactOrder, WellBehaved, HasFinalStatus, RecordedUpTo, IsPartition, UniqueInput;
    ghost var d := Elements(input);
    var list: seq<Reconciled> := [];
    for i := 0 to |input|
      invariant |list| == i
      invariant forall j :: 0 <= j < i ==> list[j].fact == input[j] && HasFinalStatus(o, d, list[j])
    {
      var f := input[i];
      FactRecorded(o, input, groups, result, f);
      list := list + [if f.id in result then result[f.id] else Reconciled(f, Superseded)];
    }
    facts := Sort(list, IdOrder(o));
    SortedFacts(o, input, list);
    forall r | r in facts ensures r.fact in d && HasFinalStatus(o, d, r) {
      var i :| 0 <= i < |list| && list[i] == r;
      assert input[i] in input;
    }
  }

  /** The facts of a list in the order of the input, sorted by id. */
  lemma SortedFacts(o: TextRules, input: seq<Fact>, list: seq<Reconciled>)
    requires WellBehaved(o) && UniqueInput(input) && |list| == |input|
    requires forall j :: 0 <= j < |list| ==> list[j].fact == input[j] && HasFinalStatus(o, Elements(input), list[j])
    ensures Ascending(Sort(list, IdOrder(o)), IdOrder(o)) && |Sort(list, IdOrder(o))| == |list|
    ensures forall r :: r in Sort(list, IdOrder(o)) <==> r in list
    ensures forall f :: f in input ==> exists r :: r in Sort(list, IdOrder(o)) && r.fact == f
  {
    hide WellBehaved, Ascending, Sort, StrictOrderOn, HasFinalStatus;
    UniqueInputFacts(input);
    forall r | r in list ensures r.fact in Elements(input) && HasFinalStatus(o, Elements(input), r) {
      var i :| 0 <= i < |list| && list[i] == r;
      assert input[i] in input;
    }
    IdsAreOrdered(o, Elements(input), list);
    forall i, j | 0 <= i < j < |list| ensures list[i] != list[j] { assert input[i] != input[j]; }
    SortAscending(list, IdOrder(o));
    SortMembers(list, IdOrder(o));
    forall f | f in input ensures exists r :: r in Sort(list, IdOrder(o)) && r.fact == f {
      var i :| 0 <= i < |input| && input[i] == f;
      assert list[i] in list;
    }
  }

  lemma FactRecorded(o: TextRules, input: seq<Fact>, groups: seq<seq<Fact>>, result: Results, f: Fact)
    requires WellBehaved(o) && UniqueInput(input) && IsPartition(o, input, groups) && f in input
    requires RecordedUpTo(o, Unauthorized(o, Elements(input)), groups, |groups|, result)
    ensures f.id in result && result[f.id].fact == f && HasFinalStatus(o, Elements(input), result[f.id])
  {
    hide FinalStatus, Unauthorized, FactOrder, WellBehaved;
    assert f in multiset(input);
    MemberOfGroup(groups, f);
    var k :| 0 <= k < |groups| && f in groups[k];
    GroupIsComponent(o, input, groups, k);
    assert Recorded(result, f, FinalStatus(o, Unauthorized(o, Elements(input)), Sort(groups[k], FactOrder(o)), f));
  }
}
