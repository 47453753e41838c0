/** `reconcileVersionedFacts`: the staged fold over every group, and its order independence. */
module Reconciliation {
  import opened Sorting
  import opened Facts
  import opened Lifecycle

  type Results = map<string, Reconciled>

  ghost predicate HasId(fs: seq<Fact>, k: string) {
    exists f :: f in fs && f.id == k
  }

  /** `after` differs from `before` only at the ids of `fs`. */
  ghost predicate OnlyIds(before: Results, after: Results, fs: seq<Fact>) {
    forall k :: !HasId(fs, k) ==> (k in after <==> k in before) && (k in before ==> after[k] == before[k])
  }

  ghost predicate Recorded(result: Results, f: Fact, st: Status) {
    f.id in result && result[f.id] == Reconciled(f, st)
  }

  method SetStatus(result: Results, fs: seq<Fact>, st: Status) returns (after: Results)
    requires UniqueIds(Elements(fs))
    ensures forall f :: f in fs ==> Recorded(after, f, st)
    ensures OnlyIds(result, after, fs)
  {
    after := result;
    for i := 0 to |fs|
      invariant forall j :: 0 <= j < i ==> Recorded(after, fs[j], st)
      invariant OnlyIds(result, after, fs)
    {
      forall j | 0 <= j < i && fs[j].id == fs[i].id ensures fs[j] == fs[i] {
        assert fs[j] in Elements(fs) && fs[i] in Elements(fs);
      }
      assert HasId(fs, fs[i].id);
      after := after[fs[i].id := Reconciled(fs[i], st)];
    }
  }

  function Tagged(fs: seq<Fact>, st: Status): (r: seq<Reconciled>)
    ensures |r| == |fs| && forall i :: 0 <= i < |r| ==> r[i] == Reconciled(fs[i], st)
  {
    seq(|fs|, i requires 0 <= i < |fs| => Reconciled(fs[i], st))
  }

  function FactsOf(rs: seq<Reconciled>): (fs: seq<Fact>)
    ensures |fs| == |rs| && forall i :: 0 <= i < |fs| ==> fs[i] == rs[i].fact
  {
    seq(|rs|, i requires 0 <= i < |rs| => rs[i].fact)
  }

  /** What the fold holds after the sorted prefix `p` of whole stages. `currentConflict` is live exactly
      when some active fact is conflicted. */
  ghost predicate FoldState(o: TextRules, u: set<string>, p: seq<Fact>,
                            active: seq<Reconciled>, current: Option<Conflict>, result: Results)
  {
    && FactsOf(active) == Survivors(o, u, p)
    && (forall r :: r in active ==> r.status == StagedStatus(o, u, p, r.fact))
    && current == Latest(o, u, p)
    && (current.Some? <==> exists r :: r in active && r.status == Conflicted)
    && (forall f :: f in p ==> Recorded(result, f, StagedStatus(o, u, p, f)))
  }

  lemma CurrentIffConflicted(o: TextRules, u: set<string>, p: seq<Fact>, active: seq<Reconciled>)
    requires FactsOf(active) == Survivors(o, u, p)
    requires forall r :: r in active ==> r.status == StagedStatus(o, u, p, r.fact)
    ensures Latest(o, u, p).Some? <==> exists r :: r in active && r.status == Conflicted
  {
    hide StageConflict, Survives;
    var fs := Survivors(o, u, p);
    if Hits(o, u, p) != [] {
      var f := Hits(o, u, p)[0];
      assert f in Hits(o, u, p) && f in fs;
      var i :| 0 <= i < |fs| && fs[i] == f;
      assert active[i] in active && active[i].fact == f;
      assert active[i].status == Conflicted;
    }
    forall r | r in active && r.status == Conflicted ensures Hits(o, u, p) != [] {
      var i :| 0 <= i < |active| && active[i] == r;
      assert FactsOf(active)[i] in fs;
      assert r.fact in Hits(o, u, p);
    }
  }

  /** One stage of the fold: supersede if the stage replaces, then add its candidates. */
  method ApplyStage(o: TextRules, u: set<string>, ghost p: seq<Fact>, stage: seq<Fact>,
                    active: seq<Reconciled>, current: Option<Conflict>, result: Results)
    returns (active': seq<Reconciled>, current': Option<Conflict>, result': Results)
    requires WellBehaved(o) && NextStage(o, p, stage) && UniqueIds(Elements(p + stage))
    requires FoldState(o, u, p, active, current, result)
    ensures FoldState(o, u, p + stage, active', current', result')
    ensures OnlyIds(result, result', p + stage)
  {
    hide WellBehaved, NextStage, StageReplaces, ConflictAtStage, Survives, StageConflict, StagedStatus,
      Survivors, Latest, Recorded, HasId, OnlyIds, Candidates;
    UniqueParts(p, stage);
    active', current', result' := SupersedeActive(o, u, p, stage, active, current, result);
    ghost var r1 := result';
    active', current', result' := AddStage(o, u, p, stage, active', current', result');
    ActiveAfter(o, u, p, stage, active, active', Candidates(o, u, stage), StageStatus(o, u, stage));
    CurrentIffConflicted(o, u, p + stage, active');
    LatestStep(o, u, p, stage);
    OnlyIdsCompose(result, r1, result', p + stage);
  }

  function StageStatus(o: TextRules, u: set<string>, stage: seq<Fact>): Status {
    if ConflictAtStage(o, Candidates(o, u, stage)) then Conflicted else Active
  }

  /** A replacing stage ends everything that was active. */
  method SupersedeActive(o: TextRules, u: set<string>, ghost p: seq<Fact>, stage: seq<Fact>,
                         active: seq<Reconciled>, current: Option<Conflict>, result: Results)
    returns (active': seq<Reconciled>, current': Option<Conflict>, result': Results)
    requires WellBehaved(o) && NextStage(o, p, stage) && UniqueIds(Elements(p))
    requires FactsOf(active) == Survivors(o, u, p)
    requires forall f :: f in p ==> Recorded(result, f, StagedStatus(o, u, p, f))
    ensures active' == if StageReplaces(o, u, stage) then [] else active
    ensures current' == if StageReplaces(o, u, stage) then None else current
    ensures forall f :: f in p ==> Recorded(result', f, StagedStatus(o, u, p + stage, f))
    ensures OnlyIds(result, result', p + stage)
  {
    hide WellBehaved, NextStage, StageReplaces, StagedStatus, Survivors, Recorded, HasId;
    active', current', result' := active, current, result;
    ActiveFacts(o, u, p, active);
    OnlyIdsReflexive(result, FactsOf(active));
    if StageReplaces(o, u, stage) {
      result' := SetStatus(result', FactsOf(active), Superseded);
      active' := [];
      current' := None;
    }
    PrefixRecorded(o, u, p, stage, active, result, result');
    OnlyIdsWider(result, result', FactsOf(active), p + stage);
  }

  /** Candidates become active or conflicted together; the rest of the stage is only history. */
  method AddStage(o: TextRules, u: set<string>, ghost p: seq<Fact>, stage: seq<Fact>,
                  active: seq<Reconciled>, current: Option<Conflict>, result: Results)
    returns (active': seq<Reconciled>, current': Option<Conflict>, result': Results)
    requires WellBehaved(o) && NextStage(o, p, stage) && UniqueIds(Elements(p + stage))
    requires forall f :: f in p ==> Recorded(result, f, StagedStatus(o, u, p + stage, f))
    ensures active' == active + Tagged(Candidates(o, u, stage), StageStatus(o, u, stage))
    ensures current' == if ConflictAtStage(o, Candidates(o, u, stage))
                        then Some(Conflict(stage[0], Candidates(o, u, stage))) else current
    ensures forall f :: f in p + stage ==> Recorded(result', f, StagedStatus(o, u, p + stage, f))
    ensures OnlyIds(result, result', p + stage)
  {
    assert stage != [];
    hide WellBehaved, NextStage, ConflictAtStage, StagedStatus, Recorded, HasId;
    UniqueParts(p, stage);
    var candidates := Candidates(o, u, stage);
    UniqueSub(stage, candidates);
    result' := SetStatus(result, candidates, StageStatus(o, u, stage));
    active' := active + Tagged(candidates, StageStatus(o, u, stage));
    current' := current;
    if ConflictAtStage(o, candidates) {
      current' := Some(Conflict(stage[0], candidates));
    }
    OnlyIdsWider(result, result', candidates, p + stage);
    ghost var r2 := result';
    var history := Filter(stage, f => !IsCandidate(o, u, f));
    UniqueSub(stage, history);
    result' := SetStatus(result', history, Superseded);
    OnlyIdsWider(r2, result', history, p + stage);
    StageRecorded(o, u, p, stage, candidates, history, result, r2, result');
    OnlyIdsCompose(result, r2, result', p + stage);
  }

  lemma OnlyIdsCompose(a: Results, b: Results, c: Results, fs: seq<Fact>)
    requires OnlyIds(a, b, fs) && OnlyIds(b, c, fs)
    ensures OnlyIds(a, c, fs)
  {
  }

  lemma OnlyIdsReflexive(r: Results, fs: seq<Fact>)
    ensures OnlyIds(r, r, fs)
  {
  }

  lemma UniqueParts(p: seq<Fact>, t: seq<Fact>)
    requires UniqueIds(Elements(p + t))
    ensures UniqueIds(Elements(p)) && UniqueIds(Elements(t))
    ensures forall f, g :: f in p && g in t && f.id == g.id ==> f == g
  {
    forall f | f in p ensures f in Elements(p + t) { }
    forall f | f in t ensures f in Elements(p + t) { }
  }

  lemma UniqueSub(s: seq<Fact>, t: seq<Fact>)
    requires UniqueIds(Elements(s)) && forall f :: f in t ==> f in s
    ensures UniqueIds(Elements(t))
  {
    forall f | f in t ensures f in Elements(s) { }
  }

  lemma OtherId(s: seq<Fact>, sub: seq<Fact>, f: Fact)
    requires UniqueIds(Elements(s)) && f in s && f !in sub
    requires forall g :: g in sub ==> g in s
    ensures !HasId(sub, f.id)
  {
    forall g | g in sub ensures g.id != f.id {
      assert g in Elements(s) && f in Elements(s);
    }
  }

  lemma ActiveFacts(o: TextRules, u: set<string>, p: seq<Fact>, active: seq<Reconciled>)
    requires FactsOf(active) == Survivors(o, u, p) && UniqueIds(Elements(p))
    ensures forall f :: f in FactsOf(active) <==> f in p && Survives(o, u, p, f)
    ensures UniqueIds(Elements(FactsOf(active)))
  {
    hide Survives;
    forall f | f in FactsOf(active) ensures f in Elements(p) { }
  }

  lemma PrefixRecorded(o: TextRules, u: set<string>, p: seq<Fact>, t: seq<Fact>, active: seq<Reconciled>,
                       result: Results, r1: Results)
    requires WellBehaved(o) && NextStage(o, p, t) && UniqueIds(Elements(p))
    requires FactsOf(active) == Survivors(o, u, p)
    requires forall f :: f in p ==> Recorded(result, f, StagedStatus(o, u, p, f))
    requires if StageReplaces(o, u, t)
             then (forall f :: f in FactsOf(active) ==> Recorded(r1, f, Superseded)) &&
                  OnlyIds(result, r1, FactsOf(active))
             else r1 == result
    ensures forall f :: f in p ==> Recorded(r1, f, StagedStatus(o, u, p + t, f))
  {
    hide StageConflict, Survives;
    StagedStatusStep(o, u, p, t);
    if StageReplaces(o, u, t) {
      ActiveFacts(o, u, p, active);
      forall f | f in p ensures Recorded(r1, f, Superseded) {
        if !Survives(o, u, p, f) {
          OtherId(p, FactsOf(active), f);
          assert StagedStatus(o, u, p, f) == Superseded;
        }
      }
    }
  }

  lemma StageRecorded(o: TextRules, u: set<string>, p: seq<Fact>, t: seq<Fact>, c: seq<Fact>, h: seq<Fact>,
                      r1: Results, r2: Results, r3: Results)
    requires WellBehaved(o) && NextStage(o, p, t) && UniqueIds(Elements(p + t))
    requires c == Candidates(o, u, t) && h == Filter(t, f => !IsCandidate(o, u, f))
    requires forall f :: f in p ==> Recorded(r1, f, StagedStatus(o, u, p + t, f))
    requires var st := if ConflictAtStage(o, c) then Conflicted else Active;
             forall f :: f in c ==> Recorded(r2, f, st)
    requires OnlyIds(r1, r2, c) && OnlyIds(r2, r3, h)
    requires forall f :: f in h ==> Recorded(r3, f, Superseded)
    ensures forall f :: f in p + t ==> Recorded(r3, f, StagedStatus(o, u, p + t, f))
  {
    hide ConflictAtStage, Survives, StageConflict;
    StagedStatusStep(o, u, p, t);
    StageOrderFacts(o, p, t);
    UniqueParts(p, t);
    forall f | f in p + t ensures Recorded(r3, f, StagedStatus(o, u, p + t, f)) {
      if f in p {
        assert !HasId(c, f.id) && !HasId(h, f.id);
      } else if f in c {
        OtherId(t, h, f);
      } else {
        assert f in h;
      }
    }
  }

  lemma ActiveAfter(o: TextRules, u: set<string>, p: seq<Fact>, t: seq<Fact>,
                    active: seq<Reconciled>, active': seq<Reconciled>, c: seq<Fact>, status: Status)
    requires WellBehaved(o) && NextStage(o, p, t)
    requires FactsOf(active) == Survivors(o, u, p) && c == Candidates(o, u, t)
    requires forall r :: r in active ==> r.status == StagedStatus(o, u, p, r.fact)
    requires status == if ConflictAtStage(o, c) then Conflicted else Active
    requires active' == (if StageReplaces(o, u, t) then [] else active) + Tagged(c, status)
    ensures FactsOf(active') == Survivors(o, u, p + t)
    ensures forall r :: r in active' ==> r.status == StagedStatus(o, u, p + t, r.fact)
  {
    hide ConflictAtStage, Survives, StageConflict, StagedStatus, WellBehaved, NextStage, Survivors, Candidates;
    var kept := if StageReplaces(o, u, t) then [] else active;
    SurvivorsStep(o, u, p, t);
    assert FactsOf(active') == FactsOf(kept) + c;
    forall r | r in active' ensures r.status == StagedStatus(o, u, p + t, r.fact) {
      var i :| 0 <= i < |active'| && active'[i] == r;
      if i < |kept| {
        assert r == active[i] && FactsOf(active)[i] == r.fact;
        KeptStatus(o, u, p, t, r.fact);
      } else {
        assert c[i - |kept|] == r.fact;
        AddedStatus(o, u, p, t, r.fact);
      }
    }
  }

  lemma KeptStatus(o: TextRules, u: set<string>, p: seq<Fact>, t: seq<Fact>, f: Fact)
    requires WellBehaved(o) && NextStage(o, p, t) && f in Survivors(o, u, p) && !StageReplaces(o, u, t)
    ensures StagedStatus(o, u, p + t, f) == StagedStatus(o, u, p, f)
  {
    StagedStatusStep(o, u, p, t);
  }

  lemma AddedStatus(o: TextRules, u: set<string>, p: seq<Fact>, t: seq<Fact>, f: Fact)
    requires WellBehaved(o) && NextStage(o, p, t) && f in Candidates(o, u, t)
    ensures StagedStatus(o, u, p + t, f) ==
            if ConflictAtStage(o, Candidates(o, u, t)) then Conflicted else Active
  {
    StagedStatusStep(o, u, p, t);
  }

  // ---- one group ----

  ghost predicate SortedGroup(o: TextRules, s: seq<Fact>) {
    Ascending(s, FactOrder(o)) && UniqueIds(Elements(s))
  }

  /** The facts right after a cursor that share the first one's stage. */
  method TakeStage(o: TextRules, s: seq<Fact>, start: nat) returns (cursor: nat)
    requires WellBehaved(o) && SortedGroup(o, s) && start < |s|
    requires forall f, g :: f in s[..start] && g in s[start..] ==> StageLess(o, f, g)
    ensures start < cursor <= |s|
    ensures NextStage(o, s[..start], s[start..cursor])
    ensures forall f, g :: f in s[..cursor] && g in s[cursor..] ==> StageLess(o, f, g)
  {
    cursor := start + 1;
    while cursor < |s| && SameStage(o, s[start], s[cursor])
      invariant start < cursor <= |s|
      invariant forall k :: start <= k < cursor ==> SameStage(o, s[start], s[k])
    {
      cursor := cursor + 1;
    }
    StageBoundary(o, s, start, cursor);
  }

  lemma StageBoundary(o: TextRules, s: seq<Fact>, start: nat, cursor: nat)
    requires WellBehaved(o) && Ascending(s, FactOrder(o)) && start < cursor <= |s|
    requires forall f, g :: f in s[..start] && g in s[start..] ==> StageLess(o, f, g)
    requires forall k :: start <= k < cursor ==> SameStage(o, s[start], s[k])
    requires cursor < |s| ==> !SameStage(o, s[start], s[cursor])
    ensures NextStage(o, s[..start], s[start..cursor])
    ensures forall f, g :: f in s[..cursor] && g in s[cursor..] ==> StageLess(o, f, g)
  {
    forall i, j | 0 <= i < cursor <= j < |s| ensures StageLess(o, s[i], s[j]) {
      if i < start {
        assert s[i] in s[..start] && s[j] in s[start..];
      } else {
        LaterStage(o, s, start, cursor, j);
        StageLessTransitive(o, s[i], s[start], s[j]);
      }
    }
    forall f, g | f in s[..start] && g in s[start..cursor] ensures StageLess(o, f, g) {
      assert g in s[start..];
    }
  }

  lemma LaterStage(o: TextRules, s: seq<Fact>, start: nat, cursor: nat, j: nat)
    requires WellBehaved(o) && Ascending(s, FactOrder(o)) && start < cursor <= j < |s|
    requires !SameStage(o, s[start], s[cursor])
    ensures StageLess(o, s[start], s[j])
  {
    assert FactOrder(o)(s[start], s[cursor]);
    if cursor < j {
      assert FactOrder(o)(s[cursor], s[j]);
      StageLessTransitive(o, s[start], s[cursor], s[j]);
    }
  }

  method ReconcileGroup(o: TextRules, u: set<string>, s: seq<Fact>, result: Results)
    returns (result': Results, conflict: Option<Conflict>)
    requires WellBehaved(o) && SortedGroup(o, s)
    ensures forall f :: f in s ==> Recorded(result', f, FinalStatus(o, u, s, f))
    ensures OnlyIds(result, result', s)
    ensures conflict == Emitted(o, u, s)
  {
    hide ConflictAtStage, ConflictAtEnd, StageLess, Survives, StageConflict, StagedStatus, Survivors,
      Latest, WellBehaved, Recorded, HasId;
    var active: seq<Reconciled> := [];
    var current: Option<Conflict> := None;
    result' := result;
    var cursor: nat := 0;
    FoldStart(o, u, s, result);
    OnlyIdsReflexive(result, s);
    while cursor < |s|
      invariant cursor <= |s|
      invariant forall f, g :: f in s[..cursor] && g in s[cursor..] ==> StageLess(o, f, g)
      invariant FoldState(o, u, s[..cursor], active, current, result')
      invariant OnlyIds(result, result', s)
    {
      hide FoldState;
      var start := cursor;
      cursor := TakeStage(o, s, start);
      var stage := s[start..cursor];
      assert s[..start] + stage == s[..cursor];
      UniqueSub(s, s[..cursor]);
      ghost var before := result';
      active, current, result' := ApplyStage(o, u, s[..start], stage, active, current, result');
      OnlyIdsWider(before, result', s[..cursor], s);
    }
    assert s[..cursor] == s;
    result', conflict := FinishGroup(o, u, s, active, current, result');
  }

  lemma FoldStart(o: TextRules, u: set<string>, s: seq<Fact>, result: Results)
    ensures FoldState(o, u, s[..0], [], None, result)
  {
    assert s[..0] == [];
  }

  /** The cross-stage check on the survivors, and the decision to emit. */
  method FinishGroup(o: TextRules, u: set<string>, s: seq<Fact>,
                     active: seq<Reconciled>, current: Option<Conflict>, result: Results)
    returns (result': Results, conflict: Option<Conflict>)
    requires SortedGroup(o, s) && FoldState(o, u, s, active, current, result)
    ensures forall f :: f in s ==> Recorded(result', f, FinalStatus(o, u, s, f))
    ensures OnlyIds(result, result', s)
    ensures conflict == Emitted(o, u, s)
  {
    hide ConflictAtStage, ConflictAtEnd, Survives, StageConflict, StagedStatus, Latest, Recorded, HasId;
    ActiveFacts(o, u, s, active);
    result' := result;
    var final, live := active, current;
    OnlyIdsReflexive(result, FactsOf(active));
    if current.None? && ConflictAtEnd(o, FactsOf(active)) {
      result' := SetStatus(result', FactsOf(active), Conflicted);
      EndNeedsTwo(o, FactsOf(active));
      live := Some(Conflict(active[0].fact, FactsOf(active)));
      final := Tagged(FactsOf(active), Conflicted);
      assert final[0] in final;
    }
    OnlyIdsWider(result, result', FactsOf(active), s);
    FinalRecorded(o, u, s, result, result');
    conflict := if live.Some? && exists r :: r in final && r.status == Conflicted then live else None;
  }

  lemma EndNeedsTwo(o: TextRules, c: seq<Fact>)
    requires ConflictAtEnd(o, c)
    ensures |c| >= 2
  {
  }

  lemma OnlyIdsWider(before: Results, after: Results, fs: seq<Fact>, gs: seq<Fact>)
    requires OnlyIds(before, after, fs) && forall f :: f in fs ==> f in gs
    ensures OnlyIds(before, after, gs)
  {
    forall k | !HasId(gs, k) ensures !HasId(fs, k) { }
  }

  lemma FinalRecorded(o: TextRules, u: set<string>, s: seq<Fact>, staged: Results, result: Results)
    requires UniqueIds(Elements(s))
    requires forall f :: f in s ==> Recorded(staged, f, StagedStatus(o, u, s, f))
    requires if FinalConflict(o, u, s)
             then (forall f :: f in Survivors(o, u, s) ==> Recorded(result, f, Conflicted)) &&
                  OnlyIds(staged, result, Survivors(o, u, s))
             else result == staged
    ensures forall f :: f in s ==> Recorded(result, f, FinalStatus(o, u, s, f))
  {
    hide ConflictAtStage, ConflictAtEnd, LaterReplaced;
    forall f | f in s ensures Recorded(result, f, FinalStatus(o, u, s, f)) {
      if FinalConflict(o, u, s) && f !in Survivors(o, u, s) {
        OtherId(s, Survivors(o, u, s), f);
      }
    }
  }
}
