// What an adjudication of a discovered ledger guarantees about the relations it lets through.
module AdjudicationProperties {
  import opened Sorting
  import opened Ownership
  import opened SubmissionLedger
  import opened LedgerProperties
  import opened Adjudication

  lemma {:induction false} LastPerKeyDistinct<T(!new), K>(items: seq<T>, key: T -> K)
    ensures Distinct(LastPerKey(items, key))
  {
    if items != [] {
      LastPerKeyDistinct(items[1..], key);
      var rest := LastPerKey(items[1..], key);
      if !HasKey(rest, key, key(items[0])) {
        forall j | 0 <= j < |rest| ensures rest[j] != items[0] { assert HasKey(rest, key, key(rest[j])); }
      }
    }
  }

  lemma PositionsDistinct(rules: Rules, inputs: seq<Document>)
    ensures Distinct(Discovered(rules, inputs).candidates)
  {
    var kept := LastPerKey(AllCandidates(rules, Documents(rules, inputs)), IdOf);
    LastPerKeyDistinct(AllCandidates(rules, Documents(rules, inputs)), IdOf);
    DistinctMultiplicity(kept);
    DistinctMultiplicity(Sort(kept, rules.candidateBefore));
  }

  // Where relations come from: accepted decisions on the candidate at the same place in the ledger.
  ghost predicate FromDecisions(c: Candidate, relations: seq<Relation>) {
    exists decisions: seq<Decision> ::
      && SpansDistinct(decisions)
      && |decisions| == |relations|
      && forall k :: 0 <= k < |decisions| ==> ValidateRelation(c, decisions[k]) == Accepted(relations[k])
  }

  lemma VerdictOrigin(c: Candidate, b: Binding, responses: seq<Response>)
    requires Verdicts(c, b, responses).relations != []
    ensures FromDecisions(c, Verdicts(c, b, responses).relations)
  {
    hide ValidateRelation;
    var units := ResponsesTo(responses, b)[0].units;
    var own := Filter(units, (u: Unit) => u.candidate == c.id);
    var decisions := own[0].decisions;
    assert Verdicts(c, b, responses).relations == Relations(c, decisions);
    assert SpansDistinct(decisions);
    assert forall k :: 0 <= k < |decisions| ==> decisions[k] in decisions;
  }

  lemma RelationOrigin(
      rules: Rules, inputs: seq<Document>, bindings: seq<Binding>, responses: seq<Response>, packing: bool,
      a: Adjudicated, i: nat)
    requires IsAdjudication(Discovered(rules, inputs), bindings, responses, packing, a)
    requires i < |a.verdicts| && a.verdicts[i].relations != []
    ensures Discovered(rules, inputs).metadataComplete
    ensures |a.verdicts| == |Discovered(rules, inputs).candidates|
    ensures FromDecisions(Discovered(rules, inputs).candidates[i], a.verdicts[i].relations)
  {
    hide Discovered, Complete, CleanBatch, Verdicts, FromDecisions, Assigned, KnownBatches, Known, IntactFragments;
    var ledger := Discovered(rules, inputs);
    assert EarlyReason(ledger, bindings, packing) == None;
    hide EarlyReason;
    var c := ledger.candidates[i];
    var v := a.verdicts[i];
    assert OwnVerdict(ledger, bindings, responses, i, v);
    IdsUnique(rules, inputs, c, Find(ledger.candidates, c.id));
    var b :| b in bindings && c.id in b.candidates && v == Verdicts(c, b, responses);
    VerdictOrigin(c, b, responses);
  }

  // Of all relations that are let through, no two share document, page and span.
  lemma NoSharedSpan(
      rules: Rules, inputs: seq<Document>, bindings: seq<Binding>, responses: seq<Response>, packing: bool,
      a: Adjudicated, i: nat, k: nat, j: nat, l: nat)
    requires Consistent(inputs)
    requires IsAdjudication(Discovered(rules, inputs), bindings, responses, packing, a)
    requires i < |a.verdicts| && k < |a.verdicts[i].relations|
    requires j < |a.verdicts| && l < |a.verdicts[j].relations|
    requires
      var r, s := a.verdicts[i].relations[k], a.verdicts[j].relations[l];
      r.document == s.document && r.page == s.page && r.start == s.start && r.end == s.end
    ensures i == j && k == l
  {
    hide Discovered, IsAdjudication, Owns;
    RelationOrigin(rules, inputs, bindings, responses, packing, a, i);
    RelationOrigin(rules, inputs, bindings, responses, packing, a, j);
    var c, e := Discovered(rules, inputs).candidates[i], Discovered(rules, inputs).candidates[j];
    var r, s := a.verdicts[i].relations[k], a.verdicts[j].relations[l];
    OneCandidate(rules, inputs, c, e, r.start, r.end);
    PositionsDistinct(rules, inputs);
    assert i == j;
  }

  // A relation quotes its page exactly, and no verified relation leaves scope, modality or channel open.
  lemma RelationsAreExact(
      rules: Rules, inputs: seq<Document>, bindings: seq<Binding>, responses: seq<Response>, packing: bool,
      a: Adjudicated, i: nat, k: nat)
    requires IsAdjudication(Discovered(rules, inputs), bindings, responses, packing, a)
    requires i < |a.verdicts| && k < |a.verdicts[i].relations|
    ensures
      var r := a.verdicts[i].relations[k];
      exists d, p :: d in Documents(rules, inputs) && p in d.pages && QuotesPage(r, d, p)
    ensures CertainRelation(a.verdicts[i].relations[k])
  {
    hide Discovered, IsAdjudication, Owns, Cores, Documents;
    RelationOrigin(rules, inputs, bindings, responses, packing, a, i);
    var c := Discovered(rules, inputs).candidates[i];
    CandidateOrigin(rules, inputs, c);
    var d, p, core :| d in Documents(rules, inputs) && OriginOf(rules, c, d, p, core);
    CoreWithinPage(|p.text|, core);
    var decisions: seq<Decision> :|
      && SpansDistinct(decisions)
      && |decisions| == |a.verdicts[i].relations|
      && forall k :: 0 <= k < |decisions| ==> ValidateRelation(c, decisions[k]) == Accepted(a.verdicts[i].relations[k]);
    ValidationExact(c, decisions[k]);
    assert QuotesPage(a.verdicts[i].relations[k], d, p);
  }

  ghost predicate QuotesPage(r: Relation, d: Document, p: Page) {
    && r.document == d.sha && r.page == p.number
    && r.start < r.end <= |p.text| && r.end - r.start <= MAX_QUOTE_UTF16
    && r.quote == p.text[r.start..r.end]
  }

  predicate CertainRelation(r: Relation) {
    && r.scope != Ambiguous
    && r.modality != UnknownModality
    && (r.scope == WholeBid ==> r.channel != Unspecified)
  }

  // ---- Verified units carry the decisions of their answer ----

  // The one answer to the batch, and the one unit of it for the candidate.
  ghost predicate AnsweredBy(c: Candidate, b: Binding, responses: seq<Response>, u: Unit) {
    exists m, k ::
      && 0 <= m < |responses| && responses[m].batchId == b.batchId
      && (forall n :: 0 <= n < |responses| && responses[n].batchId == b.batchId ==> n == m)
      && 0 <= k < |responses[m].units| && responses[m].units[k] == u && u.candidate == c.id
      && forall l :: 0 <= l < |responses[m].units| && responses[m].units[l].candidate == c.id ==> l == k
  }

  // The relations repeat the decisions of the unit one by one, about page `p` of document `d`.
  ghost predicate CarriesDecisions(c: Candidate, d: Document, p: Page, u: Unit, relations: seq<Relation>) {
    && c.document == d.sha && c.role == d.role && c.amendment == d.amendment && c.page == p.number && c.pageText == p.text
    && |relations| == |u.decisions|
    && forall k :: 0 <= k < |relations| ==> Repeats(c, u.decisions[k], relations[k])
  }

  lemma {:induction false} SoleMember<T(!new)>(s: seq<T>, p: T -> bool) returns (i: nat)
    requires |Filter(s, p)| == 1
    ensures i < |s| && s[i] == Filter(s, p)[0] && p(s[i])
    ensures forall j :: 0 <= j < |s| && p(s[j]) ==> j == i
  {
    if p(s[0]) {
      i := 0;
      assert Filter(s[1..], p) == [];
      forall j | 0 < j < |s| ensures !p(s[j]) {
        assert s[1..][j - 1] == s[j] && s[j] !in Filter(s[1..], p);
      }
    } else {
      var k := SoleMember(s[1..], p);
      i := k + 1;
      forall j | 0 <= j < |s| && p(s[j]) ensures j == i { assert s[1..][j - 1] == s[j]; }
    }
  }

  lemma VerdictAnswered(c: Candidate, b: Binding, responses: seq<Response>) returns (u: Unit)
    requires Windowed(c) && Verdicts(c, b, responses).reason == None
    ensures AnsweredBy(c, b, responses, u)
    ensures |Verdicts(c, b, responses).relations| == |u.decisions|
    ensures forall k :: 0 <= k < |u.decisions| ==> Repeats(c, u.decisions[k], Verdicts(c, b, responses).relations[k])
  {
    hide ValidateRelation, ValidDecision, Repeats;
    var m := SoleMember(responses, (r: Response) => r.batchId == b.batchId);
    var units := responses[m].units;
    var k := SoleMember(units, (v: Unit) => v.candidate == c.id);
    u := units[k];
    assert AnsweredBy(c, b, responses, u);
    forall j | 0 <= j < |u.decisions| ensures Repeats(c, u.decisions[j], Verdicts(c, b, responses).relations[j]) {
      ValidationExact(c, u.decisions[j]);
      assert u.decisions[j] in u.decisions;
    }
  }

  // Over a discovered ledger the relations of a verified unit are the decisions of the one unit that answers for it, in
  // their order and with all that they say, about its own page and document. Other units have no relations.
  lemma UnitsCarryDecisions(
      rules: Rules, inputs: seq<Document>, bindings: seq<Binding>, responses: seq<Response>, packing: bool,
      a: Adjudicated, i: nat)
    requires IsAdjudication(Discovered(rules, inputs), bindings, responses, packing, a)
    requires i < |a.verdicts|
    ensures |a.verdicts| == |Discovered(rules, inputs).candidates|
    ensures
      var c, v := Discovered(rules, inputs).candidates[i], a.verdicts[i];
      && v.candidate == c.id && v.document == c.document && v.page == c.page
      && if v.reason.Some? then v.relations == []
         else exists b, u, d, p ::
           && b in bindings && c.id in b.candidates && AnsweredBy(c, b, responses, u)
           && d in Documents(rules, inputs) && p in d.pages && CarriesDecisions(c, d, p, u, v.relations)
  {
    hide Discovered, Complete, CleanBatch, Verdicts, Assigned, KnownBatches, Known, IntactFragments, EarlyReason, Documents;
    hide AnsweredBy, Repeats, Windowed, Cores;
    var ledger := Discovered(rules, inputs);
    var c, v := ledger.candidates[i], a.verdicts[i];
    if EarlyReason(ledger, bindings, packing) == None {
      assert OwnVerdict(ledger, bindings, responses, i, v);
      IdsUnique(rules, inputs, c, Find(ledger.candidates, c.id));
      var b :| b in bindings && c.id in b.candidates && v == Verdicts(c, b, responses);
      VerdictNames(c, b, responses);
      if v.reason == None {
        CandidateOrigin(rules, inputs, c);
        var d, p, core :| d in Documents(rules, inputs) && OriginOf(rules, c, d, p, core);
        CandidateWindowed(rules, c, d, p, core);
        var u := VerdictAnswered(c, b, responses);
        assert CarriesDecisions(c, d, p, u, v.relations);
      }
    }
  }

  lemma VerdictNames(c: Candidate, b: Binding, responses: seq<Response>)
    ensures
      var v := Verdicts(c, b, responses);
      v.candidate == c.id && v.document == c.document && v.page == c.page && (v.reason.Some? ==> v.relations == [])
  {
  }

  lemma CandidateWindowed(rules: Rules, c: Candidate, d: Document, p: Page, core: Core)
    requires OriginOf(rules, c, d, p, core)
    ensures Windowed(c)
  {
    CoreWithinPage(|p.text|, core);
  }
}
