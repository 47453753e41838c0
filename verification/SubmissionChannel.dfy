// The submission channel that a verified adjudication establishes for the whole package.
module SubmissionChannel {
  import opened Sorting
  import opened SubmissionLedger
  import opened Adjudication
  import opened Texts

  datatype Options = Options(
    draftChannels: set<Channel>, amendmentSignal: bool, metadataComplete: bool, unboundEvidence: bool)

  datatype Resolution =
    | Unique(channel: Channel, decisive: Relation)
    | NoChannel | PossibleOnly | Multiple | Contradicted | UnresolvedChannel

  function RelationsOf(verdicts: seq<Verdict>): (rs: seq<Relation>)
    ensures forall r :: r in rs <==> exists v :: v in verdicts && r in v.relations
  {
    if verdicts == [] then [] else
      assert verdicts == [verdicts[0]] + verdicts[1..];
      verdicts[0].relations + RelationsOf(verdicts[1..])
  }

  predicate Usable(a: Adjudicated, o: Options) {
    && a.complete
    && a.reasons == {}
    && o.metadataComplete
    && !o.unboundEvidence
    && a.verifiedCandidates == a.expectedCandidates
    && a.verifiedFragments == a.expectedFragments
    && !o.amendmentSignal
  }

  predicate Open(r: Relation) {
    r.scope == Ambiguous || r.modality == UnknownModality || (r.scope == WholeBid && r.channel == Unspecified)
  }

  predicate Positive(r: Relation) {
    r.scope == WholeBid && r.modality != Prohibited
  }

  function Signature(r: Relation): (Channel, Modality, Option<Text>) {
    (r.channel, r.modality, r.condition)
  }

  function Signatures(rs: seq<Relation>, select: Relation -> bool): set<(Channel, Modality, Option<Text>)> {
    set r | r in rs && select(r) :: Signature(r)
  }

  function Version(r: Relation): string {
    if r.amendment.Some? then r.amendment.value else ""
  }

  // An amendment that speaks positively repeats exactly what the base says, and requires some channel.
  predicate Restates(rs: seq<Relation>, amendment: Relation) {
    var ofVersion := (r: Relation) => Positive(r) && r.role == Amendment && Version(r) == Version(amendment);
    && Signatures(rs, (r: Relation) => Positive(r) && r.role == Base) == Signatures(rs, ofVersion)
    && exists r :: r in rs && ofVersion(r) && r.modality == Required
  }

  predicate Restated(rs: seq<Relation>) {
    forall r :: r in rs && Positive(r) && r.role == Amendment ==> Restates(rs, r)
  }

  function Possible(rs: seq<Relation>): (possible: seq<Relation>)
    ensures forall r :: r in possible <==> r in rs && Positive(r) && r.channel != Unspecified
  {
    Filter(rs, (r: Relation) => Positive(r) && r.channel != Unspecified)
  }

  predicate Several(possible: seq<Relation>) {
    exists r :: r in possible && r.channel != possible[0].channel
  }

  function Decisive(rs: seq<Relation>, channel: Channel): (decisive: seq<Relation>)
    ensures forall r :: r in decisive <==> r in rs && Demands(r, channel)
  {
    Filter(rs, (r: Relation) => Demands(r, channel))
  }

  predicate Forbidden(rs: seq<Relation>, channel: Channel) {
    exists r :: r in rs && Forbids(r, channel)
  }

  function Resolve(artifact: Option<Adjudicated>, o: Options): Resolution {
    if artifact == None || !Usable(artifact.value, o) then UnresolvedChannel
    else
      var rs := RelationsOf(artifact.value.verdicts);
      if (exists r :: r in rs && Open(r)) || !Restated(rs) then UnresolvedChannel
      else
        var possible := Possible(rs);
        if o.draftChannels != {} &&
           (possible == [] || Several(possible) || o.draftChannels != {possible[0].channel}) then UnresolvedChannel
        else if possible == [] then NoChannel
        else if Several(possible) then Multiple
        else
          var channel := possible[0].channel;
          if Forbidden(rs, channel) then Contradicted
          else if Decisive(rs, channel) == [] then PossibleOnly
          else Unique(channel, Decisive(rs, channel)[0])
  }

  predicate Forbids(r: Relation, channel: Channel) {
    r.scope == WholeBid && r.channel == channel != Unspecified && r.modality == Prohibited && r.condition == None
  }

  predicate Demands(r: Relation, channel: Channel) {
    r.scope == WholeBid && r.channel == channel != Unspecified && r.modality == Required
  }

  // When the whole bid has one channel.
  predicate OneChannel(a: Adjudicated, o: Options, channel: Channel) {
    var rs := RelationsOf(a.verdicts);
    && Usable(a, o)
    && (forall r :: r in rs ==> !Open(r))
    && Restated(rs)
    && (forall r :: r in rs && Positive(r) ==> r.channel == channel)
    && (exists r :: r in rs && Demands(r, channel))
    && (forall r :: r in rs ==> !Forbids(r, channel))
    && o.draftChannels <= {channel}
  }

  // A unique channel is reported exactly when every positive relation about the whole bid names it, one requires it,
  // none forbids it outright, the draft names no other, and amendments restate the base.
  lemma UniqueExactly(a: Adjudicated, o: Options, channel: Channel)
    ensures Resolve(Some(a), o).Unique? && Resolve(Some(a), o).channel == channel <==> OneChannel(a, o, channel)
  {
    hide Restated, Usable, Decisive, Possible;
    var rs := RelationsOf(a.verdicts);
    var possible := Possible(rs);
    if OneChannel(a, o, channel) {
      var r :| r in rs && Demands(r, channel);
      assert r in possible && possible[0] in possible;
      assert r in Decisive(rs, channel);
    }
    if Resolve(Some(a), o).Unique? {
      UniqueMeansOneChannel(a, o);
    }
  }

  lemma UniqueMeansOneChannel(a: Adjudicated, o: Options)
    requires Resolve(Some(a), o).Unique?
    ensures OneChannel(a, o, Resolve(Some(a), o).channel)
  {
    hide Restated, Usable, Decisive, Possible;
    var rs := RelationsOf(a.verdicts);
    var possible, channel := Possible(rs), Resolve(Some(a), o).channel;
    assert Decisive(rs, channel)[0] in Decisive(rs, channel);
    forall r | r in rs && Positive(r) ensures r.channel == channel {
      assert !Open(r);
      assert r in possible;
    }
  }

  ghost predicate Enlarges(a: Adjudicated, b: Adjudicated) {
    Elements(RelationsOf(a.verdicts)) <= Elements(RelationsOf(b.verdicts))
  }

  // Adding relations can unsettle a unique channel but never replace it with another one.
  lemma UniqueNeverSwitches(a: Adjudicated, oa: Options, b: Adjudicated, ob: Options)
    requires Enlarges(a, b)
    requires Resolve(Some(a), oa).Unique? && Resolve(Some(b), ob).Unique?
    ensures Resolve(Some(a), oa).channel == Resolve(Some(b), ob).channel
  {
    var c, d := Resolve(Some(a), oa).channel, Resolve(Some(b), ob).channel;
    UniqueExactly(a, oa, c);
    UniqueExactly(b, ob, d);
    var r :| r in RelationsOf(a.verdicts) && Demands(r, c);
    assert r in Elements(RelationsOf(a.verdicts));
    assert r in Elements(RelationsOf(b.verdicts));
  }

  ghost predicate SameRelations(a: Adjudicated, b: Adjudicated) {
    forall r :: r in RelationsOf(a.verdicts) <==> r in RelationsOf(b.verdicts)
  }

  predicate SameOutcome(x: Resolution, y: Resolution) {
    || (x.Unique? && y.Unique? && x.channel == y.channel)
    || (!x.Unique? && x == y)
  }

  lemma RestatedBySet(rs: seq<Relation>, ss: seq<Relation>)
    requires forall r :: r in rs <==> r in ss
    ensures Restated(rs) <==> Restated(ss)
  {
    forall r ensures Restates(rs, r) <==> Restates(ss, r) {
      var ofVersion := (s: Relation) => Positive(s) && s.role == Amendment && Version(s) == Version(r);
      var base := (s: Relation) => Positive(s) && s.role == Base;
      assert Signatures(rs, ofVersion) == Signatures(ss, ofVersion);
      assert Signatures(rs, base) == Signatures(ss, base);
    }
  }

  // The outcome depends on the set of relations, not on their order, their repetition or the unit that holds them.
  lemma OutcomeIgnoresOrder(a: Adjudicated, b: Adjudicated, o: Options)
    requires SameRelations(a, b) && (Usable(a, o) <==> Usable(b, o))
    ensures SameOutcome(Resolve(Some(a), o), Resolve(Some(b), o))
  {
    hide Restated, Usable, Possible, Decisive, Several, Forbids, RelationsOf;
    var rs, ss := RelationsOf(a.verdicts), RelationsOf(b.verdicts);
    RestatedBySet(rs, ss);
    var p, q := Possible(rs), Possible(ss);
    PossibleBySet(rs, ss);
    if p != [] && !Several(p) {
      var d, e := Decisive(rs, p[0].channel), Decisive(ss, p[0].channel);
      if d != [] { assert d[0] in e; }
      if e != [] { assert e[0] in d; }
    }
  }

  lemma PossibleBySet(rs: seq<Relation>, ss: seq<Relation>)
    requires forall r :: r in rs <==> r in ss
    ensures Possible(rs) == [] <==> Possible(ss) == []
    ensures Several(Possible(rs)) <==> Several(Possible(ss))
    ensures Possible(rs) != [] && !Several(Possible(rs)) ==> Possible(ss)[0].channel == Possible(rs)[0].channel
  {
    hide Possible, Positive;
    var p, q := Possible(rs), Possible(ss);
    if p != [] { assert p[0] in q; }
    if q != [] { assert q[0] in p; }
  }

  // ---- All outcomes, on the fields of the relations ----

  // `r` and `s` say the same about the whole bid.
  ghost predicate SaysTheSame(r: Relation, s: Relation) {
    r.channel == s.channel && r.modality == s.modality && r.condition == s.condition
  }

  ghost predicate SpeaksFor(r: Relation) {
    r.scope == WholeBid && r.modality != Prohibited
  }

  // `s` speaks in the amendment of `r`; a missing number is the empty one.
  ghost predicate SameAmendment(r: Relation, s: Relation) {
    && r.role == Amendment && s.role == Amendment
    && (r.amendment == s.amendment || (r.amendment in {None, Some("")} && s.amendment in {None, Some("")}))
  }

  // The base says the same as `r`.
  ghost predicate SaidInBase(rs: seq<Relation>, r: Relation) {
    exists b :: b in rs && SpeaksFor(b) && b.role == Base && SaysTheSame(r, b)
  }

  // The amendment of `r` says the same as `b`.
  ghost predicate SaidInAmendment(rs: seq<Relation>, r: Relation, b: Relation) {
    exists s :: s in rs && SpeaksFor(s) && SameAmendment(r, s) && SaysTheSame(b, s)
  }

  ghost predicate AmendmentRequires(rs: seq<Relation>, r: Relation) {
    exists s :: s in rs && SpeaksFor(s) && SameAmendment(r, s) && s.modality == Required
  }

  // Every amendment that speaks for a channel says everything that the base says and nothing else, and requires something.
  ghost predicate AmendmentsRepeatBase(rs: seq<Relation>) {
    forall r :: r in rs && SpeaksFor(r) && r.role == Amendment ==>
      && SaidInBase(rs, r)
      && (forall b :: b in rs && SpeaksFor(b) && b.role == Base ==> SaidInAmendment(rs, r, b))
      && AmendmentRequires(rs, r)
  }

  // The artifact may be used, nothing in it is left open, and amendments repeat the base.
  ghost predicate Settled(a: Adjudicated, o: Options) {
    var rs := RelationsOf(a.verdicts);
    && a.complete && |a.reasons| == 0
    && a.verifiedCandidates == a.expectedCandidates && a.verifiedFragments == a.expectedFragments
    && o.metadataComplete && !o.unboundEvidence && !o.amendmentSignal
    && (forall r :: r in rs ==>
          r.scope != Ambiguous && r.modality != UnknownModality && (r.channel == Unspecified ==> r.scope != WholeBid))
    && AmendmentsRepeatBase(rs)
  }

  // All relations that speak for a channel speak for this one, and one does.
  ghost predicate OnlyChannel(rs: seq<Relation>, c: Channel) {
    (exists r :: r in rs && SpeaksFor(r)) && forall r :: r in rs && SpeaksFor(r) ==> r.channel == c
  }

  ghost predicate ForbiddenOutright(rs: seq<Relation>, c: Channel) {
    exists r :: r in rs && r.scope == WholeBid && r.modality == Prohibited && r.channel == c && r.condition == None
  }

  ghost predicate RequiredSomewhere(rs: seq<Relation>, c: Channel) {
    exists r :: r in rs && r.scope == WholeBid && r.modality == Required && r.channel == c
  }

  // What the outcome says about the relations and the channels that the draft names.
  ghost predicate Concludes(rs: seq<Relation>, draft: set<Channel>, x: Resolution) {
    match x
    case NoChannel => draft == {} && forall r :: r in rs ==> !SpeaksFor(r)
    case Multiple => draft == {} && exists r, s :: r in rs && s in rs && SpeaksFor(r) && SpeaksFor(s) && r.channel != s.channel
    case Contradicted => exists c :: OnlyChannel(rs, c) && draft <= {c} && ForbiddenOutright(rs, c)
    case PossibleOnly => exists c :: OnlyChannel(rs, c) && draft <= {c} && !ForbiddenOutright(rs, c) && !RequiredSomewhere(rs, c)
    case Unique(c, decisive) =>
      && OnlyChannel(rs, c) && draft <= {c} && !ForbiddenOutright(rs, c)
      && FirstRequirement(rs, c, decisive)
    case UnresolvedChannel => draft != {} && forall c :: OnlyChannel(rs, c) ==> draft != {c}
  }

  // The first relation that requires the channel for the whole bid.
  ghost predicate FirstRequirement(rs: seq<Relation>, c: Channel, decisive: Relation) {
    exists i ::
      && 0 <= i < |rs| && rs[i] == decisive && Requires(rs[i], c)
      && forall j :: 0 <= j < i ==> !Requires(rs[j], c)
  }

  ghost predicate Requires(r: Relation, c: Channel) {
    r.scope == WholeBid && r.modality == Required && r.channel == c
  }

  ghost predicate Echoes(r: Relation, ss: seq<Relation>, q: Relation -> bool) {
    exists s :: s in ss && q(s) && SaysTheSame(r, s)
  }

  lemma SignaturesWithin(rs: seq<Relation>, p: Relation -> bool, ss: seq<Relation>, q: Relation -> bool)
    ensures Signatures(rs, p) <= Signatures(ss, q) <==> forall r :: r in rs && p(r) ==> Echoes(r, ss, q)
  {
    hide Echoes;
    forall r | r in rs && p(r) ensures Echoes(r, ss, q) <==> Signature(r) in Signatures(ss, q) {
      EchoExactly(r, ss, q);
      assert Signature(r) in Signatures(rs, p);
    }
  }

  lemma EchoExactly(r: Relation, ss: seq<Relation>, q: Relation -> bool)
    ensures Echoes(r, ss, q) <==> Signature(r) in Signatures(ss, q)
  {
  }

  lemma RestatesExactly(rs: seq<Relation>, r: Relation)
    requires r.role == Amendment
    ensures Restates(rs, r) <==>
      && (forall s :: s in rs && SpeaksFor(s) && SameAmendment(r, s) ==> SaidInBase(rs, s))
      && (forall b :: b in rs && SpeaksFor(b) && b.role == Base ==> SaidInAmendment(rs, r, b))
      && AmendmentRequires(rs, r)
  {
    hide SaysTheSame, Signatures, SameAmendment, Version, SaidInBase, SaidInAmendment, Echoes;
    var ofVersion := (s: Relation) => Positive(s) && s.role == Amendment && Version(s) == Version(r);
    var base := (s: Relation) => Positive(s) && s.role == Base;
    forall s ensures ofVersion(s) <==> SpeaksFor(s) && SameAmendment(r, s) { VersionIs(r, s); }
    SignaturesWithin(rs, ofVersion, rs, base);
    SignaturesWithin(rs, base, rs, ofVersion);
    forall s ensures Echoes(s, rs, base) <==> SaidInBase(rs, s) { EchoesBase(rs, s, base); }
    forall s ensures Echoes(s, rs, ofVersion) <==> SaidInAmendment(rs, r, s) { EchoesAmendment(rs, r, s, ofVersion); }
    SetsEqual(Signatures(rs, base), Signatures(rs, ofVersion));
  }

  lemma SetsEqual<T>(s: set<T>, t: set<T>)
    ensures s == t <==> s <= t && t <= s
  {
  }

  lemma VersionIs(r: Relation, s: Relation)
    requires r.role == Amendment
    ensures Positive(s) && s.role == Amendment && Version(s) == Version(r) <==> SpeaksFor(s) && SameAmendment(r, s)
  {
  }

  lemma EchoesBase(rs: seq<Relation>, s: Relation, base: Relation -> bool)
    requires forall b :: base(b) <==> SpeaksFor(b) && b.role == Base
    ensures Echoes(s, rs, base) <==> SaidInBase(rs, s)
  {
    hide SaysTheSame, SpeaksFor;
  }

  lemma EchoesAmendment(rs: seq<Relation>, r: Relation, s: Relation, ofVersion: Relation -> bool)
    requires forall t :: ofVersion(t) <==> SpeaksFor(t) && SameAmendment(r, t)
    ensures Echoes(s, rs, ofVersion) <==> SaidInAmendment(rs, r, s)
  {
    hide SaysTheSame, SpeaksFor, SameAmendment;
  }

  // The condition on amendments: each one that speaks for a channel repeats the base exactly and requires something.
  lemma RestatedExactly(rs: seq<Relation>)
    ensures Restated(rs) <==> AmendmentsRepeatBase(rs)
  {
    hide Restates, SameAmendment, SaidInBase, SaidInAmendment, AmendmentRequires;
    forall r | r in rs && Positive(r) && r.role == Amendment
      ensures SameAmendment(r, r)
      ensures Restates(rs, r) <==>
        && (forall s :: s in rs && SpeaksFor(s) && SameAmendment(r, s) ==> SaidInBase(rs, s))
        && (forall b :: b in rs && SpeaksFor(b) && b.role == Base ==> SaidInAmendment(rs, r, b))
        && AmendmentRequires(rs, r)
    {
      RestatesExactly(rs, r);
      OwnAmendment(r);
    }
    forall r, s | SameAmendment(r, s) ensures s.role == Amendment { OfAmendment(r, s); }
  }

  lemma OfAmendment(r: Relation, s: Relation)
    requires SameAmendment(r, s)
    ensures s.role == Amendment
  {
  }

  lemma OwnAmendment(r: Relation)
    requires r.role == Amendment
    ensures SameAmendment(r, r)
  {
  }

  lemma SettledExactly(a: Adjudicated, o: Options)
    ensures Settled(a, o) <==>
            Usable(a, o) && (forall r :: r in RelationsOf(a.verdicts) ==> !Open(r)) && Restated(RelationsOf(a.verdicts))
  {
    hide RelationsOf, AmendmentsRepeatBase, Restated;
    RestatedExactly(RelationsOf(a.verdicts));
  }

  lemma {:induction false} FilterFirst<T(!new)>(s: seq<T>, p: T -> bool)
    requires Filter(s, p) != []
    ensures exists i :: 0 <= i < |s| && s[i] == Filter(s, p)[0] && p(s[i]) && forall j :: 0 <= j < i ==> !p(s[j])
  {
    if !p(s[0]) {
      FilterFirst(s[1..], p);
      var i :| 0 <= i < |s[1..]| && s[1..][i] == Filter(s, p)[0] && p(s[1..][i]) && forall j :: 0 <= j < i ==> !p(s[1..][j]);
      forall j | 0 <= j < i + 1 ensures !p(s[j]) { assert j > 0 ==> s[1..][j - 1] == s[j]; }
      assert s[i + 1] == s[1..][i];
    }
  }

  lemma DecisiveIsFirst(rs: seq<Relation>, c: Channel)
    requires c != Unspecified && Decisive(rs, c) != []
    ensures FirstRequirement(rs, c, Decisive(rs, c)[0])
  {
    FilterFirst(rs, (r: Relation) => Demands(r, c));
    var i :| 0 <= i < |rs| && rs[i] == Decisive(rs, c)[0] && Demands(rs[i], c) && forall j :: 0 <= j < i ==> !Demands(rs[j], c);
    assert Requires(rs[i], c);
  }

  lemma PossibleExactly(rs: seq<Relation>)
    requires forall r :: r in rs ==> !Open(r)
    ensures Possible(rs) == [] <==> forall r :: r in rs ==> !SpeaksFor(r)
    ensures Possible(rs) != [] && !Several(Possible(rs)) ==>
              Possible(rs)[0].channel != Unspecified && forall c :: OnlyChannel(rs, c) <==> c == Possible(rs)[0].channel
    ensures Several(Possible(rs)) <==>
            Possible(rs) != [] && exists r, s :: r in rs && s in rs && SpeaksFor(r) && SpeaksFor(s) && r.channel != s.channel
    ensures Possible(rs) == [] || Several(Possible(rs)) ==> forall c :: !OnlyChannel(rs, c)
  {
    hide Possible;
    var possible := Possible(rs);
    forall r | r in rs ensures r in possible <==> SpeaksFor(r) { assert !Open(r); }
    if possible != [] { assert possible[0] in possible; }
    if Several(possible) {
      var r :| r in possible && r.channel != possible[0].channel;
      assert SpeaksFor(r) && SpeaksFor(possible[0]);
    }
  }

  // The three outcomes of a package whose relations speak for one channel only.
  lemma SoleOutcome(rs: seq<Relation>, draft: set<Channel>, c: Channel)
    requires c != Unspecified && OnlyChannel(rs, c) && draft <= {c}
    ensures Concludes(rs, draft, if Forbidden(rs, c) then Contradicted
                                 else if Decisive(rs, c) == [] then PossibleOnly
                                 else Unique(c, Decisive(rs, c)[0]))
  {
    hide OnlyChannel, FirstRequirement, Decisive;
    if Decisive(rs, c) != [] { DecisiveIsFirst(rs, c); }
    if RequiredSomewhere(rs, c) {
      var r :| r in rs && r.scope == WholeBid && r.modality == Required && r.channel == c;
      assert Demands(r, c);
      assert r in Decisive(rs, c);
    }
  }

  // Exactly the settled packages are concluded, each with the one outcome that its relations and the draft call for.
  lemma OutcomesExactly(a: Adjudicated, o: Options)
    ensures Resolve(None, o) == UnresolvedChannel
    ensures !Settled(a, o) ==> Resolve(Some(a), o) == UnresolvedChannel
    ensures Settled(a, o) ==> Concludes(RelationsOf(a.verdicts), o.draftChannels, Resolve(Some(a), o))
  {
    hide RelationsOf, Settled, Usable, Restated, Possible, Several, Decisive, OnlyChannel, FirstRequirement, SpeaksFor, Forbidden,
         ForbiddenOutright, RequiredSomewhere;
    var rs := RelationsOf(a.verdicts);
    SettledExactly(a, o);
    if Settled(a, o) {
      PossibleExactly(rs);
      var possible := Possible(rs);
      if possible != [] && !Several(possible) && o.draftChannels <= {possible[0].channel} {
        SoleOutcome(rs, o.draftChannels, possible[0].channel);
      }
    }
  }
}
