/** Versioned facts and the text questions that reconciliation asks about them. */
module Facts {
  import opened Sorting

  datatype Effect = Add | Replace | Delete
  datatype Role = Base | Amendment
  datatype Citation = Citation(verified: bool, page: Option<int>, documentSha256: string, quote: string)

  datatype Fact = Fact(
    id: string,
    topic: string,
    factKey: Option<string>,
    value: string,
    documentSha256: string,
    role: Role,
    amendmentNumber: Option<string>,
    effect: Effect,
    citations: seq<Citation>)

  /** Every question that depends on English or on Unicode tables. The results hold for every choice.
      `authorized` may look at the whole package, as `mutationIsSourceAuthorized` does through `some`. */
  datatype TextRules = TextRules(
    localeLess: (string, string) -> bool,
    firstNumber: string -> Option<nat>,
    foldLabel: string -> string,
    lower: string -> string,
    normalize: string -> string,
    closedIdentity: Fact -> Option<string>,
    fallbackKey: Fact -> string,
    sourceKey: Fact -> Option<string>,
    signature: Fact -> string,
    slug: string -> string,
    alias: (Fact, Fact) -> bool,
    authorized: (Fact, set<Fact>) -> bool)

  const HORIZON_KEY := "derived:projection-horizon"
  const CHECKLIST_KEY := "document:security-requirements-checklist:annex"
  const MAX_SAFE_INTEGER := 9007199254740991

  /** `localeCompare` is a total order, and aliasing does not depend on the argument order. */
  ghost predicate WellBehaved(o: TextRules) {
    && (forall x :: !o.localeLess(x, x))
    && (forall x, y :: x != y ==> o.localeLess(x, y) || o.localeLess(y, x))
    && (forall x, y, z :: o.localeLess(x, y) && o.localeLess(y, z) ==> o.localeLess(x, z))
    && (forall f, g :: o.alias(f, g) == o.alias(g, f))
  }

  predicate HasVerifiedCitations(o: TextRules, f: Fact) {
    && f.citations != []
    && forall c :: c in f.citations ==>
         c.verified && c.page.Some? && c.documentSha256 == o.lower(f.documentSha256)
  }

  function CanonicalTopicKey(o: TextRules, f: Fact): string {
    match o.closedIdentity(f)
    case Some(k) => k
    case None => o.fallbackKey(f)
  }

  // ---- amendment order ----

  function RankNumber(o: TextRules, f: Fact): int {
    if f.role == Base then -1
    else match f.amendmentNumber
      case None => MAX_SAFE_INTEGER
      case Some(text) =>
        match o.firstNumber(text)
        case None => MAX_SAFE_INTEGER
        case Some(n) => n
  }

  function RankLabel(o: TextRules, f: Fact): string {
    if f.role == Base then ""
    else match f.amendmentNumber
      case None => ""
      case Some(text) => o.foldLabel(text)
  }

  predicate SameStage(o: TextRules, f: Fact, g: Fact) {
    RankNumber(o, f) == RankNumber(o, g) && RankLabel(o, f) == RankLabel(o, g)
  }

  predicate StageLess(o: TextRules, f: Fact, g: Fact) {
    || RankNumber(o, f) < RankNumber(o, g)
    || (RankNumber(o, f) == RankNumber(o, g) && o.localeLess(RankLabel(o, f), RankLabel(o, g)))
  }

  /** `compareFacts(f, g) < 0`. */
  predicate FactLess(o: TextRules, f: Fact, g: Fact) {
    || StageLess(o, f, g)
    || (SameStage(o, f, g) &&
        (|| o.localeLess(f.documentSha256, g.documentSha256)
         || (f.documentSha256 == g.documentSha256 && o.localeLess(f.id, g.id))))
  }

  function FactOrder(o: TextRules): (Fact, Fact) -> bool {
    (f, g) => FactLess(o, f, g)
  }

  ghost predicate UniqueIds(s: set<Fact>) {
    forall f, g :: f in s && g in s && f.id == g.id ==> f == g
  }

  lemma FactOrderIsStrict(o: TextRules, s: set<Fact>)
    requires WellBehaved(o) && UniqueIds(s)
    ensures StrictOrderOn(FactOrder(o), s)
  {
    var less := FactOrder(o);
    forall f, g, h | f in s && g in s && h in s && less(f, g) && less(g, h)
      ensures less(f, h)
    {
      StageLessTransitive(o, f, g, h);
    }
  }

  lemma StageLessTransitive(o: TextRules, f: Fact, g: Fact, h: Fact)
    requires WellBehaved(o)
    ensures StageLess(o, f, g) && StageLess(o, g, h) ==> StageLess(o, f, h)
    ensures StageLess(o, f, g) && SameStage(o, g, h) ==> StageLess(o, f, h)
    ensures SameStage(o, f, g) && StageLess(o, g, h) ==> StageLess(o, f, h)
    ensures SameStage(o, f, g) ==> !StageLess(o, f, g)
  {
  }
}
