// Resolving a selected part of an issued fragment to one range of a physical page (`resolveSemanticSpan`).
module SpanResolution {
  import opened Sorting
  import opened Texts
  import opened Alignment
  import opened AlignmentLocality
  import opened SpanMatching
  import opened QuoteSearch
  import opened IssuedQuotes
  import SubmissionLedger

  const SOURCE_CONTEXT_UNITS := 64

  datatype SourcePage = SourcePage(number: int, text: Text)

  // Where a fragment comes from: a converted document, or the window of a coverage unit on a page. A digest of a text is
  // represented by the text, and an empty unit identifier by None.
  datatype Provenance =
    | Converted
    | Window(unit: Option<SubmissionLedger.CandidateId>, page: int, pageText: Text, start: int, end: int, windowText: Text)

  // `hidden` are the positions that Markdown layout hides from the alignment.
  datatype SourceFragment = SourceFragment(id: string, document: string, text: Text, hidden: set<nat>, provenance: Provenance)

  datatype SourceMap = SourceMap(fragments: seq<SourceFragment>, pages: map<string, seq<SourcePage>>)

  datatype IndexedDocument = IndexedDocument(sha: string, pages: seq<SourcePage>)

  function PagesOf(m: SourceMap, document: string): seq<SourcePage> {
    if document in m.pages then m.pages[document] else []
  }

  // `pages.find(page => page.number === number)`
  function FindPage(pages: seq<SourcePage>, number: int): (p: Option<SourcePage>)
    ensures p.Some? ==>
      exists i :: 0 <= i < |pages| && pages[i] == p.value && p.value.number == number && forall j :: 0 <= j < i ==> pages[j].number != number
    ensures p == None ==> forall q :: q in pages ==> q.number != number
  {
    if pages == [] then None
    else if pages[0].number == number then Some(pages[0])
    else FindPage(pages[1..], number)
  }

  function FindDocument(documents: seq<IndexedDocument>, sha: string): (d: Option<IndexedDocument>)
    ensures d.Some? ==>
      exists i :: 0 <= i < |documents| && documents[i] == d.value && d.value.sha == sha && forall j :: 0 <= j < i ==> documents[j].sha != sha
    ensures d == None ==> forall x :: x in documents ==> x.sha != sha
  {
    if documents == [] then None
    else if documents[0].sha == sha then Some(documents[0])
    else FindDocument(documents[1..], sha)
  }

  function DocumentPage(documents: seq<IndexedDocument>, sha: string, number: int): Option<SourcePage> {
    match FindDocument(documents, sha)
    case None => None
    case Some(d) => FindPage(d.pages, number)
  }

  // ---- Windows of coverage units ----

  // `sourceOriginIntegrity`
  predicate Intact(m: SourceMap, f: SourceFragment) {
    match f.provenance
    case Converted => true
    case Window(unit, number, pageText, start, end, windowText) =>
      var page := FindPage(PagesOf(m, f.document), number);
      && page.Some? && unit.Some?
      && 0 <= start < end <= |page.value.text|
      && end - start == |f.text|
      && pageText == page.value.text
      && windowText == f.text
      && page.value.text[start..end] == f.text
  }

  function ResolveWindow(m: SourceMap, f: SourceFragment, s: nat, e: nat): Option<Resolved>
    requires f.provenance.Window? && s < e <= |f.text|
  {
    if !Intact(m, f) then None
    else
      var page := FindPage(PagesOf(m, f.document), f.provenance.page).value;
      var start, end := f.provenance.start + s, f.provenance.start + e;
      var evidence := page.text[start..end];
      if evidence == [] || |evidence| > SpanMatching.MAX_QUOTE_UTF16 || evidence != f.text[s..e] || !WellFormed(evidence) then None
      else Some(Resolved(f.id, f.document, PhysicalKey(f.document, page.number, page.text, start, end), s, e))
  }

  // ---- Selected units ----

  function Indices(n: nat): (s: seq<nat>)
    ensures |s| == n && forall k :: 0 <= k < n ==> s[k] == k
  {
    seq(n, k requires 0 <= k < n => k)
  }

  // A unit that is not blank and sticks out of the selection on one side.
  predicate Straddles(u: Unit, s: nat, e: nat) {
    u.rawStart < e && u.rawEnd > s && u.value != SPACE && (u.rawStart < s || u.rawEnd > e)
  }

  predicate Inside(u: Unit, s: nat, e: nat) { s <= u.rawStart && u.rawEnd <= e }

  function InsideAt(units: seq<Unit>, s: nat, e: nat): seq<nat> {
    Filter(Indices(|units|), (k: nat) => k < |units| && Inside(units[k], s, e))
  }

  predicate Positions(units: seq<Unit>, ks: seq<nat>) {
    forall i :: 0 <= i < |ks| ==> ks[i] < |units|
  }

  function DropBlankStart(units: seq<Unit>, ks: seq<nat>): (r: seq<nat>)
    requires Positions(units, ks)
    ensures Positions(units, r) && |r| <= |ks|
    ensures r != [] ==> units[r[0]].value != SPACE
  {
    if ks != [] && units[ks[0]].value == SPACE then DropBlankStart(units, ks[1..]) else ks
  }

  function DropBlankEnd(units: seq<Unit>, ks: seq<nat>): (r: seq<nat>)
    requires Positions(units, ks)
    ensures Positions(units, r) && |r| <= |ks|
    ensures r != [] ==> units[r[|r| - 1]].value != SPACE
  {
    if ks != [] && units[ks[|ks| - 1]].value == SPACE then DropBlankEnd(units, ks[..|ks| - 1]) else ks
  }

  // The indices of the units wholly inside the selection, without blanks at the ends.
  function SelectedAt(units: seq<Unit>, s: nat, e: nat): (r: seq<nat>)
    ensures Positions(units, r)
    ensures r != [] ==> units[r[0]].value != SPACE && units[r[|r| - 1]].value != SPACE
  {
    var inside := InsideAt(units, s, e);
    assert forall i :: 0 <= i < |inside| ==> inside[i] in inside;
    var late := DropBlankStart(units, inside);
    EndIsBlank(units, late);
    DropBlankEnd(units, late)
  }

  function ValuesAt(units: seq<Unit>, ks: seq<nat>): seq<Utf16>
    requires Positions(units, ks)
  {
    seq(|ks|, i requires 0 <= i < |ks| => units[ks[i]].value)
  }

  // ---- Places on the pages ----

  // The places of one page, as `PageCandidates` lists them.
  function PlacesOf(page: Text, selected: seq<Utf16>): seq<nat> {
    Filter(Indices(|Align(page, {})|), (k: nat) => Place(Align(page, {}), selected, k))
  }

  datatype Site = Site(page: nat, at: nat)

  function SitesOn(q: nat, places: seq<nat>): seq<Site> {
    seq(|places|, i requires 0 <= i < |places| => Site(q, places[i]))
  }

  function Sites(pages: seq<SourcePage>, selected: seq<Utf16>): seq<Site> {
    if pages == [] then []
    else
      var front := pages[..|pages| - 1];
      Sites(front, selected) + SitesOn(|front|, PlacesOf(pages[|front|].text, selected))
  }

  function Max0(a: int): nat { if a < 0 then 0 else a }

  function AtMost(a: nat, b: nat): nat { if a < b then a else b }

  function LeftContext(units: seq<Unit>, first: nat): seq<Unit>
    requires first < |units|
  {
    units[Max0(first - SOURCE_CONTEXT_UNITS)..first]
  }

  function RightContext(units: seq<Unit>, last: nat): seq<Unit>
    requires last < |units|
  {
    units[last + 1..AtMost(|units|, last + 1 + SOURCE_CONTEXT_UNITS)]
  }

  // The units around a place are those around the selection.
  predicate AgreesAround(units: seq<Unit>, at: nat, length: nat, left: seq<Unit>, right: seq<Unit>) {
    && (left != [] ==> |left| <= at <= |units| && AlignmentLocality.Values(units[at - |left|..at]) == AlignmentLocality.Values(left))
    && (right != [] ==>
          at + length + |right| <= |units| && AlignmentLocality.Values(units[at + length..at + length + |right|]) == AlignmentLocality.Values(right))
  }

  function Survivors(pages: seq<SourcePage>, sites: seq<Site>, length: nat, left: seq<Unit>, right: seq<Unit>): seq<Site> {
    if |sites| <= 1 then sites
    else if left == [] && right == [] then []
    else Filter(sites, (x: Site) => x.page < |pages| && AgreesAround(Align(pages[x.page].text, {}), x.at, length, left, right))
  }

  function SurvivingSites(m: SourceMap, f: SourceFragment, s: nat, e: nat): seq<Site> {
    var units := Align(f.text, f.hidden);
    var selected := SelectedAt(units, s, e);
    if (exists u :: u in units && Straddles(u, s, e)) || selected == [] then []
    else
      var pages := PagesOf(m, f.document);
      Survivors(pages, Sites(pages, ValuesAt(units, selected)), |selected|,
                LeftContext(units, selected[0]), RightContext(units, selected[|selected| - 1]))
  }

  // The range of a place, confirmed by the page of the document.
  function ResolveSite(
      m: SourceMap, documents: seq<IndexedDocument>, f: SourceFragment, s: nat, e: nat, x: Site, length: nat): Option<Resolved>
    requires 0 < length
  {
    var pages := PagesOf(m, f.document);
    if x.page >= |pages| || x.at + length > |Align(pages[x.page].text, {})| then None
    else
      var page := pages[x.page];
      var units := Align(page.text, {});
      var start, end := units[x.at].rawStart, units[x.at + length - 1].rawEnd;
      var found := DocumentPage(documents, f.document, page.number);
      if found == None || start < 0 || end <= start || end > |found.value.text| || end > |page.text| ||
         found.value.text[start..end] != page.text[start..end] then None
      else Some(Resolved(f.id, f.document, PhysicalKey(f.document, page.number, found.value.text, start, end), s, e))
  }

  function ResolveConverted(
      m: SourceMap, documents: seq<IndexedDocument>, f: SourceFragment, s: nat, e: nat): Option<Resolved>
  {
    var survivors := SurvivingSites(m, f, s, e);
    var length := |SelectedAt(Align(f.text, f.hidden), s, e)|;
    if |survivors| != 1 || length == 0 then None
    else ResolveSite(m, documents, f, s, e, survivors[0], length)
  }

  function ResolveIn(m: SourceMap, documents: seq<IndexedDocument>, f: SourceFragment, selector: Selector): Option<Resolved> {
    var s, e := selector.start, selector.start + selector.length;
    if selector.length < 1 || selector.length > SpanMatching.MAX_QUOTE_UTF16 || e > |f.text| then None
    else if f.provenance.Window? then ResolveWindow(m, f, s, e)
    else ResolveConverted(m, documents, f, s, e)
  }

  // ---- The loops ----

  lemma IncreasingAscends(s: seq<nat>)
    requires Increasing(s)
    ensures Ascending(s, (a: nat, b: nat) => a < b)
  {
  }

  lemma {:induction false} FilterIncreasing(s: seq<nat>, p: nat -> bool)
    requires Increasing(s)
    ensures Increasing(Filter(s, p))
  {
    if s != [] {
      assert Increasing(s[1..]);
      FilterIncreasing(s[1..], p);
      var rest := Filter(s[1..], p);
      forall k | 0 <= k < |rest| ensures s[0] < rest[k] {
        assert rest[k] in rest;
        var j :| 0 <= j < |s[1..]| && s[1..][j] == rest[k];
      }
    }
  }

  lemma SameIncreasing(s: seq<nat>, t: seq<nat>)
    requires Increasing(s) && Increasing(t) && forall k: nat :: k in s <==> k in t
    ensures s == t
  {
    var less := (a: nat, b: nat) => a < b;
    IncreasingAscends(s);
    IncreasingAscends(t);
    assert Elements(s) == Elements(t);
    AscendingUnique(s, t, less);
  }

  lemma PlaceBound(units: seq<Unit>, selected: seq<Utf16>, k: nat)
    requires Place(units, selected, k)
    ensures k < |units| && k + |selected| <= |units|
  {
  }

  lemma PlacesOfExact(page: Text, selected: seq<Utf16>)
    ensures Increasing(PlacesOf(page, selected))
    ensures forall k: nat :: k in PlacesOf(page, selected) <==> Place(Align(page, {}), selected, k)
  {
    hide Align, Place;
    var units := Align(page, {});
    FilterIncreasing(Indices(|units|), (k: nat) => Place(units, selected, k));
    forall k: nat ensures k in PlacesOf(page, selected) <==> Place(units, selected, k) {
      if Place(units, selected, k) {
        PlaceBound(units, selected, k);
        assert Indices(|units|)[k] == k;
      }
    }
  }

  method CollectSites(pages: seq<SourcePage>, selected: seq<Utf16>) returns (sites: seq<Site>)
    requires selected != [] && selected[0] != SPACE && selected[|selected| - 1] != SPACE
    ensures sites == Sites(pages, selected)
  {
    hide Align, Place, PlacesOf;
    sites := [];
    for q := 0 to |pages|
      invariant sites == Sites(pages[..q], selected)
    {
      var places := PageCandidates(pages[q].text, selected);
      PlacesOfExact(pages[q].text, selected);
      SameIncreasing(places, PlacesOf(pages[q].text, selected));
      assert pages[..q + 1][..q] == pages[..q];
      sites := sites + SitesOn(q, places);
    }
    assert pages[..|pages|] == pages;
  }

  // `sourceMap.fragments.get(id)`
  function FindFragment(fragments: seq<SourceFragment>, id: string): (f: Option<SourceFragment>)
    ensures f.Some? ==> f.value in fragments && f.value.id == id
    ensures f == None ==> forall g :: g in fragments ==> g.id != id
  {
    if fragments == [] then None
    else if fragments[0].id == id then Some(fragments[0])
    else FindFragment(fragments[1..], id)
  }

  function Resolve(m: SourceMap, documents: seq<IndexedDocument>, id: string, selector: Selector): Option<Resolved> {
    match FindFragment(m.fragments, id)
    case None => None
    case Some(f) => ResolveIn(m, documents, f, selector)
  }

  method ResolveSemanticSpan(m: SourceMap, documents: seq<IndexedDocument>, id: string, selector: Selector)
    returns (r: Option<Resolved>)
    ensures r == Resolve(m, documents, id, selector)
  {
    hide ResolveWindow, ResolveConverted, FindFragment;
    var found := FindFragment(m.fragments, id);
    if found == None { return None; }
    var f := found.value;
    var s, e := selector.start, selector.start + selector.length;
    if selector.length < 1 || selector.length > SpanMatching.MAX_QUOTE_UTF16 || e > |f.text| { return None; }
    if f.provenance.Window? { return ResolveWindow(m, f, s, e); }
    r := ResolveConvertedSpan(m, documents, f, s, e);
  }

  method ResolveConvertedSpan(m: SourceMap, documents: seq<IndexedDocument>, f: SourceFragment, s: nat, e: nat)
    returns (r: Option<Resolved>)
    ensures r == ResolveConverted(m, documents, f, s, e)
  {
    hide Align, SelectedAt, Sites, Survivors, ResolveSite, ValuesAt;
    var units := AlignmentUnits(f.text, f.hidden);
    if exists u :: u in units && Straddles(u, s, e) { return None; }
    var selected := SelectedAt(units, s, e);
    if selected == [] { return None; }
    var pages := PagesOf(m, f.document);
    var values := ValuesAt(units, selected);
    SelectedEnds(units, selected);
    var sites := CollectSites(pages, values);
    var survivors := Survivors(pages, sites, |selected|,
                               LeftContext(units, selected[0]), RightContext(units, selected[|selected| - 1]));
    if |survivors| != 1 { return None; }
    r := ResolveSite(m, documents, f, s, e, survivors[0], |selected|);
  }

  lemma SelectedEnds(units: seq<Unit>, selected: seq<nat>)
    requires Positions(units, selected) && selected != []
    requires units[selected[0]].value != SPACE && units[selected[|selected| - 1]].value != SPACE
    ensures
      var values := ValuesAt(units, selected);
      values != [] && values[0] != SPACE && values[|values| - 1] != SPACE
  {
  }

  // ---- What a resolved span says ----

  // The window of a coverage unit is intact: the first page of that number in the map has the text that the unit was cut
  // from, and the fragment is its range.
  lemma IntactExactly(m: SourceMap, f: SourceFragment)
    ensures Intact(m, f) <==>
      match f.provenance
      case Converted => true
      case Window(unit, number, pageText, start, end, windowText) =>
        && unit != None && windowText == f.text
        && 0 <= start < end <= |pageText| && pageText[start..end] == f.text
        && f.document in m.pages && FirstPageIs(m.pages[f.document], number, pageText)
  {
    if f.provenance.Window? && f.document in m.pages {
      var pages, number := m.pages[f.document], f.provenance.page;
      forall text ensures FirstPageIs(pages, number, text) <==> FindPage(pages, number).Some? && FindPage(pages, number).value.text == text {
        FirstPageExactly(pages, number, text);
      }
    }
  }

  ghost predicate FirstPageIs(pages: seq<SourcePage>, number: int, text: Text) {
    exists i :: 0 <= i < |pages| && pages[i].number == number && pages[i].text == text && forall j :: 0 <= j < i ==> pages[j].number != number
  }

  lemma FirstPageExactly(pages: seq<SourcePage>, number: int, text: Text)
    ensures FirstPageIs(pages, number, text) <==> FindPage(pages, number).Some? && FindPage(pages, number).value.text == text
  {
    hide FindPage;
    var found := FindPage(pages, number);
    if i :| 0 <= i < |pages| && pages[i].number == number && pages[i].text == text && forall j :: 0 <= j < i ==> pages[j].number != number {
      assert pages[i] in pages;
      var k :| 0 <= k < |pages| && pages[k] == found.value && found.value.number == number && forall j :: 0 <= j < k ==> pages[j].number != number;
      assert k == i;
    }
  }

  // A selection in the window of a coverage unit resolves exactly when the window is intact, the selection is in bounds
  // and no surrogate pair is split; its range on the page is the selection moved by the start of the window.
  lemma WindowResolvesExactly(m: SourceMap, documents: seq<IndexedDocument>, f: SourceFragment, selector: Selector)
    requires f.provenance.Window?
    ensures
      var s, e, w, r := selector.start, selector.start + selector.length, f.provenance, ResolveIn(m, documents, f, selector);
      && (r.Some? <==> Intact(m, f) && 1 <= selector.length <= 500 && e <= |f.text| && WellFormed(f.text[s..e]))
      && (r.Some? ==>
            && r.value == Resolved(f.id, f.document, PhysicalKey(f.document, w.page, w.pageText, w.start + s, w.start + e), s, e)
            && w.start + e <= |w.pageText| && w.pageText[w.start + s..w.start + e] == f.text[s..e])
  {
    hide WellFormed;
    var s, e, w := selector.start, selector.start + selector.length, f.provenance;
    if Intact(m, f) && 1 <= selector.length && e <= |f.text| {
      SliceOfSlice(w.pageText, w.start, w.end, s, e);
    }
  }

  lemma {:induction false} SitesExact(pages: seq<SourcePage>, selected: seq<Utf16>)
    ensures forall x :: x in Sites(pages, selected) <==>
              x.page < |pages| && Place(Align(pages[x.page].text, {}), selected, x.at)
    ensures Distinct(Sites(pages, selected))
  {
    hide Align, Place, PlacesOf;
    if pages != [] {
      var front, last := pages[..|pages| - 1], pages[|pages| - 1];
      SitesExact(front, selected);
      PlacesOfExact(last.text, selected);
      var places := PlacesOf(last.text, selected);
      var own := SitesOn(|front|, places);
      forall x ensures x in own <==> x.page == |front| && x.at in places {
        if x.page == |front| && x.at in places {
          var i :| 0 <= i < |places| && places[i] == x.at;
          assert own[i] == x;
        }
      }
      var all := Sites(pages, selected);
      forall i, j | 0 <= i < j < |all| ensures all[i] != all[j] {
        var n := |Sites(front, selected)|;
        if i < n { assert all[i] in Sites(front, selected); }
        if j >= n { assert all[j] == own[j - n]; }
      }
    }
  }

  // A unit wholly inside the selection that is not blank.
  ghost predicate PrintedInside(units: seq<Unit>, s: nat, e: nat, k: int) {
    0 <= k < |units| && s <= units[k].rawStart && units[k].rawEnd <= e && units[k].value != SPACE
  }

  // A clean selection: every unit that is not blank lies inside or outside of it, and one lies inside.
  ghost predicate Clean(f: SourceFragment, s: nat, e: nat) {
    var units := Align(f.text, f.hidden);
    && (forall u :: u in units && u.value != SPACE ==> u.rawEnd <= s || e <= u.rawStart || (s <= u.rawStart && u.rawEnd <= e))
    && exists k :: PrintedInside(units, s, e, k)
  }

  // The place `k` lies between two printed units inside the selection, or is one.
  ghost predicate AmongPrinted(units: seq<Unit>, s: nat, e: nat, k: int) {
    exists i, j :: i <= k <= j && PrintedInside(units, s, e, i) && PrintedInside(units, s, e, j)
  }

  lemma {:induction false} StartIsBlank(units: seq<Unit>, ks: seq<nat>)
    requires Positions(units, ks)
    ensures
      var r := DropBlankStart(units, ks);
      r == ks[|ks| - |r|..] && forall i :: 0 <= i < |ks| - |r| ==> units[ks[i]].value == SPACE
  {
    if ks != [] && units[ks[0]].value == SPACE {
      StartIsBlank(units, ks[1..]);
      forall i | 1 <= i < |ks| ensures ks[i] == ks[1..][i - 1] { }
    }
  }

  lemma {:induction false} EndIsBlank(units: seq<Unit>, ks: seq<nat>)
    requires Positions(units, ks)
    ensures
      var r := DropBlankEnd(units, ks);
      r == ks[..|r|] && forall i :: |r| <= i < |ks| ==> units[ks[i]].value == SPACE
  {
    if ks != [] && units[ks[|ks| - 1]].value == SPACE { EndIsBlank(units, ks[..|ks| - 1]); }
  }

  // Dropping blanks at both ends leaves the part from `d` to `z`.
  lemma WithoutBlanks(units: seq<Unit>, ks: seq<nat>) returns (d: nat, z: nat)
    requires Positions(units, ks)
    ensures d <= z <= |ks| && DropBlankEnd(units, DropBlankStart(units, ks)) == ks[d..z]
    ensures forall i :: 0 <= i < d || z <= i < |ks| ==> units[ks[i]].value == SPACE
    ensures d < z ==> units[ks[d]].value != SPACE && units[ks[z - 1]].value != SPACE
  {
    hide DropBlankStart, DropBlankEnd;
    var late := DropBlankStart(units, ks);
    var r := DropBlankEnd(units, late);
    StartIsBlank(units, ks);
    EndIsBlank(units, late);
    d := |ks| - |late|;
    z := d + |r|;
    assert r == ks[d..z];
    forall i | z <= i < |ks| ensures units[ks[i]].value == SPACE { assert late[i - d] == ks[i]; }
    assert d < z ==> late[0] == ks[d];
  }

  // The selected units are those wholly inside the selection, from the first printed one to the last.
  lemma SelectedExactly(units: seq<Unit>, s: nat, e: nat)
    ensures Increasing(SelectedAt(units, s, e))
    ensures forall k: nat :: k in SelectedAt(units, s, e) <==>
      k < |units| && s <= units[k].rawStart && units[k].rawEnd <= e && AmongPrinted(units, s, e, k)
  {
    hide AmongPrinted, DropBlankStart, DropBlankEnd, Increasing, InsideAt;
    var inside := InsideAt(units, s, e);
    InsideExactly(units, s, e);
    assert forall i :: 0 <= i < |inside| ==> inside[i] in inside;
    var d, z := WithoutBlanks(units, inside);
    IncreasingSlice(inside, d, z);
    forall k: nat ensures k in SelectedAt(units, s, e) <==> k in inside && AmongPrinted(units, s, e, k) {
      TrimmedExactly(units, s, e, inside, d, z - d, k);
    }
  }

  lemma IncreasingSlice(ks: seq<nat>, a: nat, b: nat)
    requires Increasing(ks) && a <= b <= |ks|
    ensures Increasing(ks[a..b])
  {
  }

  lemma InsideExactly(units: seq<Unit>, s: nat, e: nat)
    ensures Increasing(InsideAt(units, s, e))
    ensures forall k: nat :: k in InsideAt(units, s, e) <==> k < |units| && s <= units[k].rawStart && units[k].rawEnd <= e
  {
    FilterIncreasing(Indices(|units|), (k: nat) => k < |units| && Inside(units[k], s, e));
    forall k: nat ensures k in InsideAt(units, s, e) <==> k < |units| && s <= units[k].rawStart && units[k].rawEnd <= e {
      if k < |units| { assert Indices(|units|)[k] == k; }
    }
  }

  // A stretch of the units inside that is printed at both ends and outside of which they are blank.
  lemma TrimmedExactly(units: seq<Unit>, s: nat, e: nat, inside: seq<nat>, d: nat, n: nat, k: nat)
    requires Positions(units, inside) && Increasing(inside) && d + n <= |inside|
    requires forall i: nat :: i in inside <==> i < |units| && s <= units[i].rawStart && units[i].rawEnd <= e
    requires forall i :: 0 <= i < d || d + n <= i < |inside| ==> units[inside[i]].value == SPACE
    requires n > 0 ==> units[inside[d]].value != SPACE && units[inside[d + n - 1]].value != SPACE
    ensures k in inside[d..d + n] <==> k in inside && AmongPrinted(units, s, e, k)
  {
    hide Increasing;
    var selected := inside[d..d + n];
    if k in selected {
      var q :| 0 <= q < n && selected[q] == k;
      assert inside[d + q] == k && inside[d] in inside && inside[d + n - 1] in inside;
      IncreasingEnds(inside, d, d + q, d + n - 1);
      assert PrintedInside(units, s, e, inside[d]) && PrintedInside(units, s, e, inside[d + n - 1]);
    }
    if k in inside && AmongPrinted(units, s, e, k) {
      var i, j :| i <= k <= j && PrintedInside(units, s, e, i) && PrintedInside(units, s, e, j);
      BetweenPrinted(inside, d, n, k, i, j);
    }
  }

  lemma IncreasingEnds(ks: seq<nat>, a: nat, b: nat, c: nat)
    requires Increasing(ks) && a <= b <= c < |ks|
    ensures ks[a] <= ks[b] <= ks[c]
  {
  }

  lemma BetweenPrinted(inside: seq<nat>, d: nat, n: nat, k: nat, i: nat, j: nat)
    requires Increasing(inside) && d + n <= |inside| && k in inside && i in inside && j in inside && i <= k <= j
    requires forall a :: 0 <= a < d || d + n <= a < |inside| ==> inside[a] != i && inside[a] != j
    ensures k in inside[d..d + n]
  {
    var q :| 0 <= q < |inside| && inside[q] == k;
    var a :| 0 <= a < |inside| && inside[a] == i;
    var b :| 0 <= b < |inside| && inside[b] == j;
    assert d <= a <= q <= b < d + n;
    assert inside[d..d + n][q - d] == k;
  }

  lemma CleanExactly(f: SourceFragment, s: nat, e: nat)
    ensures
      var units := Align(f.text, f.hidden);
      Clean(f, s, e) <==> (forall u :: u in units ==> !Straddles(u, s, e)) && SelectedAt(units, s, e) != []
  {
    hide Align, SelectedAt, PrintedInside;
    var units := Align(f.text, f.hidden);
    SelectedExactly(units, s, e);
    var selected := SelectedAt(units, s, e);
    if selected != [] {
      assert selected[0] in selected;
      assert AmongPrinted(units, s, e, selected[0]);
    }
    if k :| PrintedInside(units, s, e, k) {
      InsideIfPrinted(units, s, e, k);
      assert AmongPrinted(units, s, e, k);
      assert k in selected;
    }
  }

  lemma InsideIfPrinted(units: seq<Unit>, s: nat, e: nat, k: int)
    requires PrintedInside(units, s, e, k)
    ensures 0 <= k < |units| && s <= units[k].rawStart && units[k].rawEnd <= e
  {
  }

  ghost function SelectedValues(f: SourceFragment, s: nat, e: nat): seq<Utf16> {
    var units := Align(f.text, f.hidden);
    ValuesAt(units, SelectedAt(units, s, e))
  }

  // A page has the selected values at this place.
  ghost predicate SiteOf(m: SourceMap, f: SourceFragment, s: nat, e: nat, x: Site) {
    var pages := PagesOf(m, f.document);
    x.page < |pages| && Place(Align(pages[x.page].text, {}), SelectedValues(f, s, e), x.at)
  }

  // There is context, and the place has the same: up to 64 units before the selected ones, and up to 64 after them.
  ghost predicate InContext(m: SourceMap, f: SourceFragment, s: nat, e: nat, x: Site)
    requires x.page < |PagesOf(m, f.document)|
  {
    var units := Align(f.text, f.hidden);
    var selected := SelectedAt(units, s, e);
    selected != [] && SameAround(units, selected[0], selected[|selected| - 1], Align(PagesOf(m, f.document)[x.page].text, {}), x.at,
                                 x.at + |selected|)
  }

  // The `k`-th unit before the selected ones has the value of the `k`-th before the place.
  ghost predicate SameBefore(units: seq<Unit>, first: nat, page: seq<Unit>, at: nat, k: int) {
    0 < k <= first <= |units| && k <= at <= |page| && page[at - k].value == units[first - k].value
  }

  // The `k`-th unit after the selected ones has the value of the `k`-th after the place, which ends before `end`.
  ghost predicate SameAfter(units: seq<Unit>, last: nat, page: seq<Unit>, end: nat, k: int) {
    0 < k && last + k < |units| && end + k - 1 < |page| && page[end + k - 1].value == units[last + k].value
  }

  // There are units around `first..last`, and up to 64 of them on either side agree with those around the place.
  ghost predicate SameAround(units: seq<Unit>, first: nat, last: nat, page: seq<Unit>, at: nat, end: nat) {
    && (first > 0 || last + 1 < |units|)
    && (forall k :: 1 <= k <= 64 && k <= first ==> SameBefore(units, first, page, at, k))
    && (forall k :: 1 <= k <= 64 && last + k < |units| ==> SameAfter(units, last, page, end, k))
  }

  // The place is the only one, or one of several and in context.
  ghost predicate Survives(m: SourceMap, f: SourceFragment, s: nat, e: nat, x: Site) {
    && Clean(f, s, e) && SiteOf(m, f, s, e, x)
    && ((exists y :: SiteOf(m, f, s, e, y) && y != x) ==> InContext(m, f, s, e, x))
  }

  lemma SeveralSites(sites: seq<Site>, x: Site)
    requires Distinct(sites) && x in sites
    ensures |sites| > 1 <==> exists y :: y in sites && y != x
  {
    if |sites| > 1 {
      var y := if sites[0] == x then sites[1] else sites[0];
      assert y in sites && y != x;
    }
  }

  lemma SurvivorsExact(m: SourceMap, f: SourceFragment, s: nat, e: nat)
    ensures forall x :: x in SurvivingSites(m, f, s, e) <==> Survives(m, f, s, e, x)
    ensures Distinct(SurvivingSites(m, f, s, e))
  {
    hide Align, Place, Sites, SelectedAt, AgreesAround, Straddles, LeftContext, RightContext, Survivors, InContext, SiteOf, Clean;
    CleanExactly(f, s, e);
    if Clean(f, s, e) {
      var pages, values := PagesOf(m, f.document), SelectedValues(f, s, e);
      var units := Align(f.text, f.hidden);
      var selected := SelectedAt(units, s, e);
      var sites := Sites(pages, values);
      SitesExact(pages, values);
      forall x ensures x in sites <==> SiteOf(m, f, s, e, x) { SiteMeans(m, f, s, e, x); }
      var left, right := LeftContext(units, selected[0]), RightContext(units, selected[|selected| - 1]);
      ContextFilter(pages, sites, |selected|, left, right);
      forall x | x in sites ensures |sites| > 1 <==> exists y :: SiteOf(m, f, s, e, y) && y != x { SeveralSites(sites, x); }
      forall x | x in sites
        ensures x.page < |pages|
        ensures InContext(m, f, s, e, x) <==>
                (left != [] || right != []) && AgreesAround(Align(pages[x.page].text, {}), x.at, |selected|, left, right)
      {
        SiteMeans(m, f, s, e, x);
        ContextMeans(m, f, s, e, x);
      }
    }
  }

  lemma SiteMeans(m: SourceMap, f: SourceFragment, s: nat, e: nat, x: Site)
    ensures
      var pages := PagesOf(m, f.document);
      SiteOf(m, f, s, e, x) <==> x.page < |pages| && Place(Align(pages[x.page].text, {}), SelectedValues(f, s, e), x.at)
  {
  }

  lemma LeftAgrees(units: seq<Unit>, first: nat, page: seq<Unit>, at: nat)
    requires first < |units|
    ensures
      var left := LeftContext(units, first);
      && (left == [] <==> first == 0)
      && ((left != [] ==> |left| <= at <= |page| && AlignmentLocality.Values(page[at - |left|..at]) == AlignmentLocality.Values(left)) <==>
          forall k :: 1 <= k <= 64 && k <= first ==> SameBefore(units, first, page, at, k))
  {
    var left := LeftContext(units, first);
    var n := |left|;
    if n <= at <= |page| {
      var own := page[at - n..at];
      ValuesAgree(own, left);
      forall k | 1 <= k <= n ensures SameBefore(units, first, page, at, k) <==> own[n - k].value == left[n - k].value { }
      forall i | 0 <= i < n ensures own[i].value == left[i].value <==> SameBefore(units, first, page, at, n - i) { }
    } else if n > 0 {
      assert 1 <= n <= 64 && n <= first && !SameBefore(units, first, page, at, n);
    }
  }

  lemma RightAgrees(units: seq<Unit>, last: nat, page: seq<Unit>, end: nat)
    requires last < |units|
    ensures
      var right := RightContext(units, last);
      && (right == [] <==> last + 1 == |units|)
      && ((right != [] ==> end + |right| <= |page| && AlignmentLocality.Values(page[end..end + |right|]) == AlignmentLocality.Values(right)) <==>
          forall k :: 1 <= k <= 64 && last + k < |units| ==> SameAfter(units, last, page, end, k))
  {
    var right := RightContext(units, last);
    var n := |right|;
    if end + n <= |page| {
      var own := page[end..end + n];
      ValuesAgree(own, right);
      forall k | 1 <= k <= n ensures SameAfter(units, last, page, end, k) <==> own[k - 1].value == right[k - 1].value { }
      forall i | 0 <= i < n ensures own[i].value == right[i].value <==> SameAfter(units, last, page, end, i + 1) { }
    } else if n > 0 {
      assert !SameAfter(units, last, page, end, n);
    }
  }

  lemma ValuesAgree(a: seq<Unit>, b: seq<Unit>)
    requires |a| == |b|
    ensures AlignmentLocality.Values(a) == AlignmentLocality.Values(b) <==> forall i :: 0 <= i < |a| ==> a[i].value == b[i].value
  {
    if AlignmentLocality.Values(a) == AlignmentLocality.Values(b) {
      forall i | 0 <= i < |a| ensures a[i].value == b[i].value {
        assert AlignmentLocality.Values(a)[i] == AlignmentLocality.Values(b)[i];
      }
    }
  }

  lemma AroundExactly(units: seq<Unit>, first: nat, last: nat, page: seq<Unit>, at: nat, length: nat)
    requires first < |units| && last < |units| && length > 0 && at + length <= |page|
    ensures
      var left, right := LeftContext(units, first), RightContext(units, last);
      SameAround(units, first, last, page, at, at + length) <==>
      (left != [] || right != []) && AgreesAround(page, at, length, left, right)
  {
    hide LeftContext, RightContext;
    LeftAgrees(units, first, page, at);
    RightAgrees(units, last, page, at + length);
  }

  lemma ContextMeans(m: SourceMap, f: SourceFragment, s: nat, e: nat, x: Site)
    requires Clean(f, s, e) && SiteOf(m, f, s, e, x)
    ensures
      var units := Align(f.text, f.hidden);
      var selected := SelectedAt(units, s, e);
      && selected != []
      && var left, right := LeftContext(units, selected[0]), RightContext(units, selected[|selected| - 1]);
         InContext(m, f, s, e, x) <==>
         (left != [] || right != []) && AgreesAround(Align(PagesOf(m, f.document)[x.page].text, {}), x.at, |selected|, left, right)
  {
    hide Align, SelectedAt, LeftContext, RightContext, AgreesAround, SameAround, Clean;
    CleanExactly(f, s, e);
    var units := Align(f.text, f.hidden);
    var selected := SelectedAt(units, s, e);
    var page := Align(PagesOf(m, f.document)[x.page].text, {});
    PlaceBound(page, SelectedValues(f, s, e), x.at);
    AroundExactly(units, selected[0], selected[|selected| - 1], page, x.at, |selected|);
  }

  lemma ContextFilter(pages: seq<SourcePage>, sites: seq<Site>, length: nat, left: seq<Unit>, right: seq<Unit>)
    requires Distinct(sites) && forall x :: x in sites ==> x.page < |pages|
    ensures Distinct(Survivors(pages, sites, length, left, right))
    ensures forall x :: x in Survivors(pages, sites, length, left, right) <==>
              && x in sites && x.page < |pages|
              && (|sites| > 1 ==>
                    (left != [] || right != []) && AgreesAround(Align(pages[x.page].text, {}), x.at, length, left, right))
  {
    hide Align, AgreesAround;
    FilterDistinct(sites, (x: Site) => x.page < |pages| && AgreesAround(Align(pages[x.page].text, {}), x.at, length, left, right));
  }

  // The page of the document has the range that was found on the page of the map.
  ghost predicate Confirmed(m: SourceMap, documents: seq<IndexedDocument>, f: SourceFragment, s: nat, e: nat, x: Site)
    requires SiteOf(m, f, s, e, x) && Clean(f, s, e)
  {
    var page := PagesOf(m, f.document)[x.page];
    var start, end := SiteStart(m, f, s, e, x), SiteEnd(m, f, s, e, x);
    var found := DocumentPage(documents, f.document, page.number);
    && found.Some? && 0 <= start < end <= |page.text| && end <= |found.value.text|
    && found.value.text[start..end] == page.text[start..end]
  }

  ghost function SiteStart(m: SourceMap, f: SourceFragment, s: nat, e: nat, x: Site): int
    requires SiteOf(m, f, s, e, x) && Clean(f, s, e)
  {
    Align(PagesOf(m, f.document)[x.page].text, {})[x.at].rawStart
  }

  ghost function SiteEnd(m: SourceMap, f: SourceFragment, s: nat, e: nat, x: Site): int
    requires SiteOf(m, f, s, e, x) && Clean(f, s, e)
  {
    Align(PagesOf(m, f.document)[x.page].text, {})[x.at + |SelectedValues(f, s, e)| - 1].rawEnd
  }

  lemma OneElement(sites: seq<Site>, x: Site)
    requires Distinct(sites) && x in sites
    ensures |sites| == 1 <==> forall y :: y in sites ==> y == x
  {
    if |sites| > 1 { assert sites[0] in sites && sites[1] in sites; }
  }

  // The only place that survives.
  ghost predicate OnlySurvivor(m: SourceMap, f: SourceFragment, s: nat, e: nat, x: Site) {
    Survives(m, f, s, e, x) && forall y :: Survives(m, f, s, e, y) ==> y == x
  }

  lemma OnlySurvivorExact(m: SourceMap, f: SourceFragment, s: nat, e: nat, x: Site)
    ensures OnlySurvivor(m, f, s, e, x) <==> SurvivingSites(m, f, s, e) == [x]
  {
    hide SurvivingSites, Survives;
    SurvivorsExact(m, f, s, e);
    var survivors := SurvivingSites(m, f, s, e);
    if OnlySurvivor(m, f, s, e, x) {
      OneElement(survivors, x);
      assert survivors[0] in survivors;
    }
    if survivors == [x] { assert x in survivors; }
  }

  // A selection in a converted document resolves exactly when it is clean, one place survives, and the document confirms
  // it; the span is that place.
  lemma ConvertedResolvesExactly(m: SourceMap, documents: seq<IndexedDocument>, f: SourceFragment, s: nat, e: nat)
    ensures
      var r := ResolveConverted(m, documents, f, s, e);
      && (r.Some? <==> exists x :: OnlySurvivor(m, f, s, e, x) && Confirmed(m, documents, f, s, e, x))
      && (r.Some? ==> exists x ::
            && OnlySurvivor(m, f, s, e, x) && Confirmed(m, documents, f, s, e, x)
            && r.value.key.start == SiteStart(m, f, s, e, x) && r.value.key.end == SiteEnd(m, f, s, e, x)
            && r.value.key.page == PagesOf(m, f.document)[x.page].number)
  {
    hide Align, Place, SurvivingSites, Survives, SelectedAt, Confirmed, SiteStart, SiteEnd, ResolveSite;
    var survivors := SurvivingSites(m, f, s, e);
    forall x ensures OnlySurvivor(m, f, s, e, x) <==> survivors == [x] { OnlySurvivorExact(m, f, s, e, x); }
    if |survivors| == 1 {
      assert survivors == [survivors[0]];
      SurvivorResolves(m, documents, f, s, e, survivors[0]);
    }
  }

  lemma SurvivorResolves(m: SourceMap, documents: seq<IndexedDocument>, f: SourceFragment, s: nat, e: nat, x: Site)
    requires Survives(m, f, s, e, x)
    ensures |SelectedAt(Align(f.text, f.hidden), s, e)| > 0
    ensures
      var r := ResolveSite(m, documents, f, s, e, x, |SelectedAt(Align(f.text, f.hidden), s, e)|);
      && SiteOf(m, f, s, e, x) && Clean(f, s, e)
      && (r.Some? <==> Confirmed(m, documents, f, s, e, x))
      && (r.Some? ==>
            && r.value.key.start == SiteStart(m, f, s, e, x) && r.value.key.end == SiteEnd(m, f, s, e, x)
            && r.value.key.page == PagesOf(m, f.document)[x.page].number)
  {
    hide Align, SelectedAt;
    PlaceBound(Align(PagesOf(m, f.document)[x.page].text, {}), SelectedValues(f, s, e), x.at);
  }

  lemma PlaceAligns(page: Text, selected: seq<Utf16>, at: nat)
    requires Place(Align(page, {}), selected, at)
    requires selected[0] != SPACE && selected[|selected| - 1] != SPACE
    ensures
      var units := Align(page, {});
      && at + |selected| <= |units|
      && var s, e := units[at].rawStart, units[at + |selected| - 1].rawEnd;
         && 0 <= s < e <= |page| && e - s <= 500
         && AlignmentLocality.Values(Align(page[s..e], {})) == selected
  {
    hide Align, Guarded;
    var units, last := Align(page, {}), at + |selected| - 1;
    EndsMatch(units, selected, at);
    LocalAlignment(page, at, last);
    assert units[at..last + 1] == units[at..at + |selected|];
  }

  // A span that is returned has 1 to 500 units and lies in the page text. In the window of a coverage unit that text is
  // the selection itself; otherwise it normalizes to the selected units.
  lemma ResolvedText(m: SourceMap, documents: seq<IndexedDocument>, f: SourceFragment, selector: Selector)
    requires ResolveIn(m, documents, f, selector).Some?
    ensures
      var r, s, e := ResolveIn(m, documents, f, selector).value, selector.start, selector.start + selector.length;
      && r.fragmentId == f.id && r.document == f.document == r.key.document
      && r.key.start < r.key.end <= |r.key.pageText| && r.key.end - r.key.start <= 500
      && e <= |f.text|
      && var text := r.key.pageText[r.key.start..r.key.end];
         if f.provenance.Window? then text == f.text[s..e]
         else AlignmentLocality.Values(Align(text, {})) == SelectedValues(f, s, e)
  {
    hide Align, Place, SurvivingSites, Survives, SelectedAt, ResolveWindow, ResolveConverted;
    var s, e := selector.start, selector.start + selector.length;
    if f.provenance.Window? {
      WindowResolvesExactly(m, documents, f, selector);
    } else {
      ConvertedText(m, documents, f, s, e);
    }
  }

  lemma ConvertedText(m: SourceMap, documents: seq<IndexedDocument>, f: SourceFragment, s: nat, e: nat)
    requires ResolveConverted(m, documents, f, s, e).Some?
    ensures
      var r := ResolveConverted(m, documents, f, s, e).value;
      && r.fragmentId == f.id && r.document == f.document == r.key.document
      && r.key.start < r.key.end <= |r.key.pageText| && r.key.end - r.key.start <= 500
      && AlignmentLocality.Values(Align(r.key.pageText[r.key.start..r.key.end], {})) == SelectedValues(f, s, e)
  {
    hide Align, Place, SurvivingSites, SelectedAt, AgreesAround;
    SurvivorsExact(m, f, s, e);
    var survivors := SurvivingSites(m, f, s, e);
    var x := survivors[0];
    assert x in survivors;
    var units := Align(f.text, f.hidden);
    SelectedEnds(units, SelectedAt(units, s, e));
    PlaceAligns(PagesOf(m, f.document)[x.page].text, SelectedValues(f, s, e), x.at);
  }
}
