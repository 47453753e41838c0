// Ownership of page spans: a page is tiled into cores of 2,700 UTF-16 units, each read inside a context that reaches
// 250 units beyond it on both sides. A span belongs to the core that holds its midpoint.
module Ownership {
  import opened Sorting

  const CORE_UTF16 := 2_700
  const HALO_UTF16 := 250

  datatype Core = Core(coreStart: nat, coreEnd: nat, contextStart: nat, contextEnd: nat)

  function Min(a: int, b: int): int { if a <= b then a else b }

  function Max(a: int, b: int): int { if a >= b then a else b }

  // An empty page still has one (empty) core, so that it is counted as covered.
  function CoreCount(length: nat): nat {
    if length == 0 then 1 else (length + CORE_UTF16 - 1) / CORE_UTF16
  }

  function CoreAt(length: nat, k: nat): (c: Core)
    requires k < CoreCount(length)
  {
    var start := k * CORE_UTF16;
    var end := Min(length, start + CORE_UTF16);
    Core(start, end, Max(0, start - HALO_UTF16), Min(length, end + HALO_UTF16))
  }

  function Cores(length: nat): (cores: seq<Core>) {
    seq(CoreCount(length), k requires 0 <= k < CoreCount(length) => CoreAt(length, k))
  }

  method PageOwnershipCores(length: nat) returns (cores: seq<Core>)
    ensures cores == Cores(length)
  {
    if length == 0 {
      return [Core(0, 0, 0, 0)];
    }
    cores := [];
    var coreStart := 0;
    while coreStart < length
      invariant coreStart == |cores| * CORE_UTF16
      invariant |cores| <= CoreCount(length)
      invariant forall k :: 0 <= k < |cores| ==> cores[k] == CoreAt(length, k)
    {
      var coreEnd := Min(length, coreStart + CORE_UTF16);
      cores := cores + [Core(coreStart, coreEnd, Max(0, coreStart - HALO_UTF16), Min(length, coreEnd + HALO_UTF16))];
      coreStart := coreStart + CORE_UTF16;
    }
  }

  // What the discovery loop asks of a page before it counts the page as covered.
  predicate Tiles(cores: seq<Core>, length: nat) {
    && |cores| > 0
    && cores[0].coreStart == 0
    && cores[|cores| - 1].coreEnd == length
    && forall k :: 0 < k < |cores| ==> cores[k - 1].coreEnd == cores[k].coreStart
  }

  // The coverage test of the discovery loop never fails.
  lemma CoresTile(length: nat)
    ensures Tiles(Cores(length), length)
  {
    var cores := Cores(length);
    forall k | 0 < k < |cores| ensures cores[k - 1].coreEnd == cores[k].coreStart {
      assert cores[k - 1] == CoreAt(length, k - 1) && cores[k] == CoreAt(length, k);
    }
    assert cores[|cores| - 1] == CoreAt(length, |cores| - 1);
  }

  function SpanMidpoint(start: int, end: int): (midpoint: Option<int>) {
    if end - start < 1 then None else Some(start + (end - start - 1) / 2)
  }

  predicate Owns(core: Core, start: int, end: int) {
    var midpoint := SpanMidpoint(start, end);
    midpoint.Some? && core.coreStart <= midpoint.value < core.coreEnd
  }

  predicate Holds(core: Core, start: int, end: int) {
    core.contextStart <= start && end <= core.contextEnd
  }

  // A span of the page is owned by exactly one core, whatever its length.
  lemma OneOwner(length: nat, start: nat, end: nat)
    requires start < end <= length
    ensures exists k :: 0 <= k < |Cores(length)| && Owns(Cores(length)[k], start, end)
    ensures forall j, k ::
      (0 <= j < |Cores(length)| && 0 <= k < |Cores(length)| && Owns(Cores(length)[j], start, end) && Owns(Cores(length)[k], start, end)) ==>
      j == k
  {
    var cores := Cores(length);
    var k := SpanMidpoint(start, end).value / CORE_UTF16;
    assert cores[k] == CoreAt(length, k) && Owns(cores[k], start, end);
    forall j | 0 <= j < |cores| && Owns(cores[j], start, end) ensures j == k {
      assert cores[j] == CoreAt(length, j);
    }
  }

  // Disjointness without reference to a particular span: two owners of one midpoint are the same core.
  lemma OwnerIsUnique(length: nat, c: Core, d: Core, start: int, end: int)
    requires c in Cores(length) && d in Cores(length)
    requires Owns(c, start, end) && Owns(d, start, end)
    ensures c == d
  {
    var j :| 0 <= j < |Cores(length)| && Cores(length)[j] == c;
    var k :| 0 <= k < |Cores(length)| && Cores(length)[k] == d;
    assert c == CoreAt(length, j) && d == CoreAt(length, k);
  }

  // Every owner of a span of `size` units starting at `start` reads the whole span.
  predicate OwnerHolds(length: nat, start: nat, size: nat) {
    forall k :: 0 <= k < |Cores(length)| && Owns(Cores(length)[k], start, start + size) ==>
      Holds(Cores(length)[k], start, start + size)
  }

  lemma OwnerReadsSpan(length: nat, start: nat, size: nat)
    requires size <= 501 && start + size <= length
    ensures OwnerHolds(length, start, size)
  {
    var cores := Cores(length);
    forall k | 0 <= k < |cores| && Owns(cores[k], start, start + size) ensures Holds(cores[k], start, start + size) {
      assert cores[k] == CoreAt(length, k);
    }
  }

  // The halo of 250 units is sufficient for spans of up to 501 units, one more than a quote may have, and for no more.
  lemma HaloIsExact(size: nat)
    ensures (forall length: nat, start: nat :: start + size <= length ==> OwnerHolds(length, start, size)) <==> size <= 501
  {
    if size <= 501 {
      forall length: nat, start: nat | start + size <= length ensures OwnerHolds(length, start, size) {
        OwnerReadsSpan(length, start, size);
      }
    } else {
      // The midpoint is the last unit of a core, so the span reaches more than 250 units beyond it.
      var k := size / CORE_UTF16 + 1;
      var start := (k + 1) * CORE_UTF16 - 1 - (size - 1) / 2;
      var length := start + size;
      assert Cores(length)[k] == CoreAt(length, k);
      assert Owns(Cores(length)[k], start, start + size);
      assert !OwnerHolds(length, start, size);
    }
  }
}
