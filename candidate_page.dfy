/** How the demo's draw routine lists the current page of candidates: the
    clamped index range, the in-place substitution and the page numbering. */
module CandidatePage {
  import opened CodeUnits

  /** A C# `uint`. */
  type UInt32 = x: int | 0 <= x < 0x1_0000_0000

  /** One listed line: the page-relative number and the candidate shown. */
  datatype Entry = Entry(number: nat, text: Utf16)

  /** The page was listed, or the loop stopped at an empty candidate, whose
      first unit does not exist (an index-out-of-range failure). */
  datatype PageOutcome = Listed(entries: seq<Entry>) | EmptyCandidate(index: nat)

  /** The loop bound: the smaller of `pageStart + pageSize`, added as unsigned
      32-bit integers and hence wrapping, and the number of candidates. The
      page is the index range [pageStart, PageEnd(...)). */
  function PageEnd(pageStart: UInt32, pageSize: UInt32, count: nat): (e: nat)
    ensures e <= count
    ensures pageStart < e ==> e - pageStart <= pageSize
  {
    var sum := (pageStart + pageSize) % 0x1_0000_0000;
    if sum < count then sum else count
  }

  /** Number of indices in the half-open range [lo, hi). */
  function Span(lo: nat, hi: nat): (n: nat) {
    if lo < hi then hi - lo else 0
  }

  /** A page that fits inside the candidates is full. */
  lemma FullPage(pageStart: UInt32, pageSize: UInt32, count: nat)
    requires pageStart + pageSize <= count && pageStart + pageSize < 0x1_0000_0000
    ensures PageEnd(pageStart, pageSize, count) == pageStart + pageSize
  {
  }

  /** The last page is clamped to the candidates that remain. */
  lemma LastPageClamped(pageStart: UInt32, pageSize: UInt32, count: nat)
    requires pageStart <= count < pageStart + pageSize < 0x1_0000_0000
    ensures PageEnd(pageStart, pageSize, count) == count
  {
  }

  /** When `pageStart + pageSize` overflows 32 bits, the bound wraps below
      `pageStart` and no candidate is listed. */
  lemma WrappedPageIsEmpty(pageStart: UInt32, pageSize: UInt32, count: nat)
    requires pageStart + pageSize >= 0x1_0000_0000
    ensures PageEnd(pageStart, pageSize, count) < pageStart
  {
  }

  /** Twelve candidates, five per page: the second page is [5, 10), the third [10, 12). */
  lemma TwelveCandidates()
    ensures PageEnd(5, 5, 12) == 10 && PageEnd(10, 5, 12) == 12
  {
  }

  /** The candidate as listed: "?" if its first unit lies above 0x9FA5. */
  function Masked(candidate: Utf16): (shown: Utf16)
    requires |candidate| > 0
    ensures |shown| > 0 && shown[0] <= SimplifiedChineseMax
    ensures shown == candidate || shown == [Placeholder]
  {
    if candidate[0] > SimplifiedChineseMax then [Placeholder] else candidate
  }

  /** The rule: a candidate whose first unit lies above 0x9FA5 is listed as
      the placeholder, any other candidate exactly as it is. */
  lemma MaskedSubstitution(candidate: Utf16)
    requires |candidate| > 0
    ensures candidate[0] > SimplifiedChineseMax ==> Masked(candidate) == [Placeholder]
    ensures candidate[0] <= SimplifiedChineseMax ==> Masked(candidate) == candidate
  {
  }

  /** Substituting an already listed candidate changes nothing. */
  lemma MaskedIdempotent(candidate: Utf16)
    requires |candidate| > 0
    ensures Masked(Masked(candidate)) == Masked(candidate)
  {
  }

  /** Only the first unit is checked: later units above 0x9FA5 are listed as they are. */
  lemma MaskedChecksFirstUnitOnly()
    ensures Masked([0x4F60, 0xFF01]) == [0x4F60, 0xFF01]
    ensures Masked([0xFF01, 0x4F60]) == [Placeholder]
  {
  }

  /** Where the loop over [lo, hi) stops: the first empty candidate, or hi. */
  function StopAt(s: seq<Utf16>, lo: nat, hi: nat): (k: nat)
    requires hi <= |s|
    ensures k <= hi
    ensures k < hi ==> lo <= k && |s[k]| == 0
    ensures forall i :: lo <= i < k ==> |s[i]| > 0
    decreases hi - lo
  {
    if lo >= hi then hi
    else if |s[lo]| == 0 then lo
    else StopAt(s, lo + 1, hi)
  }

  /** The draw of one page, from the candidates `before` to the candidates
      `after` with outcome `r`: the indices visited are substituted in place,
      every other candidate is left alone, and a completed page lists the
      visited candidates, as they now stand, numbered 1, 2, ... in order. */
  ghost predicate PageDrawn(before: seq<Utf16>, after: seq<Utf16>, pageStart: UInt32, pageSize: UInt32, r: PageOutcome)
    // the array keeps its length and no candidate outside the page changes
    ensures PageDrawn(before, after, pageStart, pageSize, r) ==>
      |after| == |before| &&
      forall i :: 0 <= i < |before| && (i < pageStart || PageEnd(pageStart, pageSize, |before|) <= i) ==>
        after[i] == before[i]
    // a listed page has at most pageSize lines, numbered 1, 2, ..., none starting above 0x9FA5
    ensures PageDrawn(before, after, pageStart, pageSize, r) && r.Listed? ==>
      |r.entries| <= pageSize &&
      forall j :: 0 <= j < |r.entries| ==>
        r.entries[j].number == j + 1 && |r.entries[j].text| > 0 && r.entries[j].text[0] <= SimplifiedChineseMax
    // the loop fails only at an empty candidate of the page
    ensures PageDrawn(before, after, pageStart, pageSize, r) && r.EmptyCandidate? ==>
      pageStart <= r.index < |before| && |before[r.index]| == 0
  {
    var e := PageEnd(pageStart, pageSize, |before|);
    var k := StopAt(before, pageStart, e);
    |after| == |before| &&
    (forall i :: 0 <= i < |before| ==>
      after[i] == if pageStart <= i < k then Masked(before[i]) else before[i]) &&
    (k < e ==> r == EmptyCandidate(k)) &&
    (k == e ==>
       r.Listed? && |r.entries| == Span(pageStart, e) &&
       forall j :: 0 <= j < |r.entries| ==> r.entries[j] == Entry(j + 1, after[pageStart + j]))
  }

  /** The candidate loop of the draw routine, over the native candidate array. */
  method ShowPage(candidates: array<Utf16>, pageStart: UInt32, pageSize: UInt32) returns (r: PageOutcome)
    modifies candidates
    ensures PageDrawn(old(candidates[..]), candidates[..], pageStart, pageSize, r)
  {
    ghost var before := candidates[..];
    var e := PageEnd(pageStart, pageSize, candidates.Length);
    var entries: seq<Entry> := [];
    var i: nat := pageStart;
    while i < e
      invariant pageStart <= i && (i <= e || i == pageStart)
      invariant forall j :: pageStart <= j < i ==> |before[j]| > 0
      invariant forall j :: 0 <= j < candidates.Length ==>
        candidates[j] == if pageStart <= j < i then Masked(before[j]) else before[j]
      invariant |entries| == i - pageStart
      invariant forall j :: 0 <= j < |entries| ==> entries[j] == Entry(j + 1, candidates[pageStart + j])
      decreases e - i
    {
      if |candidates[i]| == 0 {
        r := EmptyCandidate(i);
        return;
      }
      if candidates[i][0] > SimplifiedChineseMax {
        candidates[i] := [Placeholder];
      }
      entries := entries + [Entry(i + 1 - pageStart, candidates[i])];
      i := i + 1;
    }
    r := Listed(entries);
  }

  /** The draw runs on every idle tick: drawing a listed page a second time
      changes no candidate and lists the same page. */
  lemma RedrawIsStable(before: seq<Utf16>, after: seq<Utf16>, again: seq<Utf16>,
                       pageStart: UInt32, pageSize: UInt32, entries: seq<Entry>, r: PageOutcome)
    requires PageDrawn(before, after, pageStart, pageSize, Listed(entries))
    requires PageDrawn(after, again, pageStart, pageSize, r)
    ensures again == after
    ensures r == Listed(entries)
  {
  }

  /** Twelve non-empty candidates drawn from index 10, five per page: exactly
      indices 10 and 11 are listed, as 1 and 2, and nothing before them changes. */
  lemma TwelveCandidatesFromTen(before: seq<Utf16>, after: seq<Utf16>, r: PageOutcome)
    requires |before| == 12 && forall i :: 0 <= i < 12 ==> |before[i]| > 0
    requires PageDrawn(before, after, 10, 5, r)
    ensures r.Listed? && |r.entries| == 2
    ensures r.entries[0] == Entry(1, Masked(before[10])) && r.entries[1] == Entry(2, Masked(before[11]))
    ensures forall i :: 0 <= i < 10 ==> after[i] == before[i]
  {
  }
}
