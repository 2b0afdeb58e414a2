/**
 * Listing pages and their entries (DB/scraper1.py, lines 33-67), with the HTML
 * parser abstracted away: a page is either missing its listing container or holds
 * the sequence of `card-image` entries in document order, and an entry records
 * whether it has an `img` tag and, if so, whether a `card-body` sibling follows.
 */
module Listing {

  import opened Wrappers
  import opened Extract

  const UNKNOWN := "Unknown"

  /** An `img` tag: its `src` attribute and its optional `alt` attribute. */
  datatype Image = Image(src: string, alt: Option<string>)

  /**
   * One `card-image` entry: its `img` tag, if any, and the visible text of its
   * `card-body` sibling, if there is one.
   */
  datatype Entry = Entry(img: Option<Image>, cardBody: Option<string>)

  /** A fetched page: `listing` is None when the listing container is absent. */
  datatype Page = Page(listing: Option<seq<Entry>>)

  /** The outcome of fetching one page: a request error or the parsed page. */
  datatype Fetch = RequestError | Fetched(page: Page)

  /** A candidate row, before the duplicate check. */
  datatype Record = Record(airline: string, registration: string, aircraftModel: string,
                           location: string, imageUrl: string)

  /** Line 39: a page without its container has no entries. */
  function Entries(p: Page): (es: seq<Entry>)
    ensures p.listing.None? ==> es == []
  {
    match p.listing
    case None => []
    case Some(es) => es
  }

  /**
   * Lines 45-67: the record an entry yields. The `alt` text becomes the description
   * when there is no `card-body`, but that description is never used again.
   */
  function Candidate(e: Entry): (r: Option<Record>)
    ensures r.None? <==> e.img.None?
    ensures r.Some? ==> r.value.imageUrl == e.img.value.src
    ensures r.Some? && e.cardBody.None? ==>
      r.value.airline == r.value.registration == r.value.aircraftModel == r.value.location == UNKNOWN
    ensures r.Some? && e.cardBody.Some? ==>
      Describe(e.cardBody.value) == Fields(r.value.airline, r.value.registration,
                                           r.value.aircraftModel, r.value.location)
  {
    match e.img
    case None => None
    case Some(img) =>
      match e.cardBody
      case None => Some(Record(UNKNOWN, UNKNOWN, UNKNOWN, UNKNOWN, img.src))
      case Some(description) =>
        var f := Describe(description);
        Some(Record(f.airline, f.registration, f.aircraftModel, f.location, img.src))
  }

  /** The candidates of a sequence of entries, in order; entries without `img` are dropped. */
  function Candidates(es: seq<Entry>): (cs: seq<Record>)
    ensures |cs| <= |es|
    decreases |es|
  {
    if es == [] then []
    else
      var init := Candidates(es[..|es| - 1]);
      var last := es[|es| - 1];
      match Candidate(last)
      case None => init
      case Some(c) => init + [c]
  }

  /** The candidates of one more entry: the old ones, then that entry's, if any. */
  lemma CandidatesSnoc(es: seq<Entry>, i: nat)
    requires i < |es|
    ensures Candidates(es[..i + 1]) ==
      match Candidate(es[i]) case None => Candidates(es[..i]) case Some(c) => Candidates(es[..i]) + [c]
  {
    assert es[..i + 1][..i] == es[..i];
  }

  /** Every candidate is what some entry yields. */
  lemma {:induction false} CandidateSource(es: seq<Entry>, c: Record) returns (i: nat)
    requires c in Candidates(es)
    ensures i < |es| && Candidate(es[i]) == Some(c)
    decreases |es|
  {
    var init := es[..|es| - 1];
    if c in Candidates(init) {
      i := CandidateSource(init, c);
      assert es[i] == init[i];
    } else {
      i := |es| - 1;
    }
  }

  /** One more entry only appends to the candidates. */
  lemma CandidatesGrow(es: seq<Entry>, i: nat)
    requires i < |es|
    ensures Candidates(es[..i]) <= Candidates(es[..i + 1])
  {
    CandidatesSnoc(es, i);
  }

  lemma PrefixTrans(a: seq<Record>, b: seq<Record>, c: seq<Record>)
    requires a <= b && b <= c
    ensures a <= c
  {
    assert c[..|a|] == b[..|a|];
  }

  /** The candidates of the first `i` entries come first, in the same order. */
  lemma {:induction false} CandidatesPrefix(es: seq<Entry>, i: nat)
    requires i <= |es|
    ensures Candidates(es[..i]) <= Candidates(es)
    decreases |es| - i
  {
    if i < |es| {
      CandidatesGrow(es, i);
      CandidatesPrefix(es, i + 1);
      PrefixTrans(Candidates(es[..i]), Candidates(es[..i + 1]), Candidates(es));
    } else {
      assert es[..i] == es;
    }
  }

  /**
   * Every entry with an `img` tag contributes its candidate, right after the
   * candidates of the entries before it.
   */
  lemma CandidateKept(es: seq<Entry>, i: nat)
    requires i < |es| && es[i].img.Some?
    ensures var n := |Candidates(es[..i])|;
      n < |Candidates(es)| && Candidates(es)[n] == Candidate(es[i]).value
    ensures Candidate(es[i]).value in Candidates(es)
  {
    CandidatesSnoc(es, i);
    CandidatesPrefix(es, i + 1);
    var n := |Candidates(es[..i])|;
    assert Candidates(es[..i + 1])[n] == Candidate(es[i]).value;
  }

  /** A page's candidates: none for a request error or a page without its container. */
  function PageCandidates(f: Fetch): (cs: seq<Record>)
    ensures f.RequestError? ==> cs == []
    ensures f.Fetched? && f.page.listing.None? ==> cs == []
  {
    match f
    case RequestError => []
    case Fetched(p) => Candidates(Entries(p))
  }

  /** Entries without an `img` tag never contribute a candidate. */
  lemma {:induction false} ImagelessEntriesIgnored(es: seq<Entry>)
    requires forall e :: e in es ==> e.img.None?
    ensures Candidates(es) == []
    decreases |es|
  {
    if es != [] {
      assert forall e :: e in es[..|es| - 1] ==> e in es;
      ImagelessEntriesIgnored(es[..|es| - 1]);
    }
  }

  /** When every entry has an image, each entry gives exactly one candidate ... */
  lemma {:induction false} ImageEntriesCount(es: seq<Entry>)
    requires forall e :: e in es ==> e.img.Some?
    ensures |Candidates(es)| == |es|
    decreases |es|
  {
    if es != [] {
      var init := es[..|es| - 1];
      assert forall e :: e in init ==> e in es;
      ImageEntriesCount(init);
      assert Candidate(es[|es| - 1]).Some?;
    }
  }

  /** ... and the candidates come in the order of their entries. */
  lemma ImageEntriesAllKept(es: seq<Entry>)
    requires forall e :: e in es ==> e.img.Some?
    ensures |Candidates(es)| == |es|
    ensures forall i :: 0 <= i < |es| ==> Candidate(es[i]) == Some(Candidates(es)[i])
  {
    ImageEntriesCount(es);
    forall i | 0 <= i < |es|
      ensures Candidate(es[i]) == Some(Candidates(es)[i])
    {
      assert forall e :: e in es[..i] ==> e in es;
      ImageEntriesCount(es[..i]);
      CandidateKept(es, i);
    }
  }
}
