/**
 * The scraping run (DB/scraper1.py, lines 28-88): pages 1 to 10 in order, each
 * page's entries in order, every candidate checked against the table and inserted
 * only when no stored row shares its registration or image URL. The table is the
 * class LiveryDb, standing for the shared SQLite cursor; fetching is a parameter.
 */
module Scraper {

  import opened Wrappers
  import opened Listing
  import opened Store

  const FIRST_PAGE := 1
  const LAST_PAGE := 10

  /**
   * What each page adds to the run: `pages(p)` is the candidates of page `p` in
   * order. The run-level functions and lemmas below hold for any such outcome.
   */
  function Outcomes(fetch: nat -> Fetch): (pages: nat -> seq<Record>)
  {
    (p: nat) => PageCandidates(fetch(p))
  }

  /** Page `p` was fetched and yields candidate `c`. */
  ghost predicate FetchedWith(fetch: nat -> Fetch, p: nat, c: Record)
  {
    fetch(p).Fetched? && c in PageCandidates(fetch(p))
  }

  /** A page adds a candidate exactly when it was fetched and lists it; a request error adds none. */
  lemma OutcomeFetched(fetch: nat -> Fetch, p: nat, c: Record)
    ensures c in Outcomes(fetch)(p) <==> FetchedWith(fetch, p, c)
    ensures fetch(p).RequestError? ==> Outcomes(fetch)(p) == []
  {
  }

  /** The table after one entry: unchanged when the entry yields no candidate, else its candidate inserted or skipped. */
  function AfterEntry(t: Table, e: Entry): (t': Table)
  {
    match Candidate(e)
    case None => t
    case Some(c) => Insert(t, c)
  }

  /** One more entry of a page: its candidate, if any, goes in after the earlier entries' ones. */
  lemma InsertAllEntriesStep(t: Table, es: seq<Entry>, i: nat)
    requires i < |es|
    ensures InsertAll(t, Candidates(es[..i + 1])) == AfterEntry(InsertAll(t, Candidates(es[..i])), es[i])
  {
    CandidatesSnoc(es, i);
    match Candidate(es[i])
    case None =>
    case Some(c) => InsertAllSnoc(t, Candidates(es[..i]), c);
  }

  /** The table after scraping pages FIRST_PAGE..n in order. */
  function RunThrough(t: Table, pages: nat -> seq<Record>, n: nat): (t': Table)
    decreases n
  {
    if n < FIRST_PAGE then t else InsertAll(RunThrough(t, pages, n - 1), pages(n))
  }

  /** One more page: its candidates inserted into the table the earlier pages left. */
  lemma RunThroughStep(t: Table, pages: nat -> seq<Record>, n: nat)
    requires FIRST_PAGE <= n
    ensures RunThrough(t, pages, n) == InsertAll(RunThrough(t, pages, n - 1), pages(n))
  {
  }

  /** One more fetched page: its candidates inserted into the table the earlier pages left. */
  lemma RunFetchStep(t: Table, fetch: nat -> Fetch, n: nat)
    requires FIRST_PAGE <= n
    ensures RunThrough(t, Outcomes(fetch), n) == InsertAll(RunThrough(t, Outcomes(fetch), n - 1), PageCandidates(fetch(n)))
  {
    RunThroughStep(t, Outcomes(fetch), n);
    assert Outcomes(fetch)(n) == PageCandidates(fetch(n));
  }

  /** All candidates of pages FIRST_PAGE..n, in the order the run meets them. */
  function RunCandidates(pages: nat -> seq<Record>, n: nat): (cs: seq<Record>)
    decreases n
  {
    if n < FIRST_PAGE then [] else RunCandidates(pages, n - 1) + pages(n)
  }

  /** A run is one long sequence of inserts: the pages' candidates, concatenated. */
  lemma {:induction false} RunThroughInsertsAll(t: Table, pages: nat -> seq<Record>, n: nat)
    ensures RunThrough(t, pages, n) == InsertAll(t, RunCandidates(pages, n))
    decreases n
  {
    if n >= FIRST_PAGE {
      RunThroughInsertsAll(t, pages, n - 1);
      InsertAllAppend(t, RunCandidates(pages, n - 1), pages(n));
    }
  }

  /** The candidates of every page up to `n` are among the run's candidates ... */
  lemma {:induction false} RunCandidatesComplete(pages: nat -> seq<Record>, n: nat, p: nat, c: Record)
    requires FIRST_PAGE <= p <= n
    requires c in pages(p)
    ensures c in RunCandidates(pages, n)
    decreases n
  {
    if p < n {
      RunCandidatesComplete(pages, n - 1, p, c);
    }
  }

  /** ... and every candidate of the run comes from one of those pages. */
  lemma {:induction false} RunCandidateSource(pages: nat -> seq<Record>, n: nat, c: Record) returns (p: nat)
    requires c in RunCandidates(pages, n)
    ensures FIRST_PAGE <= p <= n
    ensures c in pages(p)
    decreases n
  {
    if c in pages(n) {
      p := n;
    } else {
      p := RunCandidateSource(pages, n - 1, c);
    }
  }

  /** After a run, every candidate of every page has a row sharing its registration or its image URL. */
  lemma RunCovers(t: Table, pages: nat -> seq<Record>, p: nat, c: Record)
    requires FIRST_PAGE <= p <= LAST_PAGE
    requires c in pages(p)
    ensures Conflicts(RunThrough(t, pages, LAST_PAGE).rows, c)
  {
    RunCandidatesComplete(pages, LAST_PAGE, p, c);
    RunThroughInsertsAll(t, pages, LAST_PAGE);
    InsertAllCovers(t, RunCandidates(pages, LAST_PAGE));
  }

  /**
   * A request error on one page does not stop the run: every candidate of every
   * page that was fetched ends up with a row sharing its registration or image URL.
   */
  lemma RunCoversFetched(t: Table, fetch: nat -> Fetch, p: nat, c: Record)
    requires FIRST_PAGE <= p <= LAST_PAGE
    requires FetchedWith(fetch, p, c)
    ensures Conflicts(RunThrough(t, Outcomes(fetch), LAST_PAGE).rows, c)
  {
    OutcomeFetched(fetch, p, c);
    RunCovers(t, Outcomes(fetch), p, c);
  }

  /** A run keeps the table invariant. */
  lemma RunValid(t: Table, pages: nat -> seq<Record>, n: nat)
    requires Valid(t)
    ensures Valid(RunThrough(t, pages, n))
  {
    RunThroughInsertsAll(t, pages, n);
    InsertAllValid(t, RunCandidates(pages, n));
  }

  /** A second run over the same page outcomes adds no rows. */
  lemma RunIdempotent(t: Table, pages: nat -> seq<Record>)
    ensures RunThrough(RunThrough(t, pages, LAST_PAGE), pages, LAST_PAGE) == RunThrough(t, pages, LAST_PAGE)
  {
    var cs := RunCandidates(pages, LAST_PAGE);
    RunThroughInsertsAll(t, pages, LAST_PAGE);
    RunThroughInsertsAll(InsertAll(t, cs), pages, LAST_PAGE);
    InsertAllIdempotent(t, cs);
  }

  /** The `liveries` table behind the shared cursor: its rows and the next AUTOINCREMENT id. */
  class LiveryDb {
    var rows: seq<Row>
    var nextId: nat

    function State(): (t: Table)
      reads this
    {
      Table(rows, nextId)
    }

    ghost predicate Valid()
      reads this
    {
      Store.Valid(State())
    }

    /** Lines 7-20: a new database file with an empty `liveries` table. */
    constructor ()
      ensures Valid()
      ensures State() == EMPTY
    {
      rows := [];
      nextId := 1;
    }

    /** Line 70: look up a stored row with the same registration or the same image URL; the first one found. */
    method FindDuplicate(registration: string, imageUrl: string) returns (hit: Option<nat>)
      ensures hit.None? <==> forall i :: 0 <= i < |rows| ==> !Matches(rows[i], registration, imageUrl)
      ensures hit.Some? ==> hit.value < |rows| && Matches(rows[hit.value], registration, imageUrl)
    {
      var i := 0;
      while i < |rows|
        invariant 0 <= i <= |rows|
        invariant forall j :: 0 <= j < i ==> !Matches(rows[j], registration, imageUrl)
      {
        if Matches(rows[i], registration, imageUrl) {
          return Some(i);
        }
        i := i + 1;
      }
      return None;
    }

    /** Lines 70-78: insert the candidate with the next id unless it duplicates a row. */
    method InsertIfNew(c: Record) returns (inserted: bool)
      requires Valid()
      modifies this
      ensures Valid()
      ensures inserted <==> !Conflicts(old(rows), c)
      ensures rows == if inserted then old(rows) + [Row(old(nextId), c)] else old(rows)
      ensures nextId == if inserted then old(nextId) + 1 else old(nextId)
      ensures State() == Insert(old(State()), c)
    {
      var hit := FindDuplicate(c.registration, c.imageUrl);
      inserted := hit.None?;
      InsertValid(State(), c);
      if inserted {
        rows := rows + [Row(nextId, c)];
        nextId := nextId + 1;
      }
    }

    /** Lines 45-78: one entry's candidate, if it yields one, inserted or skipped. */
    method ScrapeEntry(e: Entry)
      requires Valid()
      modifies this
      ensures Valid()
      ensures State() == AfterEntry(old(State()), e)
    {
      var candidate := Candidate(e);
      if candidate.Some? {
        var _ := InsertIfNew(candidate.value);
      }
    }

    /**
     * Lines 31-84 for one page: a request error leaves the table alone; otherwise
     * each entry in order yields at most one candidate, which is inserted or skipped.
     */
    method ScrapePage(f: Fetch)
      requires Valid()
      modifies this
      ensures Valid()
      ensures State() == InsertAll(old(State()), PageCandidates(f))
    {
      if f.RequestError? {
        return;
      }
      var es := Entries(f.page);
      var i := 0;
      while i < |es|
        invariant 0 <= i <= |es|
        invariant Valid()
        invariant State() == InsertAll(old(State()), Candidates(es[..i]))
      {
        InsertAllEntriesStep(old(State()), es, i);
        ScrapeEntry(es[i]);
        i := i + 1;
      }
      assert es[..i] == es;
    }

    /** Lines 87-88: pages FIRST_PAGE..LAST_PAGE, each fetched once, in order. */
    method Run(fetch: nat -> Fetch)
      requires Valid()
      modifies this
      ensures Valid()
      ensures State() == RunThrough(old(State()), Outcomes(fetch), LAST_PAGE)
    {
      ghost var t0 := State();
      for page := FIRST_PAGE to LAST_PAGE + 1
        invariant Valid()
        invariant State() == RunThrough(t0, Outcomes(fetch), page - 1)
      {
        RunFetchStep(t0, fetch, page);
        ScrapePage(fetch(page));
      }
    }
  }
}
