# Livery scraper: extraction and deduplicating insert

A Dafny model of the record pipeline of the flight-livery tracker's scraper
(`DB/scraper1.py`). The scraper fetches ten listing pages of a photo gallery. For
every `card-image` entry that has an `img` tag it derives a record of airline,
registration, aircraft model, location and image URL. It inserts that record into
the SQLite table `liveries` only when no stored row has the same registration or the
same image URL.

The model has three parts.

- **Field extraction** is written as pure functions over `string`. These are
  `Extract.Airline`, `Extract.Registration`, `Extract.AircraftModel` and
  `Extract.Location`, gathered by `Extract.Describe`. Each regular expression is a
  leftmost scan (`Text.Leftmost`) with a matcher saying where the pattern can start,
  plus the greedy extent of the match there.
  - Each pattern also gets a reference reading as a grammar: the predicates
    `RegistrationParse`, `AircraftModelParse` and `LocationParse`.
  - Lemmas prove that the scan returns the leftmost-starting, longest parse. That is
    what Python's backtracking `re.search` returns for these three patterns.
  - The location pattern's extent is the same for every way of splitting the text
    between its groups.
  - The extraction functions carry no contracts of their own. Lemmas specify them:
    - `Registration`: `RegistrationSearchNone`, `RegistrationSearchShape`,
      `RegistrationSentinel` and `RegistrationLeftmostLongest`;
    - `AircraftModel`: the corresponding `AircraftModel…` lemmas;
    - `Location`: the `Location…` lemmas;
    - `Airline`: `AirlineSentinel`, `AirlineHasNoMarker` and
      `AirlineBeforeFirstMarker`;
    - `Text.Strip`: `StripSpec` and `StripIdempotent`;
    - `Describe`: the scenario lemmas.
- **Entries and pages** are plain values in module `Listing`.
  - An entry is an optional `img` tag plus optional `card-body` text.
  - A page either lacks its listing container or holds its entries in document order.
  - A fetch either raises a request error or yields a page.
- **The table** is modelled twice.
  - Module `Store` has it as a value (rows plus the next AUTOINCREMENT id). Its
    specification is `Insert` and `InsertAll`, which the `InsertAll…` lemmas
    describe.
  - Module `Scraper` has the class `LiveryDb`. It holds the same two fields and
    updates them in place, with loops over a page's entries and over pages 1 to 10.
    The functions `AfterEntry` and `RunThrough` are the specification of its
    methods. `InsertAllEntriesStep` and the `Run…` lemmas describe them.

Whitespace assumption: Python's `\s` in a `str` pattern and `str.strip()` both accept
every Unicode whitespace character. The model uses one fixed predicate for both,
`Text.IsSpace`: space, tab, newline, carriage return, vertical tab and form feed.
Python also accepts the ASCII separators U+001C to U+001F and non-ASCII whitespace.
`[A-Za-z]` is ASCII letters only, as in the source, which sets no flags.

Two consequences of the code are worth stating.

- For the description `Delta Air Lines REG:N123DL Boeing 737-800 Atlanta-USA(KATL)`,
  the location is `" Atlanta-USA("`, with a leading space.
  - The first run of letters and spaces that ends at the dash starts at the space
    after `800`, because the character before that space is the digit `0`.
  - `Extract.DeltaScenario` proves this value.
- The model and location searches do not depend on `REG:`. So a description without
  `REG:` can still have a model and a location. `Extract.SentinelForm` states a
  sufficient condition for all four fields to be sentinels.

## Model

| member | source | states |
|---|---|---|
| `Text.Leftmost` | DB/scraper1.py:55-57 | the search start a regex search takes: the first matching position, with no match before it; None exactly when no position matches |
| `Text.StripSpec` | DB/scraper1.py:60 | `str.strip()`: the result is `s[a..b]` with only whitespace outside, and is empty or begins and ends with non-whitespace |
| `Text.StripIdempotent` | DB/scraper1.py:60 | stripping an already stripped airline changes nothing |
| `Extract.RegistrationSearchNone` | DB/scraper1.py:55 | the registration search fails exactly when no `REG:` is followed by a non-whitespace character |
| `Extract.RegistrationSearchShape` | DB/scraper1.py:55-61 | a found registration is a non-empty, whitespace-free substring of the description |
| `Extract.RegistrationSentinel` | DB/scraper1.py:55-61 | the registration is "Unknown Registration" exactly when the pattern has no match |
| `Extract.RegistrationLeftmostLongest` | DB/scraper1.py:55-61 | the registration is group 1 of the match with the leftmost start and, at that start, the longest run |
| `Extract.AircraftModelSearchNone` | DB/scraper1.py:56 | the model search fails exactly when the model pattern has no parse |
| `Extract.AircraftModelSearchShape` | DB/scraper1.py:56-62 | a found model is a substring of the description: the bare "Airbus", or "Boeing", one whitespace character and a non-empty whitespace-free run |
| `Extract.AircraftModelSentinel` | DB/scraper1.py:56-62 | the model is "Unknown Model" exactly when the pattern has no parse |
| `Extract.AircraftModelLeftmostLongest` | DB/scraper1.py:56-62 | the model is the leftmost, longest match of the model pattern read as a grammar |
| `Extract.AirbusTokenDropped` | DB/scraper1.py:56 | the alternation quirk is kept: "Airbus A320neo" gives the model "Airbus" |
| `Extract.LocationParseDetermined` | DB/scraper1.py:57 | every parse of the location pattern at a start has the same dash and the same parenthesis, so backtracking cannot change the extent |
| `Extract.LocationSearchNone` | DB/scraper1.py:57 | the location search fails exactly when the location pattern has no parse |
| `Extract.LocationSearchShape` | DB/scraper1.py:57-63 | a found location is a substring of the description ending in `(`, with exactly one `-` and only letters and whitespace otherwise |
| `Extract.LocationSentinel` | DB/scraper1.py:57-63 | the location is "Unknown Location" exactly when the pattern has no parse |
| `Extract.LocationLeftmost` | DB/scraper1.py:57-63 | the location is `s[k..c+1]` for the leftmost start `k` with any parse, whatever its group split |
| `Extract.AirlineSentinel` | DB/scraper1.py:60 | without a `REG:` in the description the airline is "Unknown Airline" |
| `Extract.AirlineHasNoMarker` | DB/scraper1.py:60 | whatever the description, the airline never contains `REG:` |
| `Extract.AirlineBeforeFirstMarker` | DB/scraper1.py:60 | with a `REG:` present, the airline is the stripped text before its first occurrence |
| `Extract.AirlineWithoutRegistration` | DB/scraper1.py:55-61 | the two `REG:` tests disagree: "X REG: " gives airline "X" but registration "Unknown Registration" |
| `Extract.NoColonNoMarker` | DB/scraper1.py:60 | a description without a colon contains no `REG:` |
| `Extract.AirlineForm` | DB/scraper1.py:60 | for `p + "REG:" + q` with no `R` in `p`, the airline is `Strip(p)` |
| `Extract.RegistrationForm` | DB/scraper1.py:55-61 | for `p + "REG:" + r + rest` with no `R` in `p`, a whitespace-free non-empty `r` and `rest` empty or starting with whitespace, the registration is `r` |
| `Extract.BoeingForm` | DB/scraper1.py:56-62 | for `x + "Boeing " + t + rest` with no earlier match, the model is `"Boeing " + t` |
| `Extract.LocationForm` | DB/scraper1.py:57-63 | for `x + g1 + "-" + g2 + "(" + rest` with no match inside `x`, the location is `g1 + "-" + g2 + "("`, leading whitespace included |
| `Extract.SentinelForm` | DB/scraper1.py:55-63 | a description with no colon, dash, `B` or `u` yields all four per-field sentinels |
| `Extract.SentinelScenario` | DB/scraper1.py:55-63 | "Unknown livery info" yields the four per-field sentinels |
| `Extract.DeltaScenario` | DB/scraper1.py:55-63 | the Delta description yields "Delta Air Lines", "N123DL", "Boeing 737-800" and " Atlanta-USA(" |
| `Listing.Entries` | DB/scraper1.py:38-39 | a page without its listing container has no entries |
| `Listing.Candidate` | DB/scraper1.py:45-67 | no candidate without an `img` tag; the image URL is `src`; without a `card-body` all four fields are "Unknown"; otherwise the four extracted fields |
| `Listing.Candidates` | DB/scraper1.py:44-47 | at most one candidate per entry |
| `Listing.CandidateSource` | DB/scraper1.py:44-67 | every candidate is the one some entry of the page yields |
| `Listing.CandidatesPrefix` | DB/scraper1.py:44-47 | the candidates of the first entries come first in the page's candidates, in the same order |
| `Listing.CandidateKept` | DB/scraper1.py:44-67 | every entry with an `img` tag contributes its candidate, right after those of the entries before it |
| `Listing.PageCandidates` | DB/scraper1.py:31-84 | a request error or a missing container gives no candidates |
| `Listing.ImagelessEntriesIgnored` | DB/scraper1.py:45-46 | entries without an `img` tag produce nothing |
| `Listing.ImageEntriesAllKept` | DB/scraper1.py:44-47 | entries that all have an `img` tag give one candidate each, in order |
| `Store.InsertValid` | DB/scraper1.py:70-75 | an insert keeps ids increasing and registrations and image URLs pairwise distinct |
| `Store.InsertAllValid` | DB/scraper1.py:44-75 | a page's inserts keep that invariant |
| `Store.InsertAllExtends` | DB/scraper1.py:44-78 | rows are never changed or removed; one new id is used per new row, at most one per candidate |
| `Store.InsertAllAppend` | DB/scraper1.py:44 | inserting two candidate batches in turn is inserting their concatenation |
| `Store.InsertAllCovers` | DB/scraper1.py:70-75 | afterwards every candidate has a row sharing its registration or its image URL |
| `Store.InsertAllNoop` | DB/scraper1.py:70-78 | candidates that all conflict with the table leave it unchanged |
| `Store.InsertAllIdempotent` | DB/scraper1.py:44-71 | replaying the same candidates against the resulting table appends no rows |
| `Store.AtMostOneUnknown` | DB/scraper1.py:67-71 | at most one stored row can have registration "Unknown" |
| `Scraper.OutcomeFetched` | DB/scraper1.py:31-84 | a page adds a candidate exactly when it was fetched and lists it; a request error adds none |
| `Scraper.InsertAllEntriesStep` | DB/scraper1.py:44-78 | inserting the candidates of one more entry is the earlier entries' inserts followed by that entry's insert-or-skip |
| `Scraper.RunThroughInsertsAll` | DB/scraper1.py:87-88 | pages 1 to n in order are one sequence of inserts of all their candidates |
| `Scraper.RunCandidatesComplete` | DB/scraper1.py:87-88 | every candidate of every page from 1 to n is among the run's candidates |
| `Scraper.RunCandidateSource` | DB/scraper1.py:87-88 | every candidate of the run comes from one of pages 1 to n |
| `Scraper.RunCovers` | DB/scraper1.py:70-88 | after the run, every candidate of every page from 1 to 10 has a row sharing its registration or image URL |
| `Scraper.RunCoversFetched` | DB/scraper1.py:31-88 | a request error on one page does not stop the run: every candidate of every fetched page ends up with a row sharing its registration or image URL |
| `Scraper.RunValid` | DB/scraper1.py:70-88 | the run keeps the table invariant |
| `Scraper.RunIdempotent` | DB/scraper1.py:44-88 | a second run over the same page outcomes adds no rows |
| `Scraper.LiveryDb.constructor` | DB/scraper1.py:7-20 | a new table is empty, satisfies the invariant, and its first id is 1 |
| `Scraper.LiveryDb.FindDuplicate` | DB/scraper1.py:70-71 | None exactly when no row matches the registration or the image URL; otherwise the index of a matching row |
| `Scraper.LiveryDb.InsertIfNew` | DB/scraper1.py:70-78 | inserts exactly when nothing conflicts; the new rows are the old ones plus the candidate with the next id, or unchanged; keeps the invariant |
| `Scraper.LiveryDb.ScrapeEntry` | DB/scraper1.py:45-78 | one entry: the table is unchanged when the entry has no `img` tag, otherwise its candidate is inserted or skipped; keeps the invariant |
| `Scraper.LiveryDb.ScrapePage` | DB/scraper1.py:31-84 | the new table is the old one with the page's candidates inserted in order; a request error leaves it unchanged |
| `Scraper.LiveryDb.Run` | DB/scraper1.py:87-88 | the new table is the old one after pages 1 to 10, each according to its fetch outcome |

## Left out

- HTTP fetching (lines 29-35) is left out: the URL, the user-agent header, the timeout and `raise_for_status`. The model takes each page's outcome as a parameter (`fetch: nat -> Fetch`).
- HTML parsing (lines 37-39, 45, 50-52) is left out: BeautifulSoup, the CSS selector, `find_next_sibling` and `get_text(strip=True)`. Entries arrive already split into an optional image and an optional description text.
- A missing `src` attribute is left out. `img_tag['src']` (line 47) would raise `KeyError` and end the process. `Listing.Image` always carries a `src`.
- The `alt` text and the "No Description" default (line 66) are kept in `Listing.Image` but have no effect: the source never uses that description.
- SQLite plumbing is left out: connecting, `CREATE TABLE IF NOT EXISTS`, `commit` and `close` (lines 7-20, 81, 91-92). A database file that already holds rows written by other programs is also left out; a run starts from a table that satisfies the invariant.
- Storage errors are left out, including AUTOINCREMENT exhaustion at the 64-bit maximum. In the source they propagate uncaught. Ids are unbounded `nat`s.
- Console output (every `print`) is left out.
- `FindDuplicate` scans the rows in id order. SQLite's result order without `ORDER BY` need not be this order. The source only tests whether any row matched, and that is all the rest of the model uses.
- Part of Python's whitespace class is left out. `\s` and `str.strip()` are modelled with six ASCII characters: space, tab, newline, carriage return, vertical tab and form feed. The model leaves out the separators U+001C to U+001F and all non-ASCII whitespace, which Python also accepts.
- `components/NearbyPlanes.js`, `server.js` and the `index.tsx` screens are not part of this model. They hold UI code, floating-point distance code and an unfinished SQL endpoint, not the scraper's logic.
