/**
 * Field extraction from a card's description text (DB/scraper1.py, lines 55-63).
 *
 * Each regular expression is modelled as a leftmost scan (Text.Leftmost) with a
 * matcher that says whether the pattern can start at a position, plus the greedy
 * extent of the match there. Beside each matcher stands a reference reading of the
 * pattern as a grammar (the `...Parse` predicates), and the lemmas show that the
 * scan returns the leftmost, longest parse, which is what Python's backtracking
 * search returns for these three patterns.
 */
module Extract {

  import opened Wrappers
  import opened Text

  const MARKER := "REG:"
  const AIRBUS := "Airbus"
  const BOEING := "Boeing"

  const UNKNOWN_AIRLINE := "Unknown Airline"
  const UNKNOWN_REGISTRATION := "Unknown Registration"
  const UNKNOWN_MODEL := "Unknown Model"
  const UNKNOWN_LOCATION := "Unknown Location"

  /** The four text fields of a livery record that come from the description. */
  datatype Fields = Fields(airline: string, registration: string, aircraftModel: string, location: string)

  // ---------------------------------------------------------------- registration

  predicate MarkerAt(s: string, k: nat)
  {
    LiteralAt(s, k, MARKER)
  }

  lemma MarkerChars(s: string, k: nat)
    requires MarkerAt(s, k)
    ensures s[k] == 'R' && s[k + 3] == ':'
  {
    assert s[k..k + 4][0] == s[k] && s[k..k + 4][3] == s[k + 3];
  }

  /** Without a colon there is no marker, hence neither an airline nor a registration. */
  lemma NoColonNoMarker(s: string)
    requires ':' !in s
    ensures forall k: nat :: !MarkerAt(s, k)
  {
    forall k: nat | MarkerAt(s, k)
      ensures false
    {
      MarkerChars(s, k);
    }
  }

  /** `REG:([^\s]+)` can start at `k`: the marker, then at least one non-space. */
  predicate RegistrationAt(s: string, k: nat)
  {
    MarkerAt(s, k) && k + 4 < |s| && IsNonSpace(s[k + 4])
  }

  /** Reference reading of `REG:([^\s]+)`: a match from `k` to `e`, group 1 being `s[k + 4..e]`. */
  ghost predicate RegistrationParse(s: string, k: nat, e: nat)
  {
    MarkerAt(s, k) && k + 4 < e <= |s| && All(s[k + 4..e], IsNonSpace)
  }

  /** The search for `REG:([^\s]+)` of line 55: group 1 of the first match, if any. */
  function RegistrationSearch(s: string): (m: Option<string>)
  {
    match Leftmost(s, 0, RegistrationAt)
    case None => None
    case Some(k) => Some(s[k + 4..RunEnd(s, k + 4, IsNonSpace)])
  }

  /** The search fails exactly when the pattern has no match. */
  lemma RegistrationSearchNone(s: string)
    ensures RegistrationSearch(s).None? <==> forall k: nat, e: nat :: !RegistrationParse(s, k, e)
  {
    match Leftmost(s, 0, RegistrationAt)
    case None =>
      NoRegistrationParse(s);
    case Some(k) =>
      RegistrationAtParses(s, k);
  }

  /** A found registration is a non-empty, whitespace-free piece of the description. */
  lemma RegistrationSearchShape(s: string)
    ensures var m := RegistrationSearch(s);
      m.Some? ==> m.value != [] && All(m.value, IsNonSpace) && IsSubstring(m.value, s)
  {
    match Leftmost(s, 0, RegistrationAt)
    case None =>
    case Some(k) =>
      var e := RunEnd(s, k + 4, IsNonSpace);
      RunEndAll(s, k + 4, IsNonSpace);
      assert s[k + 4..e][0] == s[k + 4];
      assert LiteralAt(s, k + 4, s[k + 4..e]);
  }

  /** Line 61: the registration found, or the registration sentinel when the search fails. */
  function Registration(s: string): (r: string)
  {
    match RegistrationSearch(s)
    case None => UNKNOWN_REGISTRATION
    case Some(g) => g
  }

  /** The sentinel comes out exactly when the pattern has no match: a found registration has no space. */
  lemma RegistrationSentinel(s: string)
    ensures Registration(s) == UNKNOWN_REGISTRATION <==> forall k: nat, e: nat :: !RegistrationParse(s, k, e)
  {
    RegistrationSearchNone(s);
    RegistrationSearchShape(s);
    assert UNKNOWN_REGISTRATION[7] == ' ';
  }

  /** Where the scan's matcher fires, the grammar has a one-character match. */
  lemma RegistrationAtParses(s: string, k: nat)
    ensures RegistrationAt(s, k) ==> RegistrationParse(s, k, k + 5)
  {
    if RegistrationAt(s, k) {
      assert s[k + 4..k + 5][0] == s[k + 4];
    }
  }

  lemma NoRegistrationParse(s: string)
    requires forall k :: 0 <= k < |s| ==> !RegistrationAt(s, k)
    ensures forall k: nat, e: nat :: !RegistrationParse(s, k, e)
  {
    forall k: nat, e: nat | RegistrationParse(s, k, e)
      ensures false
    {
      assert s[k + 4..e][0] == s[k + 4];
      assert RegistrationAt(s, k);
    }
  }

  /** Where the scan stops at `k`, the registration is the whole non-space run after the marker. */
  lemma RegistrationFound(s: string, k: nat)
    requires RegistrationAt(s, k)
    requires forall j :: 0 <= j < k ==> !RegistrationAt(s, j)
    ensures RegistrationSearch(s) == Some(s[k + 4..RunEnd(s, k + 4, IsNonSpace)])
  {
    LeftmostUnique(s, RegistrationAt, k);
  }

  /**
   * The registration is group 1 of the leftmost, longest match: the search takes the
   * first start that admits a match, and the greedy `+` takes the whole run.
   */
  lemma {:induction false} RegistrationLeftmostLongest(s: string, k: nat, e: nat)
    requires RegistrationParse(s, k, e)
    requires forall j: nat, f: nat :: j < k ==> !RegistrationParse(s, j, f)
    requires forall f: nat :: RegistrationParse(s, k, f) ==> f <= e
    ensures Registration(s) == s[k + 4..e]
  {
    forall j | 0 <= j < k
      ensures !RegistrationAt(s, j)
    {
      RegistrationAtParses(s, j);
    }
    assert s[k + 4..e][0] == s[k + 4];
    RegistrationFound(s, k);
    var run := RunEnd(s, k + 4, IsNonSpace);
    RunEndAll(s, k + 4, IsNonSpace);
    assert RegistrationParse(s, k, run);
    RunEndLongest(s, k + 4, IsNonSpace, e);
  }

  // ---------------------------------------------------------------- aircraft model

  /**
   * `Airbus|Boeing\s[^\s]+` can start at `k`. The alternation binds loosest, so the
   * first alternative is the bare word "Airbus" and only "Boeing" takes a token.
   */
  predicate AircraftModelAt(s: string, k: nat)
  {
    LiteralAt(s, k, AIRBUS)
    || (LiteralAt(s, k, BOEING) && k + 7 < |s| && IsSpace(s[k + 6]) && IsNonSpace(s[k + 7]))
  }

  /** Reference reading of `Airbus|Boeing\s[^\s]+`: a match from `k` to `e`. */
  ghost predicate AircraftModelParse(s: string, k: nat, e: nat)
  {
    (LiteralAt(s, k, AIRBUS) && e == k + 6)
    || (LiteralAt(s, k, BOEING) && k + 7 < e <= |s| && IsSpace(s[k + 6]) && All(s[k + 7..e], IsNonSpace))
  }

  /** The shapes a found model can take: the bare "Airbus", or "Boeing", a space and a token. */
  predicate ModelShape(r: string)
  {
    r == AIRBUS
    || (|r| > 7 && r[..6] == BOEING && IsSpace(r[6]) && All(r[7..], IsNonSpace))
  }

  /** The search for `Airbus|Boeing\s[^\s]+` of line 56: the whole first match, if any. */
  function AircraftModelSearch(s: string): (m: Option<string>)
  {
    match Leftmost(s, 0, AircraftModelAt)
    case None => None
    case Some(k) =>
      if LiteralAt(s, k, AIRBUS) then Some(s[k..k + 6]) else Some(s[k..RunEnd(s, k + 7, IsNonSpace)])
  }

  /** The search fails exactly when the pattern has no match. */
  lemma AircraftModelSearchNone(s: string)
    ensures AircraftModelSearch(s).None? <==> forall k: nat, e: nat :: !AircraftModelParse(s, k, e)
  {
    match Leftmost(s, 0, AircraftModelAt)
    case None =>
      NoAircraftModelParse(s);
    case Some(k) =>
      AircraftModelAtParses(s, k);
  }

  /** A found model is a piece of the description with one of the two shapes. */
  lemma AircraftModelSearchShape(s: string)
    ensures var m := AircraftModelSearch(s); m.Some? ==> ModelShape(m.value) && IsSubstring(m.value, s)
  {
    match Leftmost(s, 0, AircraftModelAt)
    case None =>
    case Some(k) =>
      if LiteralAt(s, k, AIRBUS) {
        assert LiteralAt(s, k, s[k..k + 6]);
      } else {
        var e := RunEnd(s, k + 7, IsNonSpace);
        RunEndAll(s, k + 7, IsNonSpace);
        assert s[k..e][..6] == s[k..k + 6];
        assert s[k..e][7..] == s[k + 7..e];
        assert LiteralAt(s, k, s[k..e]);
      }
  }

  /** Line 62: the whole model match, or the model sentinel when the search fails. */
  function AircraftModel(s: string): (r: string)
  {
    match AircraftModelSearch(s)
    case None => UNKNOWN_MODEL
    case Some(g) => g
  }

  /** The sentinel comes out exactly when the pattern has no match: a found model starts with `A` or `B`. */
  lemma AircraftModelSentinel(s: string)
    ensures AircraftModel(s) == UNKNOWN_MODEL <==> forall k: nat, e: nat :: !AircraftModelParse(s, k, e)
  {
    AircraftModelSearchNone(s);
    AircraftModelSearchShape(s);
    var m := AircraftModelSearch(s);
    if m.Some? && m.value != AIRBUS {
      assert m.value[..6][0] == m.value[0];
    }
    assert UNKNOWN_MODEL[0] == 'U';
  }

  lemma NoAircraftModelParse(s: string)
    requires forall k :: 0 <= k < |s| ==> !AircraftModelAt(s, k)
    ensures forall k: nat, e: nat :: !AircraftModelParse(s, k, e)
  {
    forall k: nat, e: nat | AircraftModelParse(s, k, e)
      ensures false
    {
      if !LiteralAt(s, k, AIRBUS) {
        assert s[k + 7..e][0] == s[k + 7];
      }
      assert AircraftModelAt(s, k);
    }
  }

  /** Where the scan's matcher fires, the grammar has a match. */
  lemma AircraftModelAtParses(s: string, k: nat)
    ensures AircraftModelAt(s, k) ==> AircraftModelParse(s, k, if LiteralAt(s, k, AIRBUS) then k + 6 else k + 8)
  {
    if AircraftModelAt(s, k) && !LiteralAt(s, k, AIRBUS) {
      assert s[k + 7..k + 8][0] == s[k + 7];
    }
  }

  /** "Airbus" and "Boeing" differ in their first letter. */
  lemma ModelInitial(s: string, k: nat)
    ensures LiteralAt(s, k, AIRBUS) ==> s[k] == 'A'
    ensures LiteralAt(s, k, BOEING) ==> s[k] == 'B'
  {
    if k + 6 <= |s| {
      assert s[k..k + 6][0] == s[k];
    }
  }

  /** Where the scan stops at `k`, the model is "Airbus" or "Boeing" plus the whole token after it. */
  lemma AircraftModelFound(s: string, k: nat)
    requires AircraftModelAt(s, k)
    requires forall j :: 0 <= j < k ==> !AircraftModelAt(s, j)
    ensures LiteralAt(s, k, AIRBUS) ==> AircraftModelSearch(s) == Some(s[k..k + 6])
    ensures !LiteralAt(s, k, AIRBUS) ==> AircraftModelSearch(s) == Some(s[k..RunEnd(s, k + 7, IsNonSpace)])
  {
    LeftmostUnique(s, AircraftModelAt, k);
  }

  /** The aircraft model is the leftmost, longest match of its pattern. */
  lemma {:induction false} AircraftModelLeftmostLongest(s: string, k: nat, e: nat)
    requires AircraftModelParse(s, k, e)
    requires forall j: nat, f: nat :: j < k ==> !AircraftModelParse(s, j, f)
    requires forall f: nat :: AircraftModelParse(s, k, f) ==> f <= e
    ensures AircraftModel(s) == s[k..e]
  {
    forall j | 0 <= j < k
      ensures !AircraftModelAt(s, j)
    {
      AircraftModelAtParses(s, j);
    }
    ModelInitial(s, k);
    if !LiteralAt(s, k, AIRBUS) {
      assert s[k + 7..e][0] == s[k + 7];
    }
    AircraftModelFound(s, k);
    if !LiteralAt(s, k, AIRBUS) {
      var run := RunEnd(s, k + 7, IsNonSpace);
      RunEndAll(s, k + 7, IsNonSpace);
      assert AircraftModelParse(s, k, run);
      RunEndLongest(s, k + 7, IsNonSpace, e);
    }
  }

  /** The alternation quirk: an Airbus type designation is never captured. */
  lemma AirbusTokenDropped()
    ensures AircraftModel("Airbus A320neo") == "Airbus"
  {
    var s := "Airbus A320neo";
    assert AircraftModelAt(s, 0);
    LeftmostUnique(s, AircraftModelAt, 0);
  }

  // ---------------------------------------------------------------- location

  /**
   * `([A-Za-z\s]+)-\s?([A-Za-z\s]+)\(` can start at `k`. Neither `-` nor `(` belongs
   * to the class, so backtracking cannot move them: group 1 runs to the end of the
   * letter/space run, a dash must stand there, and the run after the dash (which
   * swallows the optional space) must be non-empty and end at a parenthesis.
   */
  predicate LocationAt(s: string, k: nat)
  {
    k < |s| && IsLetterOrSpace(s[k]) &&
    var a := RunEnd(s, k, IsLetterOrSpace);
    a < |s| && s[a] == '-' &&
    var c := RunEnd(s, a + 1, IsLetterOrSpace);
    a + 1 < c < |s| && s[c] == '('
  }

  /**
   * Reference reading of the location pattern as a grammar: group 1 is `s[k..a]`,
   * the dash is at `a`, the optional space is `s[a + 1..b]`, group 2 is `s[b..c]`
   * and the parenthesis is at `c`; the match is `s[k..c + 1]`.
   */
  ghost predicate LocationParse(s: string, k: nat, a: nat, b: nat, c: nat)
  {
    k < a < b < c < |s| && All(s[k..a], IsLetterOrSpace) && s[a] == '-'
    && (b == a + 1 || (b == a + 2 && IsSpace(s[a + 1])))
    && All(s[b..c], IsLetterOrSpace) && s[c] == '('
  }

  /** What a found location looks like: letters and spaces, exactly one dash, a final parenthesis. */
  predicate LocationShape(r: string)
  {
    |r| >= 4 && r[|r| - 1] == '(' && Occurrences(r, '-') == 1
    && forall j :: 0 <= j < |r| - 1 && r[j] != '-' ==> IsLetterOrSpace(r[j])
  }

  /** Every parse at `k` has the same dash and the same parenthesis: the extent is fixed. */
  lemma LocationParseDetermined(s: string, k: nat, a: nat, b: nat, c: nat)
    requires LocationParse(s, k, a, b, c)
    ensures LocationAt(s, k)
    ensures a == RunEnd(s, k, IsLetterOrSpace)
    ensures c == RunEnd(s, a + 1, IsLetterOrSpace)
  {
    forall j | k <= j < a
      ensures IsLetterOrSpace(s[j])
    {
      assert s[k..a][j - k] == s[j];
    }
    RunEndUnique(s, k, IsLetterOrSpace, a);
    forall j | a + 1 <= j < c
      ensures IsLetterOrSpace(s[j])
    {
      if j >= b {
        assert s[b..c][j - b] == s[j];
      }
    }
    RunEndUnique(s, a + 1, IsLetterOrSpace, c);
    assert s[k..a][0] == s[k];
  }

  /** Conversely every scanner match is a parse with no optional space. */
  lemma LocationAtParses(s: string, k: nat)
    ensures LocationAt(s, k) ==>
      LocationParse(s, k, RunEnd(s, k, IsLetterOrSpace), RunEnd(s, k, IsLetterOrSpace) + 1,
                    RunEnd(s, RunEnd(s, k, IsLetterOrSpace) + 1, IsLetterOrSpace))
  {
    if LocationAt(s, k) {
      RunEndAll(s, k, IsLetterOrSpace);
      RunEndAll(s, RunEnd(s, k, IsLetterOrSpace) + 1, IsLetterOrSpace);
    }
  }

  lemma NoLocationParse(s: string)
    requires forall k :: 0 <= k < |s| ==> !LocationAt(s, k)
    ensures forall k: nat, a: nat, b: nat, c: nat :: !LocationParse(s, k, a, b, c)
  {
    forall k: nat, a: nat, b: nat, c: nat | LocationParse(s, k, a, b, c)
      ensures false
    {
      LocationParseDetermined(s, k, a, b, c);
    }
  }

  lemma LocationMatchShape(s: string, k: nat)
    requires LocationAt(s, k)
    ensures LocationShape(s[k..RunEnd(s, RunEnd(s, k, IsLetterOrSpace) + 1, IsLetterOrSpace) + 1])
  {
    var a := RunEnd(s, k, IsLetterOrSpace);
    var c := RunEnd(s, a + 1, IsLetterOrSpace);
    var r := s[k..c + 1];
    RunEndAll(s, k, IsLetterOrSpace);
    RunEndAll(s, a + 1, IsLetterOrSpace);
    LocationOneDash(s, k, a, c);
    forall j | 0 <= j < |r| - 1 && r[j] != '-'
      ensures IsLetterOrSpace(r[j])
    {
      assert r[j] == s[k + j];
    }
  }

  /** Two letter/space runs around one dash, closed by a parenthesis, hold exactly one dash. */
  lemma LocationOneDash(s: string, k: nat, a: nat, c: nat)
    requires k <= a < c < |s|
    requires All(s[k..a], IsLetterOrSpace) && s[a] == '-'
    requires All(s[a + 1..c], IsLetterOrSpace) && s[c] == '('
    ensures Occurrences(s[k..c + 1], '-') == 1
  {
    assert s[k..c + 1] == s[k..a] + [s[a]] + s[a + 1..c] + [s[c]];
    assert '-' !in s[k..a];
    assert '-' !in s[a + 1..c];
    OccurrencesAppend(s[k..a] + [s[a]] + s[a + 1..c], [s[c]], '-');
    OccurrencesAppend(s[k..a] + [s[a]], s[a + 1..c], '-');
    OccurrencesAppend(s[k..a], [s[a]], '-');
  }

  /** The search for `([A-Za-z\s]+)-\s?([A-Za-z\s]+)\(` of line 57: the whole first match, if any. */
  function LocationSearch(s: string): (m: Option<string>)
  {
    match Leftmost(s, 0, LocationAt)
    case None => None
    case Some(k) => Some(s[k..RunEnd(s, RunEnd(s, k, IsLetterOrSpace) + 1, IsLetterOrSpace) + 1])
  }

  /** The search fails exactly when the pattern has no parse. */
  lemma LocationSearchNone(s: string)
    ensures LocationSearch(s).None? <==> forall k: nat, a: nat, b: nat, c: nat :: !LocationParse(s, k, a, b, c)
  {
    match Leftmost(s, 0, LocationAt)
    case None =>
      NoLocationParse(s);
    case Some(k) =>
      LocationAtParses(s, k);
  }

  /** A found location is a piece of the description with the shape of a location. */
  lemma LocationSearchShape(s: string)
    ensures var m := LocationSearch(s); m.Some? ==> LocationShape(m.value) && IsSubstring(m.value, s)
  {
    match Leftmost(s, 0, LocationAt)
    case None =>
    case Some(k) =>
      var c := RunEnd(s, RunEnd(s, k, IsLetterOrSpace) + 1, IsLetterOrSpace);
      LocationMatchShape(s, k);
      assert LiteralAt(s, k, s[k..c + 1]);
  }

  /** Line 63: the whole location match, its `(` included, or the location sentinel when the search fails. */
  function Location(s: string): (r: string)
  {
    match LocationSearch(s)
    case None => UNKNOWN_LOCATION
    case Some(g) => g
  }

  /** The sentinel comes out exactly when the pattern has no match: a found location ends in `(`. */
  lemma LocationSentinel(s: string)
    ensures Location(s) == UNKNOWN_LOCATION <==> forall k: nat, a: nat, b: nat, c: nat :: !LocationParse(s, k, a, b, c)
  {
    LocationSearchNone(s);
    LocationSearchShape(s);
    assert UNKNOWN_LOCATION[|UNKNOWN_LOCATION| - 1] != '(';
  }

  /** Where the scan stops at `k`, the location runs from `k` to the parenthesis that ends the second run. */
  lemma LocationFound(s: string, k: nat)
    requires LocationAt(s, k)
    requires forall j :: 0 <= j < k ==> !LocationAt(s, j)
    ensures LocationSearch(s) == Some(s[k..RunEnd(s, RunEnd(s, k, IsLetterOrSpace) + 1, IsLetterOrSpace) + 1])
  {
    LeftmostUnique(s, LocationAt, k);
  }

  /**
   * The location is the match at the leftmost start that admits any parse, and it
   * does not depend on how that parse splits the text between the groups.
   */
  lemma {:induction false} LocationLeftmost(s: string, k: nat, a: nat, b: nat, c: nat)
    requires LocationParse(s, k, a, b, c)
    requires forall j: nat, a': nat, b': nat, c': nat :: j < k ==> !LocationParse(s, j, a', b', c')
    ensures Location(s) == s[k..c + 1]
  {
    LocationParseDetermined(s, k, a, b, c);
    NoLocationAtBefore(s, k);
    LocationFound(s, k);
    assert LocationSearch(s) == Some(s[k..c + 1]);
  }

  /** No parse starts before `k`, so the scan does not stop before `k`. */
  lemma NoLocationAtBefore(s: string, k: nat)
    requires forall j: nat, a: nat, b: nat, c: nat :: j < k ==> !LocationParse(s, j, a, b, c)
    ensures forall j :: 0 <= j < k ==> !LocationAt(s, j)
  {
    forall j | 0 <= j < k
      ensures !LocationAt(s, j)
    {
      LocationAtParses(s, j);
    }
  }

  // ---------------------------------------------------------------- airline

  /**
   * Line 60: when the description contains `REG:` anywhere, the text before its first
   * occurrence with surrounding whitespace removed; otherwise the airline sentinel.
   * The test is a plain substring test, not the registration pattern.
   */
  function Airline(s: string): (r: string)
  {
    match Leftmost(s, 0, MarkerAt)
    case None => UNKNOWN_AIRLINE
    case Some(k) => Strip(s[..k])
  }

  /** Without a marker the airline is the sentinel. */
  lemma AirlineSentinel(s: string)
    ensures (forall k :: 0 <= k < |s| ==> !MarkerAt(s, k)) ==> Airline(s) == UNKNOWN_AIRLINE
  {
  }

  /** Whatever the description, the airline never contains the marker. */
  lemma AirlineHasNoMarker(s: string)
    ensures forall j: nat :: !MarkerAt(Airline(s), j)
  {
    match Leftmost(s, 0, MarkerAt)
    case None =>
      NoColonNoMarker(UNKNOWN_AIRLINE);
    case Some(k) =>
      PrefixHasNoMarker(s, k);
  }

  /** A marker inside a slice is a marker of the whole text. */
  lemma MarkerInSlice(s: string, a: nat, b: nat, j: nat)
    requires a <= b <= |s|
    ensures MarkerAt(s[a..b], j) ==> a + j + 4 <= b && MarkerAt(s, a + j)
  {
    if MarkerAt(s[a..b], j) {
      assert j + 4 <= b - a;
      forall i | 0 <= i < 4
        ensures s[a + j + i] == MARKER[i]
      {
        assert s[a..b][j..j + 4][i] == MARKER[i];
      }
      assert s[a + j..a + j + 4] == MARKER;
    }
  }

  /** Stripping the text before the first marker cannot bring a marker into it. */
  lemma PrefixHasNoMarker(s: string, k: nat)
    requires k <= |s|
    requires forall j :: 0 <= j < k ==> !MarkerAt(s, j)
    ensures forall j: nat :: !MarkerAt(Strip(s[..k]), j)
  {
    var p := s[..k];
    var a := RunEnd(p, 0, IsSpace);
    var b := TrailingSpaceStart(p, a, |p|);
    assert Strip(p) == p[a..b];
    PrefixSlice(s, k, a, b);
    forall j: nat
      ensures !MarkerAt(s[a..b], j)
    {
      MarkerInSlice(s, a, b, j);
    }
  }

  lemma PrefixSlice(s: string, k: nat, a: nat, b: nat)
    requires a <= b <= k <= |s|
    ensures s[..k][a..b] == s[a..b]
  {
  }

  /** When a marker occurs, the airline is the stripped text before the first one. */
  lemma AirlineBeforeFirstMarker(s: string, k: nat)
    requires MarkerAt(s, k)
    requires forall j :: 0 <= j < k ==> !MarkerAt(s, j)
    ensures Airline(s) == Strip(s[..k])
  {
    LeftmostUnique(s, MarkerAt, k);
  }

  /**
   * The airline and registration tests disagree: a marker followed by a space yields
   * an airline but no registration.
   */
  lemma AirlineWithoutRegistration()
    ensures Airline("X REG: ") == "X"
    ensures Registration("X REG: ") == UNKNOWN_REGISTRATION
  {
    var s := "X REG: ";
    assert MarkerAt(s, 2);
    forall j | 0 <= j < 2
      ensures !MarkerAt(s, j)
    {
      if MarkerAt(s, j) {
        MarkerChars(s, j);
      }
    }
    AirlineBeforeFirstMarker(s, 2);
    assert RunEnd(s[..2], 0, IsSpace) == 0;
    assert TrailingSpaceStart(s[..2], 0, 2) == 1;
  }

  // ---------------------------------------------------------------- all four fields

  /** Lines 55-63: the four fields, each extracted independently from the same text. */
  function Describe(s: string): (f: Fields)
  {
    Fields(Airline(s), Registration(s), AircraftModel(s), Location(s))
  }

  // ---------------------------------------------------------------- descriptions of a known form

  /** A literal none of whose characters occurs at some index cannot occur at all. */
  lemma LiteralAbsent(s: string, lit: string, i: nat)
    requires i < |lit| && lit[i] !in s
    ensures forall j: nat :: !LiteralAt(s, j, lit)
  {
  }

  /** With no `R` before it, a marker right after `p` is the first one. */
  lemma FirstMarkerAfter(p: string, q: string)
    requires 'R' !in p
    ensures MarkerAt(p + MARKER + q, |p|)
    ensures forall j :: 0 <= j < |p| ==> !MarkerAt(p + MARKER + q, j)
  {
    var s := p + MARKER + q;
    assert s[|p|..|p| + 4] == MARKER;
    forall j | 0 <= j < |p|
      ensures !MarkerAt(s, j)
    {
      if MarkerAt(s, j) {
        MarkerChars(s, j);
      }
    }
  }

  /** A description `p + "REG:" + q` with no `R` in `p` yields the airline `Strip(p)`. */
  lemma AirlineForm(p: string, q: string)
    requires 'R' !in p
    ensures Airline(p + MARKER + q) == Strip(p)
  {
    var s := p + MARKER + q;
    FirstMarkerAfter(p, q);
    assert s[..|p|] == p;
    AirlineBeforeFirstMarker(s, |p|);
  }

  /** A marker at `k`, then a non-space run up to `e`, with no marker before `k`. */
  lemma RegistrationAtFirst(s: string, k: nat, e: nat)
    requires MarkerAt(s, k) && k + 4 < e <= |s|
    requires All(s[k + 4..e], IsNonSpace)
    requires e == |s| || IsSpace(s[e])
    requires forall j :: 0 <= j < k ==> !MarkerAt(s, j)
    ensures Registration(s) == s[k + 4..e]
  {
    assert s[k + 4..e][0] == s[k + 4];
    forall j | k + 4 <= j < e
      ensures IsNonSpace(s[j])
    {
      assert s[k + 4..e][j - (k + 4)] == s[j];
    }
    RunEndUnique(s, k + 4, IsNonSpace, e);
    RegistrationFound(s, k);
  }

  /** Where the parts of `p + "REG:" + (r + rest)` sit. */
  lemma RegistrationPieces(s: string, p: string, r: string, rest: string)
    requires s == p + MARKER + (r + rest)
    ensures s[|p| + 4..|p| + 4 + |r|] == r
    ensures |p| + 4 + |r| < |s| ==> s[|p| + 4 + |r|] == rest[0]
  {
    assert s[|p| + 4..] == r + rest;
  }

  /**
   * A description `p + "REG:" + r + rest`, with no `R` before the marker, a
   * whitespace-free `r` and `rest` empty or starting with whitespace, yields the
   * registration `r`.
   */
  lemma RegistrationForm(p: string, r: string, rest: string)
    requires 'R' !in p
    requires r != [] && All(r, IsNonSpace)
    requires rest == [] || IsSpace(rest[0])
    ensures Registration(p + MARKER + (r + rest)) == r
  {
    var s := p + MARKER + (r + rest);
    RegistrationPieces(s, p, r, rest);
    FirstMarkerAfter(p, r + rest);
    RegistrationAtFirst(s, |p|, |p| + 4 + |r|);
  }

  /** With no `B` and no "Airbus" in `x`, no model match starts inside `x` when `q` follows it. */
  lemma NoModelBefore(x: string, q: string)
    requires 'B' !in x
    requires forall j: nat :: !LiteralAt(x, j, AIRBUS)
    requires q != [] && q[0] == 'B'
    ensures forall j :: 0 <= j < |x| ==> !AircraftModelAt(x + q, j)
  {
    var s := x + q;
    var k := |x|;
    forall j | 0 <= j < k
      ensures !AircraftModelAt(s, j)
    {
      assert s[j] == x[j] && x[j] in x;
      if j + 6 <= |s| {
        assert s[j..j + 6][0] == s[j] != 'B';
        if j + 6 <= k {
          assert s[j..j + 6] == x[j..j + 6];
          assert !LiteralAt(x, j, AIRBUS);
        } else {
          assert s[j..j + 6][k - j] == s[k] == q[0] == 'B';
          assert 'B' !in AIRBUS;
        }
      }
    }
  }

  /** "Boeing", a whitespace character and a non-space run up to `e` at `k`, with no match before `k`. */
  lemma BoeingAtFirst(s: string, k: nat, e: nat)
    requires LiteralAt(s, k, BOEING) && k + 7 < e <= |s| && IsSpace(s[k + 6])
    requires All(s[k + 7..e], IsNonSpace)
    requires e == |s| || IsSpace(s[e])
    requires forall j :: 0 <= j < k ==> !AircraftModelAt(s, j)
    ensures AircraftModel(s) == s[k..e]
  {
    assert s[k + 7..e][0] == s[k + 7];
    ModelInitial(s, k);
    forall j | k + 7 <= j < e
      ensures IsNonSpace(s[j])
    {
      assert s[k + 7..e][j - (k + 7)] == s[j];
    }
    RunEndUnique(s, k + 7, IsNonSpace, e);
    AircraftModelFound(s, k);
  }

  /** Where the parts of `x + ("Boeing" + " " + (t + rest))` sit. */
  lemma BoeingPieces(s: string, x: string, t: string, rest: string)
    requires s == x + (BOEING + " " + (t + rest))
    ensures s[|x|..|x| + 6] == BOEING && s[|x| + 6] == ' '
    ensures s[|x| + 7..|x| + 7 + |t|] == t
    ensures |x| + 7 + |t| < |s| ==> s[|x| + 7 + |t|] == rest[0]
    ensures s[|x|..|x| + 7 + |t|] == BOEING + " " + t
  {
    assert s[|x|..] == BOEING + " " + (t + rest);
    assert s[|x| + 7..] == t + rest;
  }

  /**
   * A description `x + "Boeing" + " " + t + rest`, with no `B` and no "Airbus" in
   * `x`, a whitespace-free `t` and `rest` empty or starting with whitespace,
   * yields the model `"Boeing " + t`.
   */
  lemma BoeingForm(x: string, t: string, rest: string)
    requires 'B' !in x
    requires forall j: nat :: !LiteralAt(x, j, AIRBUS)
    requires t != [] && All(t, IsNonSpace)
    requires rest == [] || IsSpace(rest[0])
    ensures AircraftModel(x + (BOEING + " " + (t + rest))) == BOEING + " " + t
  {
    var s := x + (BOEING + " " + (t + rest));
    BoeingPieces(s, x, t, rest);
    NoModelBefore(x, BOEING + " " + (t + rest));
    BoeingAtFirst(s, |x|, |x| + 7 + |t|);
  }

  /** `x` ends in a character outside `[A-Za-z\s]` other than `-`, and none of its dashes starts a second group. */
  ghost predicate NoLocationIn(x: string)
  {
    && (x == [] || (!IsLetterOrSpace(x[|x| - 1]) && x[|x| - 1] != '-'))
    && forall i :: 0 <= i < |x| - 1 && x[i] == '-' ==> !IsLetterOrSpace(x[i + 1])
  }

  /** Whatever follows it, no location match starts inside a text with `NoLocationIn`. */
  lemma NoLocationBefore(x: string, q: string)
    requires NoLocationIn(x)
    ensures forall j :: 0 <= j < |x| ==> !LocationAt(x + q, j)
  {
    var s := x + q;
    var k := |x|;
    forall j | 0 <= j < k
      ensures !LocationAt(s, j)
    {
      assert s[k - 1] == x[k - 1];
      var a := RunEnd(s, j, IsLetterOrSpace);
      RunEndAll(s, j, IsLetterOrSpace);
      if a < k - 1 {
        assert s[a] == x[a] && s[a + 1] == x[a + 1];
        if s[a] == '-' {
          RunEndUnique(s, a + 1, IsLetterOrSpace, a + 1);
        }
      }
    }
  }

  /** Where the groups of `x + g1 + "-" + g2 + "(" + rest` sit. */
  lemma LocationPieces(s: string, x: string, g1: string, g2: string, rest: string)
    requires s == x + (g1 + "-" + g2 + "(" + rest)
    ensures s[|x|..|x| + |g1|] == g1
    ensures s[|x| + |g1|] == '-'
    ensures s[|x| + |g1| + 1..|x| + |g1| + 1 + |g2|] == g2
    ensures s[|x| + |g1| + 1 + |g2|] == '('
    ensures s[|x|..|x| + |g1| + 2 + |g2|] == g1 + "-" + g2 + "("
  {
    var m := g1 + "-" + g2 + "(";
    assert s[|x|..] == m + rest;
    assert s[|x|..|x| + |m|] == (m + rest)[..|m|];
  }

  /** A first group, a dash, a second group and a parenthesis at `k`, with no match before `k`. */
  lemma LocationAtFirst(s: string, k: nat, a: nat, c: nat)
    requires k < a && a + 1 < c < |s|
    requires All(s[k..a], IsLetterOrSpace) && s[a] == '-'
    requires All(s[a + 1..c], IsLetterOrSpace) && s[c] == '('
    requires forall j :: 0 <= j < k ==> !LocationAt(s, j)
    ensures Location(s) == s[k..c + 1]
  {
    LocationSearchAt(s, k, a, c);
  }

  lemma LocationSearchAt(s: string, k: nat, a: nat, c: nat)
    requires LocationParse(s, k, a, a + 1, c)
    requires forall j :: 0 <= j < k ==> !LocationAt(s, j)
    ensures LocationSearch(s) == Some(s[k..c + 1])
  {
    LocationParseDetermined(s, k, a, a + 1, c);
    LocationFound(s, k);
  }

  /**
   * A description `x + g1 + "-" + g2 + "(" + rest` with `NoLocationIn(x)` and
   * non-empty letter/space runs `g1` and `g2` yields the location
   * `g1 + "-" + g2 + "("`, leading whitespace of `g1` included.
   */
  lemma LocationForm(x: string, g1: string, g2: string, rest: string)
    requires NoLocationIn(x)
    requires g1 != [] && All(g1, IsLetterOrSpace)
    requires g2 != [] && All(g2, IsLetterOrSpace)
    ensures Location(x + (g1 + "-" + g2 + "(" + rest)) == g1 + "-" + g2 + "("
  {
    var s := x + (g1 + "-" + g2 + "(" + rest);
    LocationPieces(s, x, g1, g2, rest);
    NoLocationBefore(x, g1 + "-" + g2 + "(" + rest);
    LocationAtFirst(s, |x|, |x| + |g1|, |x| + |g1| + 1 + |g2|);
  }

  /** A description with no colon, no dash, no `B` and no `u` yields the four sentinels. */
  lemma SentinelForm(s: string)
    requires ':' !in s && '-' !in s && 'B' !in s && 'u' !in s
    ensures Describe(s) == Fields(UNKNOWN_AIRLINE, UNKNOWN_REGISTRATION, UNKNOWN_MODEL, UNKNOWN_LOCATION)
  {
    NoColonNoMarker(s);
    assert forall k :: 0 <= k < |s| ==> !RegistrationAt(s, k);
    assert forall k :: 0 <= k < |s| ==> !MarkerAt(s, k);
    LiteralAbsent(s, AIRBUS, 4);
    LiteralAbsent(s, BOEING, 0);
    assert forall k :: 0 <= k < |s| ==> !AircraftModelAt(s, k);
  }

  /** A description with no marker at all. */
  lemma SentinelScenario()
    ensures Describe("Unknown livery info")
      == Fields(UNKNOWN_AIRLINE, UNKNOWN_REGISTRATION, UNKNOWN_MODEL, UNKNOWN_LOCATION)
  {
    SentinelForm("Unknown livery info");
  }

  /** "Delta Air Lines REG:N123DL Boeing 737-800 Atlanta-USA(KATL)", written in pieces. */
  const DELTA := "Delta Air Lines " + "REG:" + "N123DL" + " " + "Boeing" + " " + "737" + "-800"
                 + " Atlanta" + "-" + "USA" + "(" + "KATL)"

  lemma DeltaAirline()
    ensures Airline(DELTA) == "Delta Air Lines"
  {
    var p := "Delta Air Lines ";
    var q := "N123DL" + " " + "Boeing" + " " + "737" + "-800" + " Atlanta" + "-" + "USA" + "(" + "KATL)";
    assert DELTA == p + MARKER + q;
    AirlineForm(p, q);
    DeltaStrip();
  }

  lemma DeltaStrip()
    ensures Strip("Delta Air Lines ") == "Delta Air Lines"
  {
    var p := "Delta Air Lines ";
    assert RunEnd(p, 0, IsSpace) == 0;
    assert TrailingSpaceStart(p, 0, 16) == 15;
  }

  lemma DeltaRegistration()
    ensures Registration(DELTA) == "N123DL"
  {
    var p, r := "Delta Air Lines ", "N123DL";
    var rest := " " + "Boeing" + " " + "737" + "-800" + " Atlanta" + "-" + "USA" + "(" + "KATL)";
    assert rest[0] == ' ';
    assert DELTA == p + MARKER + (r + rest);
    RegistrationForm(p, r, rest);
  }

  lemma DeltaModel()
    ensures AircraftModel(DELTA) == "Boeing 737-800"
  {
    var x := "Delta Air Lines " + "REG:" + "N123DL" + " ";
    var t := "737" + "-800";
    var rest := " Atlanta" + "-" + "USA" + "(" + "KATL)";
    DeltaModelToken();
    DeltaModelSplit(x, t, rest);
    DeltaModelPrefix(x);
    BoeingForm(x, t, rest);
  }

  lemma DeltaModelSplit(x: string, t: string, rest: string)
    requires x == "Delta Air Lines " + "REG:" + "N123DL" + " "
    requires t == "737" + "-800"
    requires rest == " Atlanta" + "-" + "USA" + "(" + "KATL)"
    ensures DELTA == x + (BOEING + " " + (t + rest))
    ensures IsSpace(rest[0])
    ensures BOEING + " " + t == "Boeing 737-800"
  {
  }

  lemma DeltaModelToken()
    ensures All("737" + "-800", IsNonSpace)
  {
    var t := "737" + "-800";
    assert t[0] == '7' && t[1] == '3' && t[2] == '7' && t[3] == '-';
    assert t[4] == '8' && t[5] == '0' && t[6] == '0';
  }

  lemma DeltaModelPrefix(x: string)
    requires x == "Delta Air Lines " + "REG:" + "N123DL" + " "
    ensures 'B' !in x
    ensures forall j: nat :: !LiteralAt(x, j, AIRBUS)
  {
    assert 'u' !in x && 'B' !in x;
    LiteralAbsent(x, AIRBUS, 4);
  }

  lemma DeltaLocation()
    ensures Location(DELTA) == " Atlanta" + "-" + "USA" + "("
  {
    var x1 := "Delta Air Lines " + "REG:" + "N123DL" + " " + "Boeing" + " " + "737";
    var x2 := "-800";
    assert '-' !in x1;
    var x := x1 + x2;
    assert DELTA == x + (" Atlanta" + "-" + "USA" + "(" + "KATL)");
    assert x2[1] == '8' && x2[2] == '0' && x2[3] == '0';
    forall i | 0 <= i < |x| - 1 && x[i] == '-'
      ensures !IsLetterOrSpace(x[i + 1])
    {
      if i >= |x1| {
        assert x[i] == x2[i - |x1|] && x[i + 1] == x2[i + 1 - |x1|];
      }
    }
    assert x[|x| - 1] == x2[3];
    assert NoLocationIn(x);
    LocationForm(x, " Atlanta", "USA", "KATL)");
  }

  /**
   * A full description. The location match starts at the start of the letter/space
   * run before the dash, so it keeps the space in front of "Atlanta".
   */
  lemma DeltaScenario()
    ensures Describe(DELTA) == Fields("Delta Air Lines", "N123DL", "Boeing 737-800", " Atlanta" + "-" + "USA" + "(")
  {
    DeltaAirline();
    DeltaRegistration();
    DeltaModel();
    DeltaLocation();
  }
}
