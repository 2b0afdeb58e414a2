/**
 * Character classes and scanning primitives shared by the field extractors.
 *
 * Whitespace assumption: Python's `\s` in a str pattern and `str.strip()` both
 * accept every Unicode whitespace character. This model fixes one predicate,
 * IsSpace, to six ASCII characters (space, tab, newline, carriage return,
 * vertical tab, form feed) and uses it for both; the separators U+001C to U+001F
 * and the non-ASCII whitespace that Python also accepts are left out.
 */
module Text {

  import opened Wrappers

  /** Space, tab, newline, carriage return, vertical tab, form feed. */
  predicate IsSpace(c: char)
  {
    c == ' ' || c == '\t' || c == '\n' || c == '\r' || c == '\U{000B}' || c == '\U{000C}'
  }

  /** The class `[^\s]`. */
  predicate IsNonSpace(c: char)
  {
    !IsSpace(c)
  }

  /** `A-Z` and `a-z`: the regex class has no case-insensitive flag and no Unicode letters. */
  predicate IsAsciiLetter(c: char)
  {
    ('A' <= c <= 'Z') || ('a' <= c <= 'z')
  }

  /** The class `[A-Za-z\s]`. */
  predicate IsLetterOrSpace(c: char)
  {
    IsAsciiLetter(c) || IsSpace(c)
  }

  /** Every character of `s` belongs to class `p`. */
  predicate All(s: seq<char>, p: char -> bool)
  {
    forall j :: 0 <= j < |s| ==> p(s[j])
  }

  /** How many times `c` occurs in `s`. */
  function Occurrences(s: seq<char>, c: char): (n: nat)
    ensures n <= |s|
    ensures n == 0 <==> c !in s
  {
    if s == [] then 0 else Occurrences(s[..|s| - 1], c) + (if s[|s| - 1] == c then 1 else 0)
  }

  lemma {:induction false} OccurrencesAppend(s: seq<char>, t: seq<char>, c: char)
    ensures Occurrences(s + t, c) == Occurrences(s, c) + Occurrences(t, c)
    decreases |t|
  {
    if t != [] {
      assert (s + t)[..|s + t| - 1] == s + t[..|t| - 1];
      OccurrencesAppend(s, t[..|t| - 1], c);
    } else {
      assert s + t == s;
    }
  }

  /** `lit` occurs in `s` starting at position `k`. */
  predicate LiteralAt(s: seq<char>, k: nat, lit: seq<char>)
  {
    k + |lit| <= |s| && s[k..k + |lit|] == lit
  }

  /** `t` is a contiguous substring of `s`. */
  ghost predicate IsSubstring(t: seq<char>, s: seq<char>)
  {
    exists k: nat :: LiteralAt(s, k, t)
  }

  /**
   * End of the maximal run of class-`p` characters that starts at `i`: what a greedy
   * `p+` or `p*` consumes when nothing after it can force it to give characters back.
   */
  function RunEnd(s: seq<char>, i: nat, p: char -> bool): (e: nat)
    requires i <= |s|
    ensures i <= e <= |s|
    ensures e == |s| || !p(s[e])
    decreases |s| - i
  {
    if i < |s| && p(s[i]) then RunEnd(s, i + 1, p) else i
  }

  /** Everything a run passes over is in its class. */
  lemma {:induction false} RunEndAll(s: seq<char>, i: nat, p: char -> bool)
    requires i <= |s|
    ensures forall j :: i <= j < RunEnd(s, i, p) ==> p(s[j])
    ensures All(s[i..RunEnd(s, i, p)], p)
    decreases |s| - i
  {
    if i < |s| && p(s[i]) {
      RunEndAll(s, i + 1, p);
    }
  }

  /** A run is determined by its class: any end that is all-`p` and stopped is RunEnd. */
  lemma {:induction false} RunEndUnique(s: seq<char>, i: nat, p: char -> bool, e: nat)
    requires i <= e <= |s|
    requires forall j :: i <= j < e ==> p(s[j])
    requires e == |s| || !p(s[e])
    ensures RunEnd(s, i, p) == e
    decreases e - i
  {
    if i < e {
      RunEndUnique(s, i + 1, p, e);
    }
  }

  /** A greedy run reaches at least as far as any all-`p` stretch from the same start. */
  lemma {:induction false} RunEndLongest(s: seq<char>, i: nat, p: char -> bool, e: nat)
    requires i <= e <= |s|
    requires All(s[i..e], p)
    ensures e <= RunEnd(s, i, p)
    decreases e - i
  {
    if i < e {
      assert s[i..e][0] == s[i];
      assert s[i + 1..e] == s[i..e][1..];
      RunEndLongest(s, i + 1, p, e);
      assert RunEnd(s, i, p) == RunEnd(s, i + 1, p);
    }
  }

  /**
   * Leftmost position at or after `i` where the matcher `m` succeeds: the order in
   * which a regex search tries its start positions.
   */
  function Leftmost(s: seq<char>, i: nat, m: (seq<char>, nat) -> bool): (r: Option<nat>)
    requires i <= |s|
    ensures r.Some? ==> i <= r.value < |s| && m(s, r.value)
    ensures r.Some? ==> forall k :: i <= k < r.value ==> !m(s, k)
    ensures r.None? ==> forall k :: i <= k < |s| ==> !m(s, k)
    decreases |s| - i
  {
    if i == |s| then None
    else if m(s, i) then Some(i)
    else Leftmost(s, i + 1, m)
  }

  /** Any position that matches with no match before it is what Leftmost finds. */
  lemma LeftmostUnique(s: seq<char>, m: (seq<char>, nat) -> bool, k: nat)
    requires k < |s| && m(s, k)
    requires forall j :: 0 <= j < k ==> !m(s, j)
    ensures Leftmost(s, 0, m) == Some(k)
  {
  }

  /**
   * Start of the trailing whitespace of `s[lo..j]`: the largest `b` in `[lo, j]`
   * such that `s[b..j]` is all whitespace.
   */
  function TrailingSpaceStart(s: seq<char>, lo: nat, j: nat): (b: nat)
    requires lo <= j <= |s|
    ensures lo <= b <= j
    ensures All(s[b..j], IsSpace)
    ensures b == lo || !IsSpace(s[b - 1])
    decreases j
  {
    if j == lo || !IsSpace(s[j - 1]) then j
    else
      var b := TrailingSpaceStart(s, lo, j - 1);
      assert s[b..j] == s[b..j - 1] + [s[j - 1]];
      b
  }

  /** Python's `str.strip()` with no argument: leading and trailing whitespace removed. */
  function Strip(s: seq<char>): (r: seq<char>)
  {
    var a := RunEnd(s, 0, IsSpace);
    s[a..TrailingSpaceStart(s, a, |s|)]
  }

  /** Only whitespace is removed, and all of it from both ends. */
  lemma StripSpec(s: seq<char>)
    ensures exists a: nat, b: nat ::
      a <= b <= |s| && Strip(s) == s[a..b] && All(s[..a], IsSpace) && All(s[b..], IsSpace)
    ensures var r := Strip(s); r == [] || (!IsSpace(r[0]) && !IsSpace(r[|r| - 1]))
  {
    var a := RunEnd(s, 0, IsSpace);
    var b := TrailingSpaceStart(s, a, |s|);
    RunEndAll(s, 0, IsSpace);
    assert All(s[..a], IsSpace) && All(s[b..], IsSpace);
  }

  /** Stripping twice is stripping once. */
  lemma StripIdempotent(s: seq<char>)
    ensures Strip(Strip(s)) == Strip(s)
  {
    var t := Strip(s);
    if t != [] {
      RunEndUnique(t, 0, IsSpace, 0);
      assert TrailingSpaceStart(t, 0, |t|) == |t|;
    } else {
      assert Strip(t) == [];
    }
  }
}
