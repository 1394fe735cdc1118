/** The two fixed regular expressions that card.ts applies to a Source
    string, modelled as leftmost-match scans over a character sequence.

    A JavaScript `String.prototype.match` with a non-global pattern tries
    the start positions 0, 1, 2, ... in turn and returns the first match it
    finds; at one start position a greedy quantifier prefers the longest run
    it can extend to a full match. Each pattern below is given twice: as a
    declarative predicate saying which spans are matches, and as a scan that
    computes the leftmost one. The scans are proved against the predicates. */
module Patterns {
  import opened Completions

  /** The first index at or after `from` whose character is in `stops`,
      or |s| when there is none: where a greedy run of characters outside
      `stops` that starts at `from` has to end. */
  function RunEnd(s: string, from: nat, stops: set<char>): (r: nat)
    requires from <= |s|
    ensures from <= r <= |s|
    ensures forall k :: from <= k < r ==> s[k] !in stops
    ensures r == |s| || s[r] in stops
    decreases |s| - from
  {
    if from == |s| || s[from] in stops then from else RunEnd(s, from + 1, stops)
  }

  /** A run that stops at the first character of `stops` is the only run
      with that property. */
  lemma RunEndUnique(s: string, from: nat, stops: set<char>, q: nat)
    requires from <= q <= |s|
    requires forall k :: from <= k < q ==> s[k] !in stops
    requires q == |s| || s[q] in stops
    ensures q == RunEnd(s, from, stops)
  {
  }

  // ---------------------------------------------------------------------
  // /\[\[([^\]]+)\]\]/  (card.ts line 96)
  // ---------------------------------------------------------------------

  /** The characters the capture group `[^\]]+` may not contain. */
  const WikiStops: set<char> := {']'}

  /** s[i..j + 2] is a match of /\[\[([^\]]+)\]\]/ whose capture is
      s[i + 2..j]: two opening brackets, a nonempty run without `]`, and two
      closing brackets. The capture may contain `[`, `#` and `^`. */
  predicate WikiMatch(s: string, i: int, j: int) {
    0 <= i && i + 2 < j && j + 2 <= |s| &&
    s[i] == '[' && s[i + 1] == '[' && s[j] == ']' && s[j + 1] == ']' &&
    forall k :: i + 2 <= k < j ==> s[k] != ']'
  }

  /** The match that `String.prototype.match` reports: no match starts
      further left. */
  ghost predicate LeftmostWiki(s: string, i: int, j: int) {
    WikiMatch(s, i, j) && forall p, q :: 0 <= p < i ==> !WikiMatch(s, p, q)
  }

  /** The string holds no match of the wiki-link pattern at all. */
  ghost predicate NoWiki(s: string) {
    forall i, j :: !WikiMatch(s, i, j)
  }

  /** At one start position the wiki pattern has at most one match: the
      capture must stop at the first `]`. */
  lemma WikiMatchEnd(s: string, i: int, j: int)
    requires WikiMatch(s, i, j)
    ensures j == RunEnd(s, i + 2, WikiStops)
  {
    RunEndUnique(s, i + 2, WikiStops, j);
  }

  /** The leftmost wiki match starting at or after `i`, as the pair
      (start, end of capture). */
  function WikiScan(s: string, i: nat): (r: Option<(nat, nat)>)
    requires i <= |s|
    ensures r.Some? ==> i <= r.value.0 && WikiMatch(s, r.value.0, r.value.1)
    ensures r.Some? ==> forall p, q :: i <= p < r.value.0 ==> !WikiMatch(s, p, q)
    ensures r.None? ==> forall p, q :: i <= p ==> !WikiMatch(s, p, q)
    decreases |s| - i
  {
    if i + 1 >= |s| then None
    else if s[i] == '[' && s[i + 1] == '[' then
      var j := RunEnd(s, i + 2, WikiStops);
      if i + 2 < j && j + 1 < |s| && s[j + 1] == ']' then Some((i, j))
      else
        assert forall q :: !WikiMatch(s, i, q) by {
          forall q | WikiMatch(s, i, q) ensures false {
            WikiMatchEnd(s, i, q);
          }
        }
        WikiScan(s, i + 1)
    else WikiScan(s, i + 1)
  }

  /** Group 1 of the leftmost match of /\[\[([^\]]+)\]\]/, or None when the
      pattern does not match. */
  function WikiCapture(s: string): (r: Option<string>)
    ensures r.None? <==> NoWiki(s)
    ensures r.Some? ==> exists i, j :: LeftmostWiki(s, i, j) && r.value == s[i + 2..j]
    ensures forall i, j :: LeftmostWiki(s, i, j) ==> r == Some(s[i + 2..j])
  {
    match WikiScan(s, 0)
    case None => None
    case Some((i, j)) =>
      assert forall p, q :: LeftmostWiki(s, p, q) ==> p == i && q == j by {
        forall p, q | LeftmostWiki(s, p, q) ensures p == i && q == j {
          WikiMatchEnd(s, p, q);
          WikiMatchEnd(s, i, j);
        }
      }
      assert LeftmostWiki(s, i, j);
      Some(s[i + 2..j])
  }

  // ---------------------------------------------------------------------
  // /file=([^#&]+)/  (card.ts line 102)
  // ---------------------------------------------------------------------

  /** The characters the capture group `[^#&]+` may not contain. */
  const UrlStops: set<char> := {'#', '&'}

  /** The literal `file=` starts at position p of s. */
  predicate FileKeyAt(s: string, p: int) {
    0 <= p && p + 5 <= |s| &&
    s[p] == 'f' && s[p + 1] == 'i' && s[p + 2] == 'l' && s[p + 3] == 'e' && s[p + 4] == '='
  }

  /** s[i..j] is the match of /file=([^#&]+)/ that the greedy quantifier
      picks at start position i: the literal `file=` followed by the longest
      nonempty run without `#` or `&`, which is s[i + 5..j]. */
  predicate UrlMatch(s: string, i: int, j: int) {
    i + 5 < j <= |s| && FileKeyAt(s, i) &&
    (forall k :: i + 5 <= k < j ==> s[k] != '#' && s[k] != '&') &&
    (j == |s| || s[j] == '#' || s[j] == '&')
  }

  /** The URL match that `String.prototype.match` reports. */
  ghost predicate LeftmostUrl(s: string, i: int, j: int) {
    UrlMatch(s, i, j) && forall p, q :: 0 <= p < i ==> !UrlMatch(s, p, q)
  }

  /** The string holds no match of the URL pattern at all. */
  ghost predicate NoUrl(s: string) {
    forall i, j :: !UrlMatch(s, i, j)
  }

  /** At one start position the greedy URL pattern picks one end only. */
  lemma UrlMatchEnd(s: string, i: int, j: int)
    requires UrlMatch(s, i, j)
    ensures j == RunEnd(s, i + 5, UrlStops)
  {
    RunEndUnique(s, i + 5, UrlStops, j);
  }

  /** The leftmost URL match starting at or after `i`, as the pair
      (start, end of capture). */
  function UrlScan(s: string, i: nat): (r: Option<(nat, nat)>)
    requires i <= |s|
    ensures r.Some? ==> i <= r.value.0 && UrlMatch(s, r.value.0, r.value.1)
    ensures r.Some? ==> forall p, q :: i <= p < r.value.0 ==> !UrlMatch(s, p, q)
    ensures r.None? ==> forall p, q :: i <= p ==> !UrlMatch(s, p, q)
    decreases |s| - i
  {
    if i + 5 >= |s| then None
    else if FileKeyAt(s, i) then
      var j := RunEnd(s, i + 5, UrlStops);
      if i + 5 < j then Some((i, j))
      else
        assert forall q :: !UrlMatch(s, i, q) by {
          forall q | UrlMatch(s, i, q) ensures false {
            UrlMatchEnd(s, i, q);
          }
        }
        UrlScan(s, i + 1)
    else UrlScan(s, i + 1)
  }

  /** Group 1 of the leftmost match of /file=([^#&]+)/, or None when the
      pattern does not match. */
  function UrlCapture(s: string): (r: Option<string>)
    ensures r.None? <==> NoUrl(s)
    ensures r.Some? ==> exists i, j :: LeftmostUrl(s, i, j) && r.value == s[i + 5..j]
    ensures forall i, j :: LeftmostUrl(s, i, j) ==> r == Some(s[i + 5..j])
  {
    match UrlScan(s, 0)
    case None => None
    case Some((i, j)) =>
      assert forall p, q :: LeftmostUrl(s, p, q) ==> p == i && q == j by {
        forall p, q | LeftmostUrl(s, p, q) ensures p == i && q == j {
          UrlMatchEnd(s, p, q);
          UrlMatchEnd(s, i, j);
        }
      }
      assert LeftmostUrl(s, i, j);
      Some(s[i + 5..j])
  }
}
