/** Locating `do_math(...)` in a declaration value or a media query: the first
    match of `/do_math\((.*)\)/` (declarations) or `/do_math\((.*)\)(?=\))/`
    (media queries), searched from the start of the text. `.` does not match
    line terminators, and `.*` is greedy, so the capture runs to the last
    closing parenthesis on the line that the pattern accepts. */
module Locator {
  import opened Text

  /** The two patterns: close at the last `)` of the line, or at the last `)`
      that is itself followed by `)`. */
  datatype Mode = ToLastParen | BeforeParen

  const Marker: string := "do_math("

  /** A located match: the full match is `s[start..close + 1]`, the capture
      `s[start + 8..close]`. */
  datatype Match = Match(start: nat, close: nat)

  /** The first line terminator at or after `i`, or the end of the text. */
  function LineEnd(s: string, i: nat): (e: nat)
    requires i <= |s|
    ensures i <= e <= |s|
    ensures forall k :: i <= k < e ==> !IsLineTerminator(s[k])
    ensures e == |s| || IsLineTerminator(s[e])
    decreases |s| - i
  {
    if i == |s| || IsLineTerminator(s[i]) then i else LineEnd(s, i + 1)
  }

  /** The pattern can end with the `)` at `j`. */
  predicate Closes(s: string, j: nat, mode: Mode)
  {
    j < |s| && s[j] == ')' && (mode.BeforeParen? ==> j + 1 < |s| && s[j + 1] == ')')
  }

  /** The last position in `[lo, hi)` where the pattern can close. */
  function LastClose(s: string, lo: nat, hi: nat, mode: Mode): (r: Option<nat>)
    requires lo <= hi <= |s|
    ensures r.Some? ==> lo <= r.value < hi && Closes(s, r.value, mode)
    ensures r.Some? ==> forall k :: r.value < k < hi ==> !Closes(s, k, mode)
    ensures r.None? ==> forall k :: lo <= k < hi ==> !Closes(s, k, mode)
    decreases hi - lo
  {
    if hi == lo then None
    else if Closes(s, hi - 1, mode) then Some(hi - 1)
    else LastClose(s, lo, hi - 1, mode)
  }

  /** Where the match starting at `p` closes, if the pattern matches at `p`:
      the greedy `.*` takes the whole line and backs off to the last `)` the
      pattern accepts. */
  function MatchAt(s: string, p: nat, mode: Mode): Option<nat>
  {
    if OccursAt(s, Marker, p) then LastClose(s, p + 8, LineEnd(s, p + 8), mode) else None
  }

  /** The leftmost match at or after `from` (`exec` with `lastIndex` at `from`). */
  function FirstMatch(s: string, from: nat, mode: Mode): (r: Option<Match>)
    ensures r.Some? ==> from <= r.value.start && MatchAt(s, r.value.start, mode) == Some(r.value.close)
    ensures r.Some? ==> forall q :: from <= q < r.value.start ==> MatchAt(s, q, mode).None?
    ensures r.None? ==> forall q :: from <= q ==> MatchAt(s, q, mode).None?
    decreases |s| - from
  {
    if from >= |s| then None
    else match MatchAt(s, from, mode)
      case Some(j) => Some(Match(from, j))
      case None => FirstMatch(s, from + 1, mode)
  }

  /** `match[0]`. */
  function FullMatch(s: string, m: Match): string
    requires m.start <= m.close < |s|
  {
    s[m.start..m.close + 1]
  }

  /** `match[1]`. */
  function Capture(s: string, m: Match): string
    requires m.start + 8 <= m.close < |s|
  {
    s[m.start + 8..m.close]
  }

  /** What a match is: the marker, a capture on one line, then a `)` the
      pattern accepts, and no later `)` on that line that it would accept
      (the capture is the longest possible). */
  lemma MatchShape(s: string, p: nat, mode: Mode)
    requires MatchAt(s, p, mode).Some?
    ensures var j := MatchAt(s, p, mode).value;
      && p + 8 <= j < |s|
      && FullMatch(s, Match(p, j)) == Marker + Capture(s, Match(p, j)) + ")"
      && (forall k :: p + 8 <= k < j ==> !IsLineTerminator(s[k]))
      && Closes(s, j, mode)
      && (forall k :: j < k < |s| && Closes(s, k, mode) ==> exists t :: p + 8 <= t < k && IsLineTerminator(s[t]))
  {
    var j := MatchAt(s, p, mode).value;
    var e := LineEnd(s, p + 8);
    assert s[p..p + 8] == Marker;
    assert s[p..j + 1] == s[p..p + 8] + s[p + 8..j] + [s[j]];
    forall k | j < k < |s| && Closes(s, k, mode) ensures exists t :: p + 8 <= t < k && IsLineTerminator(s[t]) {
      assert k >= e;
      assert IsLineTerminator(s[e]);
    }
  }

  /** A match needs the marker: without `do_math(` there is none. */
  lemma MatchNeedsMarker(s: string, mode: Mode)
    ensures FirstMatch(s, 0, mode).Some? ==> Contains(s, Marker)
  {
    var r := FirstMatch(s, 0, mode);
    if r.Some? {
      ContainsIff(s, Marker);
      assert OccursAt(s, Marker, r.value.start);
    }
  }

  /** The text of a match, wherever it occurs, is itself a place where the
      first pattern matches. */
  lemma OccurrenceMatches(s: string, m: Match, q: nat)
    requires MatchAt(s, m.start, ToLastParen) == Some(m.close)
    ensures m.start + 8 <= m.close < |s|
    ensures OccursAt(s, FullMatch(s, m), q) ==> MatchAt(s, q, ToLastParen).Some?
  {
    MatchShape(s, m.start, ToLastParen);
    var f := FullMatch(s, m);
    if OccursAt(s, f, q) {
      var j := q + |f| - 1;
      assert s[q..q + 8] == f[..8] == Marker;
      CopyOnOneLine(s, m, q);
      assert s[j] == f[|f| - 1] == ')';
      var e := LineEnd(s, q + 8);
      assert j < e;
      assert Closes(s, j, ToLastParen);
    }
  }

  /** A copy of a match's text has no line terminator before its last `)`. */
  lemma CopyOnOneLine(s: string, m: Match, q: nat)
    requires m.start + 8 <= m.close < |s|
    requires forall k :: m.start + 8 <= k < m.close ==> !IsLineTerminator(s[k])
    requires OccursAt(s, FullMatch(s, m), q)
    ensures forall k :: q + 8 <= k < q + |FullMatch(s, m)| - 1 ==> !IsLineTerminator(s[k])
  {
    var f := FullMatch(s, m);
    forall k | q + 8 <= k < q + |f| - 1 ensures !IsLineTerminator(s[k]) {
      assert s[k] == s[q..q + |f|][k - q] == f[k - q] == s[m.start + (k - q)];
    }
  }

  /** For declarations, the first occurrence of the full match in the text is
      the match itself: an earlier copy of that text would have matched first. */
  lemma FirstOccurrenceIsMatch(s: string)
    requires FirstMatch(s, 0, ToLastParen).Some?
    ensures var m := FirstMatch(s, 0, ToLastParen).value;
      m.start + 8 <= m.close < |s| && IndexOf(s, FullMatch(s, m)) == Some(m.start)
  {
    MatchIsFirstOccurrence(s, FirstMatch(s, 0, ToLastParen).value);
  }

  lemma MatchIsFirstOccurrence(s: string, m: Match)
    requires FirstMatch(s, 0, ToLastParen) == Some(m)
    ensures m.start + 8 <= m.close < |s| && IndexOf(s, FullMatch(s, m)) == Some(m.start)
  {
    NoEarlierCopies(s, m);
    MatchOccurs(s, m);
    IndexOfIs(s, FullMatch(s, m), m.start);
  }

  lemma MatchOccurs(s: string, m: Match)
    requires m.start <= m.close < |s|
    ensures OccursAt(s, FullMatch(s, m), m.start)
  {
  }

  lemma NoEarlierCopies(s: string, m: Match)
    requires FirstMatch(s, 0, ToLastParen) == Some(m)
    ensures m.start + 8 <= m.close < |s|
    ensures forall q: nat :: q < m.start ==> !OccursAt(s, FullMatch(s, m), q)
  {
    OccurrenceMatches(s, m, m.start);
    forall q: nat | q < m.start ensures !OccursAt(s, FullMatch(s, m), q) {
      NoEarlierCopy(s, m, q);
    }
  }


  lemma NoEarlierCopy(s: string, m: Match, q: nat)
    requires FirstMatch(s, 0, ToLastParen) == Some(m) && q < m.start
    ensures m.start + 8 <= m.close < |s| && !OccursAt(s, FullMatch(s, m), q)
  {
    assert MatchAt(s, q, ToLastParen).None?;
    OccurrenceMatches(s, m, q);
  }

}
