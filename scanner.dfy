/** The unit tokens of an expression: the matches of `/([0-9.]+)([a-z%]+)/gi`,
    found left to right without overlap, and the facts about them that decide
    where `replace` puts a token's rewritten text. */
module UnitScan {
  import opened Text

  /** One match: where it starts, its number part and its unit part as written. */
  datatype Token = Token(start: nat, digits: string, unit: string)
  {
    /** The matched text. */
    function Lexeme(): string { digits + unit }

    function End(): nat { start + |digits| + |unit| }
  }

  /** The length of the run of `[0-9.]` characters starting at `i`. */
  function NumRun(s: string, i: nat): (n: nat)
    requires i <= |s|
    ensures i + n <= |s|
    ensures forall j :: i <= j < i + n ==> IsNumChar(s[j])
    ensures i + n == |s| || !IsNumChar(s[i + n])
    decreases |s| - i
  {
    if i < |s| && IsNumChar(s[i]) then 1 + NumRun(s, i + 1) else 0
  }

  /** The length of the run of `[a-z%]` characters (either case) starting at `i`. */
  function UnitRun(s: string, i: nat): (n: nat)
    requires i <= |s|
    ensures i + n <= |s|
    ensures forall j :: i <= j < i + n ==> IsUnitChar(s[j])
    ensures i + n == |s| || !IsUnitChar(s[i + n])
    decreases |s| - i
  {
    if i < |s| && IsUnitChar(s[i]) then 1 + UnitRun(s, i + 1) else 0
  }

  /** The pattern matches at `q`: a greedy run of `[0-9.]` followed by at least
      one unit character (backtracking into the run cannot help, because a
      shorter run is followed by `[0-9.]`). */
  predicate MatchesAt(s: string, q: nat)
  {
    q < |s| && IsNumChar(s[q]) && q + NumRun(s, q) < |s| && IsUnitChar(s[q + NumRun(s, q)])
  }

  function TokenAt(s: string, q: nat): (t: Token)
    requires MatchesAt(s, q)
  {
    var r := q + NumRun(s, q);
    Token(q, s[q..r], s[r..r + UnitRun(s, r)])
  }

  predicate IsTokenAt(s: string, t: Token)
  {
    MatchesAt(s, t.start) && t == TokenAt(s, t.start)
  }

  /** No match starts in `[lo, hi)`. */
  predicate GapFree(s: string, lo: nat, hi: nat)
  {
    forall q :: lo <= q < hi ==> !MatchesAt(s, q)
  }

  /** Where the search for the `k`-th token started. */
  function SearchFrom(toks: seq<Token>, from: nat, k: nat): nat
    requires k <= |toks|
  {
    if k == 0 then from else toks[k - 1].End()
  }

  /** `toks` is what a global search of `s` from `from` finds: each is a match,
      each is the first match after the previous one, and none follows the last. */
  predicate ScanOf(s: string, from: nat, toks: seq<Token>)
  {
    && (forall k :: 0 <= k < |toks| ==> IsTokenAt(s, toks[k]))
    && (forall k :: 0 <= k < |toks| ==>
          SearchFrom(toks, from, k) <= toks[k].start && GapFree(s, SearchFrom(toks, from, k), toks[k].start))
    && SearchFrom(toks, from, |toks|) <= |s|
    && GapFree(s, SearchFrom(toks, from, |toks|), |s|)
  }

  /** `s.match(/([0-9.]+)([a-z%]+)/gi)` from position `from`. */
  function ScanFrom(s: string, from: nat): (toks: seq<Token>)
    requires from <= |s|
    ensures ScanOf(s, from, toks)
    decreases |s| - from
  {
    if from == |s| then []
    else if MatchesAt(s, from) then
      var t := TokenAt(s, from);
      TokenAtEnd(s, from);
      var rest := ScanFrom(s, t.End());
      ScanCons(s, from, rest);
      [t] + rest
    else
      var rest := ScanFrom(s, from + 1);
      ScanSkip(s, from, rest);
      rest
  }

  lemma TokenAtEnd(s: string, q: nat)
    requires MatchesAt(s, q)
    ensures q < TokenAt(s, q).End() <= |s|
    ensures TokenAt(s, q).start == q
  {
  }

  /** A match at the search position is the first token, and the search goes on
      after it. */
  lemma ScanCons(s: string, from: nat, rest: seq<Token>)
    requires MatchesAt(s, from)
    requires ScanOf(s, TokenAt(s, from).End(), rest)
    ensures ScanOf(s, from, [TokenAt(s, from)] + rest)
  {
    var t := TokenAt(s, from);
    var toks := [t] + rest;
    forall k | 0 <= k < |toks|
      ensures IsTokenAt(s, toks[k])
      ensures SearchFrom(toks, from, k) <= toks[k].start && GapFree(s, SearchFrom(toks, from, k), toks[k].start)
    {
      ConsEntry(t, rest, from, k);
    }
    ConsEntry(t, rest, from, |toks|);
  }

  /** The `k`-th token of `[t] + rest` is the `k - 1`-th token of `rest`, and
      the search for it started where the search of `rest` from the end of `t`
      started it. */
  lemma ConsEntry(t: Token, rest: seq<Token>, from: nat, k: nat)
    requires k <= |rest| + 1
    ensures k == 0 ==> SearchFrom([t] + rest, from, k) == from && ([t] + rest)[0] == t
    ensures k > 0 ==> SearchFrom([t] + rest, from, k) == SearchFrom(rest, t.End(), k - 1)
    ensures 0 < k <= |rest| ==> ([t] + rest)[k] == rest[k - 1]
  {
  }

  /** No match at the search position: the search moves one character on. */
  lemma ScanSkip(s: string, from: nat, rest: seq<Token>)
    requires from < |s| && !MatchesAt(s, from)
    requires ScanOf(s, from + 1, rest)
    ensures ScanOf(s, from, rest)
  {
    forall k | 0 <= k < |rest|
      ensures SearchFrom(rest, from, k) <= rest[k].start && GapFree(s, SearchFrom(rest, from, k), rest[k].start)
    {
      if k == 0 {
        GapExtend(s, from, rest[0].start);
      }
    }
    if |rest| == 0 {
      GapExtend(s, from, |s|);
    }
  }

  lemma GapExtend(s: string, lo: nat, hi: nat)
    requires !MatchesAt(s, lo) && GapFree(s, lo + 1, hi)
    ensures GapFree(s, lo, hi)
  {
  }

  /** All the unit tokens of an expression, in order. */
  function Scan(s: string): seq<Token>
  {
    ScanFrom(s, 0)
  }

  /** What a token is: a non-empty run of `[0-9.]`, then the whole run of unit
      characters that follows it, both found in `s` at the token's position. */
  lemma TokenFacts(s: string, t: Token)
    requires IsTokenAt(s, t)
    ensures |t.digits| >= 1 && |t.unit| >= 1
    ensures AllNumChars(t.digits) && AllUnitChars(t.unit)
    ensures t.End() <= |s| && s[t.start..t.End()] == t.Lexeme()
    ensures forall j :: t.start <= j < t.start + |t.digits| ==> IsNumChar(s[j])
    ensures forall j :: t.start + |t.digits| <= j < t.End() ==> IsUnitChar(s[j])
    ensures t.End() == |s| || !IsUnitChar(s[t.End()])
  {
    TokenChars(s, t);
    TokenPlace(s, t);
  }

  lemma TokenChars(s: string, t: Token)
    requires IsTokenAt(s, t)
    ensures |t.digits| >= 1 && |t.unit| >= 1
    ensures AllNumChars(t.digits) && AllUnitChars(t.unit)
  {
    var r := t.start + NumRun(s, t.start);
    var e := r + UnitRun(s, r);
    NumSlice(s, t.start, r);
    UnitSlice(s, r, e);
  }

  lemma TokenPlace(s: string, t: Token)
    requires IsTokenAt(s, t)
    ensures t.End() <= |s| && s[t.start..t.End()] == t.Lexeme()
    ensures forall j :: t.start <= j < t.start + |t.digits| ==> IsNumChar(s[j])
    ensures forall j :: t.start + |t.digits| <= j < t.End() ==> IsUnitChar(s[j])
    ensures t.End() == |s| || !IsUnitChar(s[t.End()])
  {
    var r := t.start + NumRun(s, t.start);
    SliceJoin(s, t.start, r, r + UnitRun(s, r));
  }

  lemma SliceJoin(s: string, i: nat, j: nat, k: nat)
    requires i <= j <= k <= |s|
    ensures s[i..k] == s[i..j] + s[j..k]
  {
  }

  lemma NumSlice(s: string, i: nat, j: nat)
    requires i <= j <= |s| && forall k :: i <= k < j ==> IsNumChar(s[k])
    ensures AllNumChars(s[i..j])
  {
    forall c | c in s[i..j] ensures IsNumChar(c) {
      var k :| 0 <= k < j - i && s[i..j][k] == c;
      assert c == s[i + k];
    }
  }

  lemma UnitSlice(s: string, i: nat, j: nat)
    requires i <= j <= |s| && forall k :: i <= k < j ==> IsUnitChar(s[k])
    ensures AllUnitChars(s[i..j])
  {
    forall c | c in s[i..j] ensures IsUnitChar(c) {
      var k :| 0 <= k < j - i && s[i..j][k] == c;
      assert c == s[i + k];
    }
  }

  /** Where a token lies in the text it was found in. */
  lemma TokenSpan(s: string, t: Token)
    requires IsTokenAt(s, t)
    ensures t.start < t.End() <= |s| && s[t.start..t.End()] == t.Lexeme()
    ensures t.End() < |s| ==> !IsUnitChar(s[t.End()])
  {
  }

  /** A `[0-9.]` character directly followed by a unit character is where a
      match starts. */
  lemma AdjacentMatch(s: string, q: nat)
    requires q + 1 < |s|
    ensures IsNumChar(s[q]) && IsUnitChar(s[q + 1]) ==> MatchesAt(s, q)
  {
    if IsNumChar(s[q]) && IsUnitChar(s[q + 1]) {
      assert NumRun(s, q + 1) == 0;
    }
  }

  /** Matching the pattern again, without the global flag, on the text of one
      match (`match.match(/([0-9.]+)([a-z%]+)/i)`) splits it into the same number
      and unit parts. */
  lemma RematchGivesParts(t: Token)
    requires |t.digits| >= 1 && |t.unit| >= 1
    requires AllNumChars(t.digits) && AllUnitChars(t.unit)
    ensures MatchesAt(t.Lexeme(), 0)
    ensures TokenAt(t.Lexeme(), 0) == Token(0, t.digits, t.unit)
  {
    var x := t.Lexeme();
    var n := |t.digits|;
    forall j | 0 <= j < n ensures IsNumChar(x[j]) {
      assert x[j] == t.digits[j] && x[j] in t.digits;
    }
    forall j | n <= j < |x| ensures IsUnitChar(x[j]) {
      assert x[j] == t.unit[j - n] && x[j] in t.unit;
    }
    NumRunIs(x, 0, n);
    UnitRunIs(x, n, |t.unit|);
    assert x[0..n] == t.digits;
    assert x[n..n + |t.unit|] == t.unit;
  }

  lemma NumRunIs(s: string, i: nat, m: nat)
    requires i + m <= |s|
    requires forall j :: i <= j < i + m ==> IsNumChar(s[j])
    requires i + m == |s| || !IsNumChar(s[i + m])
    ensures NumRun(s, i) == m
  {
  }

  lemma UnitRunIs(s: string, i: nat, m: nat)
    requires i + m <= |s|
    requires forall j :: i <= j < i + m ==> IsUnitChar(s[j])
    requires i + m == |s| || !IsUnitChar(s[i + m])
    ensures UnitRun(s, i) == m
  {
  }

  /** A digit-to-unit boundary: a `[0-9.]` character followed by a unit character. */
  predicate Boundary(x: string, L: nat)
  {
    0 < L < |x| && IsNumChar(x[L - 1]) && IsUnitChar(x[L])
  }

  predicate IsPrefix(u: string, w: string)
  {
    |u| <= |w| && w[..|u|] == u
  }

  /** The unit characters starting at `L`. */
  function UnitRunText(x: string, L: nat): string
    requires L <= |x|
  {
    x[L..L + UnitRun(x, L)]
  }

  /** The key fact behind every `replace(match, …)` of the plugin: in a text made
      of an already rewritten part `head` followed by the rest of the expression
      from `pos` on, the first occurrence of the next token's text is that token
      itself, provided no digit-to-unit boundary of `head` carries the token's
      unit and `head` is not followed by a unit character. */
  lemma FirstOccurrenceIsToken(s: string, pos: nat, t: Token, head: string)
    requires IsTokenAt(s, t) && pos <= t.start && GapFree(s, pos, t.start)
    requires |head| > 0 ==> !IsUnitChar(s[pos])
    requires forall L :: Boundary(head, L) ==> !IsPrefix(t.unit, UnitRunText(head, L))
    ensures pos <= |s|
    ensures IndexOf(head + s[pos..], t.Lexeme()) == Some(|head| + t.start - pos)
  {
    TokenFacts(s, t);
    var c := head + s[pos..];
    var x := t.Lexeme();
    var target := |head| + t.start - pos;
    assert c[target..target + |x|] == s[t.start..t.End()];
    forall j: nat | j < target ensures !OccursAt(c, x, j) {
      NoEarlyOccurrence(s, pos, t, head, j);
    }
    IndexOfIs(c, x, target);
  }

  /** No occurrence of a token's text starts before the token (in the text
      rewritten up to `pos`). */
  lemma NoEarlyOccurrence(s: string, pos: nat, t: Token, head: string, j: nat)
    requires IsTokenAt(s, t) && pos <= t.start && GapFree(s, pos, t.start)
    requires |head| > 0 ==> !IsUnitChar(s[pos])
    requires forall L :: Boundary(head, L) ==> !IsPrefix(t.unit, UnitRunText(head, L))
    requires j < |head| + t.start - pos
    ensures !OccursAt(head + s[pos..], t.Lexeme(), j)
  {
    TokenFacts(s, t);
    var c := head + s[pos..];
    var x := t.Lexeme();
    var d, u := |t.digits|, t.unit;
    if j + |x| <= |c| {
      var L := j + d;
      OccurrenceParts(c, t, j);
      if L < |head| {
        assert s[pos..][0] == s[pos];
        RunCoversUnit(head, s[pos..], L, u);
      } else if L > |head| {
        var l := L - |head| + pos;
        assert c[L - 1] == s[l - 1] && c[L] == s[l];
        AdjacentMatch(s, l - 1);
        if t.start <= l - 1 {
          assert IsNumChar(s[l]);
        }
      } else {
        assert c[L] == s[pos];
      }
    }
  }

  /** An occurrence of a token's text puts a `[0-9.]` character before a unit
      character, followed by the token's unit. */
  lemma OccurrenceParts(c: string, t: Token, j: nat)
    requires |t.digits| >= 1 && |t.unit| >= 1
    requires AllNumChars(t.digits) && AllUnitChars(t.unit)
    requires j + |t.Lexeme()| <= |c|
    ensures OccursAt(c, t.Lexeme(), j) ==>
      var L := j + |t.digits|;
      Boundary(c, L) && c[L..L + |t.unit|] == t.unit
  {
    var x := t.Lexeme();
    var d := |t.digits|;
    assert x[d - 1] == t.digits[d - 1] && t.digits[d - 1] in t.digits;
    assert x[d] == t.unit[0] && t.unit[0] in t.unit;
    assert x[d..] == t.unit;
    if OccursAt(c, x, j) {
      assert c[j + d - 1] == x[d - 1] && c[j + d] == x[d];
      assert c[j + d..j + |x|] == x[d..];
    }
  }

  /** A unit text found at a boundary of `head` lies within the unit run of
      `head` there, when `head` is not followed by a unit character. */
  lemma RunCoversUnit(head: string, tail: string, L: nat, u: string)
    requires L < |head|
    requires |tail| > 0 ==> !IsUnitChar(tail[0])
    requires L + |u| <= |head + tail|
    requires AllUnitChars(u)
    ensures (head + tail)[L..L + |u|] == u ==> IsPrefix(u, UnitRunText(head, L))
  {
    var c := head + tail;
    if c[L..L + |u|] == u {
      forall i | L <= i < L + |u| ensures IsUnitChar(c[i]) {
        assert c[i] == u[i - L] && u[i - L] in u;
      }
      assert |tail| > 0 ==> !IsUnitChar(c[|head|]);
      assert L + |u| <= |head|;
      forall i | L <= i < L + |u| ensures IsUnitChar(head[i]) {
        assert head[i] == c[i];
      }
      UnitRunAtLeast(head, L, |u|);
      assert head[L..L + |u|] == c[L..L + |u|];
    }
  }

  lemma {:induction false} UnitRunAtLeast(x: string, L: nat, k: nat)
    requires L + k <= |x|
    requires forall i :: L <= i < L + k ==> IsUnitChar(x[i])
    ensures UnitRun(x, L) >= k
    decreases k
  {
    if k > 0 {
      UnitRunAtLeast(x, L + 1, k - 1);
    }
  }
}
