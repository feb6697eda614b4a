/** The two rewriting loops of `processExpression`: every unit token is
    rewritten in turn with `replace(match, text)`, which rewrites the FIRST
    occurrence of the token's text in the expression rewritten so far. The
    reference definition `Positional` rewrites each token where the scan found
    it; the lemmas show when the two agree. */
module Rewrite {
  import opened Text
  import opened Numbers
  import opened UnitScan

  /** A token as the scan produces it. */
  predicate WellFormed(t: Token)
  {
    |t.digits| >= 1 && |t.unit| >= 1 && AllNumChars(t.digits) && AllUnitChars(t.unit)
  }

  predicate AllWellFormed(toks: seq<Token>)
  {
    forall k :: 0 <= k < |toks| ==> WellFormed(toks[k])
  }

  lemma ScanWellFormed(s: string, from: nat)
    requires from <= |s|
    ensures AllWellFormed(ScanFrom(s, from))
  {
    var toks := ScanFrom(s, from);
    forall k | 0 <= k < |toks| ensures WellFormed(toks[k]) {
      TokenFacts(s, toks[k]);
    }
  }

  /** The lower-cased unit of a token (`parts[2].toLowerCase()`). */
  function UnitOf(t: Token): string
  {
    Lower(t.unit)
  }

  /** The `units` list: one lower-cased unit per token, in order. */
  function Units(toks: seq<Token>): (units: seq<string>)
    ensures |units| == |toks|
    ensures forall k :: 0 <= k < |toks| ==> units[k] == UnitOf(toks[k])
  {
    seq(|toks|, k requires 0 <= k < |toks| => UnitOf(toks[k]))
  }

  /** Each entry of `units` is what re-matching the token's own text gives
      (`m?.[2]?.toLowerCase() ?? ''`, where the re-match always succeeds): a
      non-empty unit of lower-case letters and `%`. */
  lemma UnitsRematch(toks: seq<Token>)
    requires AllWellFormed(toks)
    ensures forall k :: 0 <= k < |toks| ==>
      MatchesAt(toks[k].Lexeme(), 0) && Units(toks)[k] == Lower(TokenAt(toks[k].Lexeme(), 0).unit)
    ensures forall k, i :: 0 <= k < |toks| && 0 <= i < |Units(toks)[k]| ==> IsLowerUnitChar(Units(toks)[k][i])
    ensures forall k :: 0 <= k < |toks| ==> |Units(toks)[k]| >= 1
  {
    forall k | 0 <= k < |toks|
      ensures MatchesAt(toks[k].Lexeme(), 0) && Units(toks)[k] == Lower(TokenAt(toks[k].Lexeme(), 0).unit)
      ensures forall i :: 0 <= i < |Units(toks)[k]| ==> IsLowerUnitChar(Units(toks)[k][i])
    {
      RematchGivesParts(toks[k]);
      LowerUnit(toks[k].unit);
    }
  }

  predicate IsEmOrRem(u: string)
  {
    u == "em" || u == "rem"
  }

  /** The number part as `parseFloat` reads it. */
  function TokenValue(t: Token): Literal
    requires WellFormed(t)
  {
    ParseFloat(t.digits)
  }

  /** Which loop is running: the one building a `calc(...)` expression, or the
      one stripping units before evaluation, which converts em/rem to pixels
      only when pixels are mixed with em or rem. */
  datatype Rule = Calc | Clean(convert: bool)

  /** What the loop puts in place of a token, if anything: in the calc loop an
      em/rem token becomes its pixel value followed by "px" and other tokens stay;
      in the clean loop every token becomes its (possibly converted) number. */
  function Rewritten(t: Token, rule: Rule, base: Decimal): (r: Option<string>)
    requires WellFormed(t)
    ensures r.Some? ==> '$' !in r.value && |r.value| >= 1
    ensures rule.Clean? ==> r.Some?
    ensures rule.Clean? && TokenValue(t).Finite? ==> NoUnitChars(r.value)
    ensures rule.Calc? ==> (r.Some? <==> IsEmOrRem(UnitOf(t)))
  {
    match rule
    case Calc =>
      if IsEmOrRem(UnitOf(t)) then Some(LiteralToString(Scale(TokenValue(t), base)) + "px") else None
    case Clean(convert) =>
      Some(LiteralToString(if convert && IsEmOrRem(UnitOf(t)) then Scale(TokenValue(t), base) else TokenValue(t)))
  }

  /** The text a token occupies after rewriting. */
  function Placed(t: Token, rule: Rule, base: Decimal): string
    requires WellFormed(t)
  {
    PlacedWith(t.Lexeme(), Rewritten(t, rule, base))
  }

  function PlacedWith(lexeme: string, rw: Option<string>): string
  {
    match rw
    case Some(r) => r
    case None => lexeme
  }

  /** One iteration: `expr.replace(match, text)`. */
  function Step(expr: string, t: Token, rule: Rule, base: Decimal): string
    requires WellFormed(t)
  {
    Apply(expr, t.Lexeme(), Rewritten(t, rule, base))
  }

  function Apply(expr: string, lexeme: string, rw: Option<string>): string
  {
    match rw
    case Some(r) => JsReplace(expr, lexeme, r)
    case None => expr
  }

  /** The loop as written: each token in order, applied to the text so far. */
  function ReplaceEach(expr: string, toks: seq<Token>, rule: Rule, base: Decimal): string
    requires AllWellFormed(toks)
    decreases |toks|
  {
    if toks == [] then expr
    else ReplaceEach(Step(expr, toks[0], rule, base), toks[1..], rule, base)
  }

  /** The reference: every token rewritten where it was found, the text between
      tokens kept. */
  function Positional(s: string, pos: nat, toks: seq<Token>, rule: Rule, base: Decimal): string
    requires ScanOf(s, pos, toks) && AllWellFormed(toks)
    decreases |toks|
  {
    if toks == [] then s[pos..]
    else
      var t := toks[0];
      ScanTail(s, pos, toks);
      s[pos..t.start] + Placed(t, rule, base) + Positional(s, t.End(), toks[1..], rule, base)
  }

  lemma ScanTail(s: string, pos: nat, toks: seq<Token>)
    requires ScanOf(s, pos, toks) && |toks| > 0
    ensures pos <= toks[0].start <= toks[0].End() <= |s|
    ensures ScanOf(s, toks[0].End(), toks[1..])
  {
    TokenFacts(s, toks[0]);
    var rest := toks[1..];
    forall k | 0 <= k < |rest|
      ensures IsTokenAt(s, rest[k])
      ensures SearchFrom(rest, toks[0].End(), k) <= rest[k].start
      ensures GapFree(s, SearchFrom(rest, toks[0].End(), k), rest[k].start)
    {
      assert rest[k] == toks[k + 1];
      assert SearchFrom(rest, toks[0].End(), k) == SearchFrom(toks, pos, k + 1);
    }
    assert SearchFrom(rest, toks[0].End(), |rest|) == SearchFrom(toks, pos, |toks|);
  }

  /** Lower-casing keeps a prefix a prefix. */
  lemma PrefixLower(u: string, w: string)
    ensures IsPrefix(u, w) ==> IsPrefix(Lower(u), Lower(w))
  {
    if IsPrefix(u, w) {
      LowerPrefix(w, |u|);
    }
  }

  /** A lower-cased unit that starts like em or rem. */
  predicate EmLike(w: string)
  {
    IsPrefix("em", w) || IsPrefix("rem", w)
  }

  /** The digit-to-unit boundaries of an already rewritten text are harmless for
      the tokens still to come: in the clean loop there are none, in the calc
      loop none carries a unit starting like em or rem. */
  predicate Safe(rule: Rule, x: string)
  {
    forall L :: 0 < L < |x| && Boundary(x, L) ==> rule.Calc? && !EmLike(Lower(UnitRunText(x, L)))
  }

  lemma RunTextLeft(a: string, b: string, L: nat)
    requires L < |a|
    requires |b| > 0 ==> !IsUnitChar(b[0])
    ensures UnitRunText(a + b, L) == UnitRunText(a, L)
  {
    var m := UnitRun(a, L);
    var c := a + b;
    assert L + m < |a| ==> !IsUnitChar(c[L + m]);
    assert L + m == |a| && |b| > 0 ==> c[L + m] == b[0];
    UnitRunIs(c, L, m);
    assert c[L..L + m] == a[L..L + m];
  }

  lemma RunTextRight(a: string, b: string, L: nat)
    requires |a| <= L <= |a + b|
    ensures UnitRunText(a + b, L) == UnitRunText(b, L - |a|)
  {
    var m := UnitRun(b, L - |a|);
    var c := a + b;
    forall j | L <= j < L + m ensures IsUnitChar(c[j]) {
      assert c[j] == b[j - |a|];
    }
    assert L + m < |c| ==> c[L + m] == b[L - |a| + m];
    UnitRunIs(c, L, m);
    assert c[L..L + m] == b[L - |a|..L - |a| + m];
  }

  /** Joining two safe texts gives a safe text when the second does not start
      with a unit character. */
  lemma SafeAppend(rule: Rule, a: string, b: string)
    requires Safe(rule, a) && Safe(rule, b)
    requires |a| > 0 && |b| > 0 ==> !IsUnitChar(b[0])
    ensures Safe(rule, a + b)
  {
    var c := a + b;
    if |a| == 0 {
      assert c == b;
      return;
    }
    forall L: nat | 0 < L < |c| && Boundary(c, L) ensures rule.Calc? && !EmLike(Lower(UnitRunText(c, L))) {
      if L < |a| {
        assert c[L - 1] == a[L - 1] && c[L] == a[L];
        assert Boundary(a, L);
        RunTextLeft(a, b, L);
      } else {
        assert L != |a|;
        assert c[L - 1] == b[L - |a| - 1] && c[L] == b[L - |a|];
        assert Boundary(b, L - |a|);
        RunTextRight(a, b, L);
      }
    }
  }

  /** The text between two tokens has no boundary: one would start a match. */
  lemma GapSafe(rule: Rule, s: string, lo: nat, hi: nat)
    requires lo <= hi <= |s| && GapFree(s, lo, hi)
    ensures Safe(rule, s[lo..hi])
  {
    var g := s[lo..hi];
    forall L | 0 < L < |g| ensures !Boundary(g, L) {
      AdjacentMatch(s, lo + L - 1);
    }
  }

  /** A number followed by a unit has one boundary, carrying that unit. */
  lemma NumberThenUnit(d: string, u: string)
    requires NoUnitChars(d) && AllUnitChars(u)
    ensures forall L :: 0 < L < |d + u| && Boundary(d + u, L) ==> L == |d| && UnitRunText(d + u, L) == u
  {
    var x := d + u;
    forall j | 0 <= j < |d| ensures !IsUnitChar(x[j]) {
      assert x[j] == d[j] && d[j] in d;
    }
    forall j | |d| <= j < |x| ensures IsUnitChar(x[j]) && !IsNumChar(x[j]) {
      assert x[j] == u[j - |d|] && u[j - |d|] in u;
    }
    UnitRunIs(x, |d|, |u|);
    assert x[|d|..|x|] == u;
  }

  lemma NoUnitCharsSafe(rule: Rule, x: string)
    requires NoUnitChars(x)
    ensures Safe(rule, x)
  {
    forall L | 0 < L < |x| ensures !IsUnitChar(x[L]) {
      assert x[L] in x;
    }
  }

  /** A unit token's number parses (`parseFloat` does not give NaN). */
  predicate Parses(t: Token)
  {
    WellFormed(t) && TokenValue(t).Finite?
  }

  /** A unit that starts like em or rem but is longer, such as "emx" or "rems". */
  predicate ExtendsEmOrRem(u: string)
  {
    EmLike(u) && !IsEmOrRem(u)
  }

  /** What the positional reading needs of the tokens: every number parses, and
      in the calc loop no unit merely starts with em or rem. */
  predicate Plain(toks: seq<Token>, rule: Rule)
  {
    forall k :: 0 <= k < |toks| ==> Parses(toks[k]) && (rule.Calc? ==> !ExtendsEmOrRem(UnitOf(toks[k])))
  }

  /** The text a token is rewritten to is safe and does not start with a unit
      character. */
  lemma PlacedSafe(t: Token, rule: Rule, base: Decimal)
    requires Parses(t) && (rule.Calc? ==> !ExtendsEmOrRem(UnitOf(t)))
    ensures Safe(rule, Placed(t, rule, base))
    ensures !IsUnitChar(Placed(t, rule, base)[0])
  {
    match rule
    case Calc =>
      if IsEmOrRem(UnitOf(t)) {
        ConvertedSafe(t, base);
      } else {
        KeptSafe(t, base);
      }
    case Clean(_) =>
      var p := Placed(t, rule, base);
      NoUnitCharsSafe(rule, p);
      assert p[0] in p;
  }

  /** An em/rem token in the calc loop becomes a number followed by px. */
  lemma ConvertedSafe(t: Token, base: Decimal)
    requires Parses(t) && IsEmOrRem(UnitOf(t))
    ensures Safe(Calc, Placed(t, Calc, base))
    ensures !IsUnitChar(Placed(t, Calc, base)[0])
  {
    var d := LiteralToString(Scale(TokenValue(t), base));
    assert Placed(t, Calc, base) == d + "px";
    PxIsUnit();
    NumberThenUnit(d, "px");
    assert d[0] in d;
  }

  lemma PxIsUnit()
    ensures AllUnitChars("px") && !EmLike(Lower("px"))
  {
    assert "px" == ['p', 'x'];
    assert Lower("px") == "px";
    assert !IsPrefix("em", "px") by { assert "px"[..2][0] != "em"[0]; }
  }

  /** Any other token stays as it is in the calc loop. */
  lemma KeptSafe(t: Token, base: Decimal)
    requires Parses(t) && !IsEmOrRem(UnitOf(t)) && !ExtendsEmOrRem(UnitOf(t))
    ensures Safe(Calc, Placed(t, Calc, base))
    ensures !IsUnitChar(Placed(t, Calc, base)[0])
  {
    assert Placed(t, Calc, base) == t.Lexeme();
    assert NoUnitChars(t.digits) by {
      forall c | c in t.digits ensures !IsUnitChar(c) { assert IsNumChar(c); }
    }
    NumberThenUnit(t.digits, t.unit);
    assert t.Lexeme()[0] == t.digits[0] && t.digits[0] in t.digits;
  }

  /** The main step: rewriting the first occurrence of the next token's text in
      a safe head followed by the rest of the expression rewrites the token
      itself. */
  lemma {:induction false} ReplaceEachFrom(s: string, pos: nat, toks: seq<Token>, rule: Rule, base: Decimal, head: string)
    requires ScanOf(s, pos, toks) && AllWellFormed(toks) && Plain(toks, rule)
    requires Safe(rule, head)
    requires |head| > 0 && pos < |s| ==> !IsUnitChar(s[pos])
    requires pos <= |s|
    ensures ReplaceEach(head + s[pos..], toks, rule, base) == head + Positional(s, pos, toks, rule, base)
    decreases |toks|
  {
    if toks != [] {
      var t := toks[0];
      ScanTail(s, pos, toks);
      PlainTail(toks, rule);
      SafeStep(s, pos, t, rule, base, head);
      StepAtToken(s, pos, t, rule, base, head);
      var x := head + s[pos..];
      var g, p := s[pos..t.start], Placed(t, rule, base);
      var head' := head + g + p;
      ReplaceEachFrom(s, t.End(), toks[1..], rule, base, head');
      var rest := Positional(s, t.End(), toks[1..], rule, base);
      calc {
        ReplaceEach(x, toks, rule, base);
        ReplaceEach(Step(x, t, rule, base), toks[1..], rule, base);
        ReplaceEach(head' + s[t.End()..], toks[1..], rule, base);
        head' + rest;
        { Regroup(head, g, p, rest); }
        head + (g + p + rest);
        head + Positional(s, pos, toks, rule, base);
      }
    }
  }

  lemma Regroup(a: string, b: string, c: string, d: string)
    ensures a + b + c + d == a + (b + c + d)
  {
  }

  lemma PlainTail(toks: seq<Token>, rule: Rule)
    requires AllWellFormed(toks) && Plain(toks, rule) && |toks| > 0
    ensures AllWellFormed(toks[1..]) && Plain(toks[1..], rule)
    ensures Parses(toks[0]) && (rule.Calc? ==> !ExtendsEmOrRem(UnitOf(toks[0])))
  {
    forall k | 0 <= k < |toks[1..]| ensures WellFormed(toks[1..][k]) && Parses(toks[1..][k]) {
      assert toks[1..][k] == toks[k + 1];
    }
  }

  /** After a step the rewritten part is still safe, and is followed by a
      character that is not a unit character. */
  lemma SafeStep(s: string, pos: nat, t: Token, rule: Rule, base: Decimal, head: string)
    requires IsTokenAt(s, t) && pos <= t.start && GapFree(s, pos, t.start)
    requires Parses(t) && (rule.Calc? ==> !ExtendsEmOrRem(UnitOf(t)))
    requires Safe(rule, head)
    requires |head| > 0 ==> !IsUnitChar(s[pos])
    ensures t.End() <= |s|
    ensures Safe(rule, head + s[pos..t.start] + Placed(t, rule, base))
    ensures t.End() < |s| ==> !IsUnitChar(s[t.End()])
  {
    TokenSpan(s, t);
    var g := s[pos..t.start];
    PlacedSafe(t, rule, base);
    GapSafe(rule, s, pos, t.start);
    assert |g| > 0 ==> g[0] == s[pos];
    SafeAppend(rule, head, g);
    SafeAppend(rule, head + g, Placed(t, rule, base));
  }

  /** One step of the loop, at the token found by the scan. */
  lemma StepAtToken(s: string, pos: nat, t: Token, rule: Rule, base: Decimal, head: string)
    requires IsTokenAt(s, t) && pos <= t.start && GapFree(s, pos, t.start)
    requires Parses(t) && (rule.Calc? ==> !ExtendsEmOrRem(UnitOf(t)))
    requires Safe(rule, head)
    requires |head| > 0 ==> !IsUnitChar(s[pos])
    ensures t.End() <= |s|
    ensures Step(head + s[pos..], t, rule, base) == head + s[pos..t.start] + Placed(t, rule, base) + s[t.End()..]
  {
    TokenSpan(s, t);
    var rw := Rewritten(t, rule, base);
    if rw.Some? {
      TokenIsFirstOccurrence(s, pos, t, rule, head);
    }
    ApplyAtToken(s, pos, t, head, rw);
  }

  /** Rewriting the first occurrence, when that is the token, rewrites the token. */
  lemma ApplyAtToken(s: string, pos: nat, t: Token, head: string, rw: Option<string>)
    requires pos <= t.start <= t.End() <= |s| && s[t.start..t.End()] == t.Lexeme()
    requires rw.Some? ==> '$' !in rw.value && IndexOf(head + s[pos..], t.Lexeme()) == Some(|head| + t.start - pos)
    ensures Apply(head + s[pos..], t.Lexeme(), rw) == head + s[pos..t.start] + PlacedWith(t.Lexeme(), rw) + s[t.End()..]
  {
    var c := head + s[pos..];
    if rw.Some? {
      JsReplaceLiteral(c, t.Lexeme(), rw.value, |head| + t.start - pos);
    }
    SpliceAround(head, s, pos, t.start, t.End(), PlacedWith(t.Lexeme(), rw));
  }

  /** The occurrence that `replace` finds is the token itself. */
  lemma TokenIsFirstOccurrence(s: string, pos: nat, t: Token, rule: Rule, head: string)
    requires IsTokenAt(s, t) && pos <= t.start && GapFree(s, pos, t.start)
    requires WellFormed(t) && (rule.Calc? ==> IsEmOrRem(UnitOf(t)))
    requires Safe(rule, head)
    requires |head| > 0 ==> !IsUnitChar(s[pos])
    ensures pos <= |s|
    ensures IndexOf(head + s[pos..], t.Lexeme()) == Some(|head| + t.start - pos)
  {
    forall L | Boundary(head, L) ensures !IsPrefix(t.unit, UnitRunText(head, L)) {
      PrefixLower(t.unit, UnitRunText(head, L));
    }
    FirstOccurrenceIsToken(s, pos, t, head);
  }

  /** Rewriting `s[lo..hi]` inside `head + s[pos..]`. */
  lemma SpliceAround(head: string, s: string, pos: nat, lo: nat, hi: nat, r: string)
    requires pos <= lo <= hi <= |s|
    ensures Splice(head + s[pos..], |head| + lo - pos, |head| + hi - pos, r) == head + s[pos..lo] + r + s[hi..]
    ensures r == s[lo..hi] ==> head + s[pos..] == head + s[pos..lo] + r + s[hi..]
  {
    var c := head + s[pos..];
    assert c[..|head| + lo - pos] == head + s[pos..lo];
    assert c[|head| + hi - pos..] == s[hi..];
    assert s[pos..] == s[pos..lo] + s[lo..hi] + s[hi..];
  }

  /** With plain tokens, the loop as written rewrites each token where the scan
      found it. */
  lemma ReplaceEachIsPositional(s: string, rule: Rule, base: Decimal)
    requires Plain(Scan(s), rule)
    ensures AllWellFormed(Scan(s))
    ensures ReplaceEach(s, Scan(s), rule, base) == Positional(s, 0, Scan(s), rule, base)
  {
    ScanWellFormed(s, 0);
    ReplaceEachFrom(s, 0, Scan(s), rule, base, "");
    EmptyHead(s, s[0..]);
    EmptyHead(Positional(s, 0, Scan(s), rule, base), Positional(s, 0, Scan(s), rule, base));
  }

  lemma EmptyHead(s: string, x: string)
    requires x == s || x == s[0..]
    ensures "" + x == s
  {
  }

  /** The positional rewrite of a safe head followed by the rest is safe. */
  lemma {:induction false} PositionalSafe(s: string, pos: nat, toks: seq<Token>, rule: Rule, base: Decimal, head: string)
    requires ScanOf(s, pos, toks) && AllWellFormed(toks) && Plain(toks, rule)
    requires Safe(rule, head)
    requires |head| > 0 && pos < |s| ==> !IsUnitChar(s[pos])
    requires pos <= |s|
    ensures Safe(rule, head + Positional(s, pos, toks, rule, base))
    decreases |toks|
  {
    if toks == [] {
      GapSafe(rule, s, pos, |s|);
      assert s[pos..|s|] == s[pos..];
      assert |s[pos..]| > 0 ==> s[pos..][0] == s[pos];
      SafeAppend(rule, head, s[pos..]);
    } else {
      var t := toks[0];
      ScanTail(s, pos, toks);
      PlainTail(toks, rule);
      SafeStep(s, pos, t, rule, base, head);
      var g, p := s[pos..t.start], Placed(t, rule, base);
      var head' := head + g + p;
      PositionalSafe(s, t.End(), toks[1..], rule, base, head');
      Regroup(head, g, p, Positional(s, t.End(), toks[1..], rule, base));
    }
  }

  /** A text without digit-to-unit boundaries has no unit token. */
  lemma NoBoundaryNoToken(x: string)
    requires forall L :: 0 < L < |x| ==> !Boundary(x, L)
    ensures Scan(x) == []
  {
    var toks := Scan(x);
    if toks != [] {
      var q := toks[0].start;
      assert MatchesAt(x, q);
      assert Boundary(x, q + NumRun(x, q));
    }
  }

  /** The clean loop leaves no number-with-unit in the expression handed to the
      evaluator, when every number parses. */
  lemma CleanLeavesNoUnits(s: string, convert: bool, base: Decimal)
    requires Plain(Scan(s), Clean(convert))
    ensures AllWellFormed(Scan(s))
    ensures Scan(ReplaceEach(s, Scan(s), Clean(convert), base)) == []
  {
    ReplaceEachIsPositional(s, Clean(convert), base);
    PositionalSafe(s, 0, Scan(s), Clean(convert), base, []);
    assert [] + Positional(s, 0, Scan(s), Clean(convert), base) == Positional(s, 0, Scan(s), Clean(convert), base);
    NoBoundaryNoToken(Positional(s, 0, Scan(s), Clean(convert), base));
  }
}
