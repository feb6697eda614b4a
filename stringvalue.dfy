/** `processStringValue`: finds the first `do_math(...)` in a declaration value
    or media query, processes the captured expression, and replaces the match
    with the result. "No change" (`false`) is `None`. */
module StringValue {
  import opened Text
  import opened Numbers
  import opened UnitScan
  import opened Rewrite
  import opened Expression
  import opened Locator

  /** The new value (`None` for `false`) and the warnings written while
      processing. */
  datatype Update = Update(newValue: Option<string>, warnings: seq<Warning>)

  /** The match whose expression gets processed: there is one only when the
      text contains the marker, the pattern matches, and the capture is not
      empty. */
  function Located(value: string, mode: Mode): (r: Option<Match>)
    ensures r.Some? ==> r.value.start + 8 < r.value.close < |value|
  {
    if !Contains(value, Marker) then None
    else match FirstMatch(value, 0, mode)
      case None => None
      case Some(m) =>
        MatchShape(value, m.start, mode);
        if m.start + 8 == m.close then None else Some(m)
  }

  /** A match is located exactly when the pattern matches somewhere and its
      capture is not empty; it is then the leftmost match. */
  lemma LocatedIsFirstMatch(value: string, mode: Mode)
    ensures Located(value, mode).Some? ==> FirstMatch(value, 0, mode) == Located(value, mode)
    ensures Located(value, mode).None? <==>
      || FirstMatch(value, 0, mode).None?
      || FirstMatch(value, 0, mode).value.start + 8 == FirstMatch(value, 0, mode).value.close
  {
    MatchNeedsMarker(value, mode);
  }

  /** `processStringValue` as written: the processed capture replaces the
      first occurrence of the matched text, through `String.prototype.replace`.
      `process` is what is done to the capture. */
  function RewriteFirstOccurrence(value: string, mode: Mode, process: string -> Outcome): (r: Update)
    ensures !Contains(value, Marker) ==> r == Update(None, [])
    ensures Located(value, mode).None? ==> r == Update(None, [])
    ensures r.newValue.Some? ==> r.newValue.value != value
  {
    match Located(value, mode)
    case None => Update(None, [])
    case Some(m) =>
      var outcome := process(Capture(value, m));
      Settle(value, JsReplace(value, FullMatch(value, m), outcome.text), outcome.warnings)
  }

  /** The same with the processed capture put in place of the match itself. */
  function RewriteMatch(value: string, mode: Mode, process: string -> Outcome): (r: Update)
    ensures !Contains(value, Marker) ==> r == Update(None, [])
    ensures Located(value, mode).None? ==> r == Update(None, [])
    ensures r.newValue.Some? ==> r.newValue.value != value
  {
    match Located(value, mode)
    case None => Update(None, [])
    case Some(m) =>
      var outcome := process(Capture(value, m));
      Settle(value, Splice(value, m.start, m.close + 1, outcome.text), outcome.warnings)
  }

  /** The final comparison: `false` when the text came out unchanged. */
  function Settle(value: string, newValue: string, warnings: seq<Warning>): Update
  {
    Update(if newValue != value then Some(newValue) else None, warnings)
  }

  /** `processExpression` with its other arguments fixed. */
  function Processor(prop: string, base: Decimal, eval: string -> Evaluation): string -> Outcome
  {
    e => ExpressionOutcome(e, prop, base, eval)
  }

  /** `processStringValue(value, prop, basePixelSize, regex)`. */
  function ProcessStringValue(value: string, prop: string, base: Decimal, mode: Mode, eval: string -> Evaluation): (r: Update)
    ensures !Contains(value, Marker) ==> r == Update(None, [])
    ensures r.newValue.Some? ==> r.newValue.value != value
  {
    RewriteFirstOccurrence(value, mode, Processor(prop, base, eval))
  }

  /** `processStringValue` with the match itself replaced. */
  function ProcessStringValueSpliced(value: string, prop: string, base: Decimal, mode: Mode, eval: string -> Evaluation): (r: Update)
    ensures !Contains(value, Marker) ==> r == Update(None, [])
    ensures r.newValue.Some? ==> r.newValue.value != value
  {
    RewriteMatch(value, mode, Processor(prop, base, eval))
  }

  /** As written, only the first occurrence of the matched text changes:
      everything before it and everything after it is kept. */
  lemma OnlyFirstOccurrenceReplaced(value: string, mode: Mode, process: string -> Outcome)
    requires Located(value, mode).Some?
    ensures var f := FullMatch(value, Located(value, mode).value);
      && IndexOf(value, f).Some?
      && IndexOf(value, f).value + |f| <= |value|
      && var k := IndexOf(value, f).value;
      && var r := RewriteFirstOccurrence(value, mode, process);
      && (r.newValue.Some? ==>
            && k + (|value| - k - |f|) <= |r.newValue.value|
            && r.newValue.value[..k] == value[..k]
            && r.newValue.value[|r.newValue.value| - (|value| - k - |f|)..] == value[k + |f|..])
  {
    var m := Located(value, mode).value;
    var f := FullMatch(value, m);
    assert OccursAt(value, f, m.start);
    JsReplaceSpec(value, f, process(Capture(value, m)).text);
  }

  /** With the splice, the match and nothing else is replaced by the processed
      capture, inserted as written, and the value is unchanged exactly when
      the result is the matched text itself. */
  lemma SplicedReplacesMatch(value: string, mode: Mode, process: string -> Outcome)
    requires Located(value, mode).Some?
    ensures var m := Located(value, mode).value;
      var outcome := process(Capture(value, m));
      var r := RewriteMatch(value, mode, process);
      && r.warnings == outcome.warnings
      && (r.newValue.None? <==> outcome.text == FullMatch(value, m))
      && (r.newValue.Some? ==> r.newValue.value == value[..m.start] + outcome.text + value[m.close + 1..])
  {
    var m := Located(value, mode).value;
    SpliceUnchanged(value, m.start, m.close + 1, process(Capture(value, m)).text);
  }

  lemma SpliceUnchanged(s: string, lo: nat, hi: nat, t: string)
    requires lo <= hi <= |s|
    ensures Splice(s, lo, hi, t) == s <==> t == s[lo..hi]
  {
    if t == s[lo..hi] {
      assert s[..lo] + s[lo..hi] + s[hi..] == s;
    }
    if Splice(s, lo, hi, t) == s {
      assert |t| == hi - lo;
      assert s[lo..hi] == Splice(s, lo, hi, t)[lo..lo + |t|];
    }
  }

  /** A failed evaluation of an expression written without surrounding white
      space leaves the value as it was, and reports the failure. */
  lemma FailedEvaluationKeepsValue(value: string, prop: string, base: Decimal, mode: Mode, eval: string -> Evaluation)
    requires Located(value, mode).Some?
    requires var c := Capture(value, Located(value, mode).value);
      && Trim(c) == c
      && !NeedsCalc(Units(Scan(c)))
      && eval(CleanExpression(c, base)).Threw?
    ensures ProcessStringValueSpliced(value, prop, base, mode, eval).newValue.None?
    ensures ReportsFailure(ProcessStringValueSpliced(value, prop, base, mode, eval).warnings)
  {
    var m := Located(value, mode).value;
    var c := Capture(value, m);
    var process := Processor(prop, base, eval);
    EvaluationFails(c, prop, base, eval);
    assert process(c) == ExpressionOutcome(c, prop, base, eval);
    FallbackKeepsValue(value, mode, process);
    var r := ProcessStringValueSpliced(value, prop, base, mode, eval);
    assert ReportsFailure(ExpressionOutcome(c, prop, base, eval).warnings);
  }

  /** The last warning written is an evaluation failure. */
  predicate ReportsFailure(warnings: seq<Warning>)
  {
    |warnings| >= 1 && warnings[|warnings| - 1].EvalFailed?
  }

  /** Processing that gives back the matched text leaves the value as it was. */
  lemma FallbackKeepsValue(value: string, mode: Mode, process: string -> Outcome)
    requires Located(value, mode).Some?
    requires var c := Capture(value, Located(value, mode).value); process(c).text == Marker + c + ")"
    ensures var r := RewriteMatch(value, mode, process);
      r.newValue.None? && r.warnings == process(Capture(value, Located(value, mode).value)).warnings
  {
    var m := Located(value, mode).value;
    MatchShape(value, m.start, mode);
    SplicedReplacesMatch(value, mode, process);
  }

  /** As written, processing that gives back the matched text leaves the value
      as it was too, provided the capture has no `$` (see Findings for one
      that has). */
  lemma FallbackKeepsValueAsWritten(value: string, mode: Mode, process: string -> Outcome)
    requires Located(value, mode).Some?
    requires var c := Capture(value, Located(value, mode).value);
      '$' !in c && process(c).text == Marker + c + ")"
    ensures var r := RewriteFirstOccurrence(value, mode, process);
      r.newValue.None? && r.warnings == process(Capture(value, Located(value, mode).value)).warnings
  {
    var m := Located(value, mode).value;
    var c := Capture(value, m);
    var f := FullMatch(value, m);
    MatchShape(value, m.start, mode);
    assert '$' !in f by {
      assert f == Marker + c + ")";
      assert '$' !in Marker;
    }
    assert OccursAt(value, f, m.start);
    ReplaceWithItself(value, f, m.start);
    FirstOccurrenceRewriteAt(value, mode, m, process);
  }

  /** As written, a failed evaluation of an expression written without `$`
      and without surrounding white space leaves the value as it was, and
      reports the failure. */
  lemma FailedEvaluationKeepsValueAsWritten(value: string, prop: string, base: Decimal, mode: Mode, eval: string -> Evaluation)
    requires Located(value, mode).Some?
    requires var c := Capture(value, Located(value, mode).value);
      && '$' !in c
      && Trim(c) == c
      && !NeedsCalc(Units(Scan(c)))
      && eval(CleanExpression(c, base)).Threw?
    ensures ProcessStringValue(value, prop, base, mode, eval).newValue.None?
    ensures ReportsFailure(ProcessStringValue(value, prop, base, mode, eval).warnings)
  {
    var m := Located(value, mode).value;
    var c := Capture(value, m);
    var process := Processor(prop, base, eval);
    EvaluationFails(c, prop, base, eval);
    assert process(c) == ExpressionOutcome(c, prop, base, eval);
    FallbackKeepsValueAsWritten(value, mode, process);
    assert ReportsFailure(ExpressionOutcome(c, prop, base, eval).warnings);
  }

  /** Neither the processed expression nor anything `processExpression` adds to
      it contains `$`, so a value without `$` gets a replacement without `$`. */
  lemma DollarFreeOutcome(expression: string, prop: string, base: Decimal, eval: string -> Evaluation)
    requires '$' !in expression
    ensures '$' !in ExpressionOutcome(expression, prop, base, eval).text
  {
    var e := Trim(expression);
    TrimSpec(expression);
    SliceDollarFree(expression, LeadingSpace(expression), LeadingSpace(expression) + |e|);
    TrimmedDollarFree(e, prop, base, eval);
  }

  lemma TrimmedDollarFree(e: string, prop: string, base: Decimal, eval: string -> Evaluation)
    requires '$' !in e
    ensures '$' !in TrimmedOutcome(e, prop, base, eval).text
  {
    if NeedsCalc(Units(Scan(e))) {
      CalcDollarFree(e, prop, base, eval);
    } else {
      CleanDollarFree(e, prop, base, eval);
    }
  }

  lemma CalcDollarFree(e: string, prop: string, base: Decimal, eval: string -> Evaluation)
    requires '$' !in e && NeedsCalc(Units(Scan(e)))
    ensures '$' !in TrimmedOutcome(e, prop, base, eval).text
  {
    CalcOutcome(e, prop, base, eval);
    var body := ReplaceEach(e, Scan(e), Calc, base);
    ReplaceEachDollarFree(e, Scan(e), Calc, base);
    CalcWrapDollarFree(body, TrimmedOutcome(e, prop, base, eval).text);
  }

  lemma CleanDollarFree(e: string, prop: string, base: Decimal, eval: string -> Evaluation)
    requires '$' !in e && !NeedsCalc(Units(Scan(e)))
    ensures '$' !in TrimmedOutcome(e, prop, base, eval).text
  {
    ScanWellFormed(e, 0);
    var toks := Scan(e);
    var units := Units(toks);
    var target := TargetUnit(units);
    var mixed := if WarnsMixed(units) then [MixedUnits(e, prop, target)] else [];
    var result := eval(ReplaceEach(e, toks, Clean(HasPixels(units) && HasEmOrRem(units)), base));
    TargetDollarFree(toks);
    assert TrimmedOutcome(e, prop, base, eval) == Finish(e, prop, target, mixed, result);
    FinishDollarFree(e, prop, target, mixed, result);
  }

  lemma TargetDollarFree(toks: seq<Token>)
    requires AllWellFormed(toks)
    ensures '$' !in TargetUnit(Units(toks))
  {
    if |toks| > 0 {
      UnitDollarFree(toks[0]);
    }
  }

  lemma CalcWrapDollarFree(body: string, t: string)
    requires '$' !in body && t == "calc(" + body + ")"
    ensures '$' !in t
  {
  }

  lemma FinishDollarFree(e: string, prop: string, target: string, mixed: seq<Warning>, result: Evaluation)
    requires '$' !in e && '$' !in target
    ensures '$' !in Finish(e, prop, target, mixed, result).text
  {
  }

  lemma SliceDollarFree(s: string, lo: nat, hi: nat)
    requires lo <= hi <= |s| && '$' !in s
    ensures '$' !in s[lo..hi]
  {
    forall i | 0 <= i < hi - lo ensures s[lo..hi][i] != '$' {
      assert s[lo..hi][i] == s[lo + i];
    }
  }

  /** A unit is made of unit characters, lowercased or not. */
  lemma UnitDollarFree(t: Token)
    requires WellFormed(t)
    ensures '$' !in UnitOf(t) && '$' !in t.Lexeme()
  {
    var u := UnitOf(t);
    forall i | 0 <= i < |u| ensures u[i] != '$' {
      assert IsUnitChar(t.unit[i]);
    }
    forall i | 0 <= i < |t.Lexeme()| ensures t.Lexeme()[i] != '$' {
      if i < |t.digits| {
        assert IsNumChar(t.digits[i]);
      } else {
        assert IsUnitChar(t.unit[i - |t.digits|]);
      }
    }
  }

  lemma JsReplaceDollarFree(s: string, pattern: string, replacement: string)
    requires '$' !in s && '$' !in replacement
    ensures '$' !in JsReplace(s, pattern, replacement)
  {
    match IndexOf(s, pattern)
    case None =>
    case Some(k) =>
      ExpandLiteral(replacement, pattern, s[..k], s[k + |pattern|..]);
      SliceDollarFree(s, 0, k);
      SliceDollarFree(s, k + |pattern|, |s|);
      assert s[..k] == s[0..k] && s[k + |pattern|..] == s[k + |pattern|..|s|];
  }

  /** Rewriting tokens never introduces `$`. */
  lemma {:induction false} ReplaceEachDollarFree(e: string, toks: seq<Token>, rule: Rule, base: Decimal)
    requires AllWellFormed(toks) && '$' !in e
    ensures '$' !in ReplaceEach(e, toks, rule, base)
    decreases |toks|
  {
    if toks != [] {
      var t := toks[0];
      match Rewritten(t, rule, base) {
        case Some(r) => JsReplaceDollarFree(e, t.Lexeme(), r);
        case None =>
      }
      assert AllWellFormed(toks[1..]) by {
        forall k | 0 <= k < |toks[1..]| ensures WellFormed(toks[1..][k]) {
          assert toks[1..][k] == toks[k + 1];
        }
      }
      ReplaceEachDollarFree(Step(e, t, rule, base), toks[1..], rule, base);
    }
  }

  /** For declarations without `$`, replacing the first occurrence of the
      matched text is the same as replacing the match: no earlier copy of it
      can exist, and the result is inserted as written. */
  lemma DeclarationReplacesMatch(value: string, prop: string, base: Decimal, eval: string -> Evaluation)
    requires '$' !in value
    ensures ProcessStringValue(value, prop, base, ToLastParen, eval)
         == ProcessStringValueSpliced(value, prop, base, ToLastParen, eval)
  {
    var process := Processor(prop, base, eval);
    match Located(value, ToLastParen)
    case None =>
    case Some(m) =>
      var c := Capture(value, m);
      SliceDollarFree(value, m.start + 8, m.close);
      DollarFreeOutcome(c, prop, base, eval);
      assert process(c) == ExpressionOutcome(c, prop, base, eval);
      DollarFreeRewritesAgree(value, m, process);
  }

  /** A declaration whose processed capture has no `$` comes out the same
      whichever way the match is replaced. */
  lemma DollarFreeRewritesAgree(value: string, m: Match, process: string -> Outcome)
    requires Located(value, ToLastParen) == Some(m)
    requires '$' !in process(Capture(value, m)).text
    ensures RewriteFirstOccurrence(value, ToLastParen, process) == RewriteMatch(value, ToLastParen, process)
  {
    LocatedIsFirstMatch(value, ToLastParen);
    FirstOccurrenceIsMatch(value);
    var outcome := process(Capture(value, m));
    LiteralReplaceIsSplice(value, m, outcome.text, outcome.warnings);
    RewritesAt(value, ToLastParen, m, process);
  }

  /** Both rewrites of a located match, unfolded. */
  lemma RewritesAt(value: string, mode: Mode, m: Match, process: string -> Outcome)
    requires Located(value, mode) == Some(m)
    ensures var outcome := process(Capture(value, m));
      && RewriteFirstOccurrence(value, mode, process)
         == Settle(value, JsReplace(value, FullMatch(value, m), outcome.text), outcome.warnings)
      && RewriteMatch(value, mode, process)
         == Settle(value, Splice(value, m.start, m.close + 1, outcome.text), outcome.warnings)
  {
    FirstOccurrenceRewriteAt(value, mode, m, process);
    MatchRewriteAt(value, mode, m, process);
  }

  lemma FirstOccurrenceRewriteAt(value: string, mode: Mode, m: Match, process: string -> Outcome)
    requires Located(value, mode) == Some(m)
    ensures var outcome := process(Capture(value, m));
      RewriteFirstOccurrence(value, mode, process)
      == Settle(value, JsReplace(value, FullMatch(value, m), outcome.text), outcome.warnings)
  {
  }

  lemma MatchRewriteAt(value: string, mode: Mode, m: Match, process: string -> Outcome)
    requires Located(value, mode) == Some(m)
    ensures var outcome := process(Capture(value, m));
      RewriteMatch(value, mode, process)
      == Settle(value, Splice(value, m.start, m.close + 1, outcome.text), outcome.warnings)
  {
  }

  /** When the replacement has no `$` and the match is the first occurrence of
      its text, both ways of replacing give the same update. */
  lemma LiteralReplaceIsSplice(value: string, m: Match, text: string, warnings: seq<Warning>)
    requires m.start + 8 <= m.close < |value|
    requires '$' !in text && IndexOf(value, FullMatch(value, m)) == Some(m.start)
    ensures Settle(value, JsReplace(value, FullMatch(value, m), text), warnings)
         == Settle(value, Splice(value, m.start, m.close + 1, text), warnings)
  {
    JsReplaceLiteral(value, FullMatch(value, m), text, m.start);
  }
}
