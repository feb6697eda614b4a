/** `processExpression`: trims the expression, collects its unit tokens, and
    either rewrites it into a `calc(...)` expression (percentages mixed with
    px/em/rem) or strips the units, evaluates it, and appends the target unit.
    The evaluator (mathjs `evaluate` followed by the number formatting that
    throws on a result that is not a number) is a parameter. */
module Expression {
  import opened Text
  import opened Numbers
  import opened UnitScan
  import opened Rewrite

  /** The messages written to the console. */
  datatype Warning =
    | MixedUnits(expression: string, prop: string, unit: string)
    | EvalFailed(expression: string, prop: string, message: string)

  /** What evaluating the unit-free expression gives: a number (possibly NaN or
      infinite), or an error with its message. */
  datatype Evaluation = Evaluated(value: EvalValue) | Threw(message: string)

  /** The returned string and the warnings written on the way. */
  datatype Outcome = Outcome(text: string, warnings: seq<Warning>)

  predicate HasPixels(units: seq<string>) { "px" in units }
  predicate HasEmOrRem(units: seq<string>) { "em" in units || "rem" in units }
  predicate HasPercentage(units: seq<string>) { "%" in units }

  /** Percentages mixed with px, em or rem make a `calc(...)` expression. */
  predicate NeedsCalc(units: seq<string>)
  {
    HasPercentage(units) && (HasPixels(units) || HasEmOrRem(units))
  }

  /** The distinct units (`new Set(units)`). */
  function UnitSet(units: seq<string>): set<string>
  {
    set u | u in units
  }

  /** The unit appended to the result: none without tokens, px when pixels are
      mixed with em or rem, otherwise the first unit found. */
  function TargetUnit(units: seq<string>): string
  {
    if |units| == 0 then ""
    else if HasPixels(units) && HasEmOrRem(units) then "px"
    else units[0]
  }

  /** The mixed-units warning condition. */
  predicate WarnsMixed(units: seq<string>)
  {
    |UnitSet(units)| > 1 && !(HasPixels(units) && HasEmOrRem(units) && |UnitSet(units)| == 2)
  }

  /** The whole of `processExpression` on the trimmed expression. */
  function ExpressionOutcome(expression: string, prop: string, base: Decimal, eval: string -> Evaluation): Outcome
  {
    TrimmedOutcome(Trim(expression), prop, base, eval)
  }

  function TrimmedOutcome(e: string, prop: string, base: Decimal, eval: string -> Evaluation): Outcome
  {
    ScanWellFormed(e, 0);
    var toks := Scan(e);
    var units := Units(toks);
    if NeedsCalc(units) then
      Outcome("calc(" + ReplaceEach(e, toks, Calc, base) + ")", [])
    else
      var target := TargetUnit(units);
      var mixed := if WarnsMixed(units) then [MixedUnits(e, prop, target)] else [];
      var clean := ReplaceEach(e, toks, Clean(HasPixels(units) && HasEmOrRem(units)), base);
      Finish(e, prop, target, mixed, eval(clean))
  }

  /** The result after evaluation: the formatted number with the target unit,
      or on failure the expression back inside `do_math(...)` and a warning. */
  function Finish(e: string, prop: string, target: string, mixed: seq<Warning>, result: Evaluation): Outcome
  {
    match result
    case Threw(message) => Outcome("do_math(" + e + ")", mixed + [EvalFailed(e, prop, message)])
    case Evaluated(v) => Outcome(FormatResult(v) + target, mixed)
  }

  /** The expression handed to the evaluator. */
  function CleanExpression(expression: string, base: Decimal): string
  {
    var e := Trim(expression);
    ScanWellFormed(e, 0);
    var units := Units(Scan(e));
    ReplaceEach(e, Scan(e), Clean(HasPixels(units) && HasEmOrRem(units)), base)
  }

  /** `processExpression` as the plugin runs it. */
  method ProcessExpression(expression: string, prop: string, base: Decimal, eval: string -> Evaluation)
    returns (text: string, warnings: seq<Warning>)
    ensures Outcome(text, warnings) == ExpressionOutcome(expression, prop, base, eval)
  {
    var e := Trim(expression);
    var toks := Scan(e);
    ScanWellFormed(e, 0);
    var units := Units(toks);
    warnings := [];
    if NeedsCalc(units) {
      var calcExpression := CalcLoop(e, toks, base);
      text := "calc(" + calcExpression + ")";
      assert Outcome(text, warnings) == TrimmedOutcome(e, prop, base, eval);
      return;
    }
    var target := TargetUnit(units);
    if WarnsMixed(units) {
      warnings := [MixedUnits(e, prop, target)];
    }
    var clean := CleanLoop(e, toks, HasPixels(units) && HasEmOrRem(units), base);
    var result := eval(clean);
    var mixed := warnings;
    match result {
      case Threw(message) =>
        text := "do_math(" + e + ")";
        warnings := warnings + [EvalFailed(e, prop, message)];
      case Evaluated(v) =>
        text := FormatResult(v) + target;
    }
    assert Outcome(text, warnings) == Finish(e, prop, target, mixed, result);
    assert mixed == (if WarnsMixed(units) then [MixedUnits(e, prop, target)] else []);
    assert !NeedsCalc(units);
    assert result == eval(ReplaceEach(e, toks, Clean(HasPixels(units) && HasEmOrRem(units)), base));
    assert TrimmedOutcome(e, prop, base, eval) == Finish(e, prop, target, mixed, result);
  }

  /** The loop building the `calc(...)` body: every em/rem token's first
      occurrence becomes its pixel value followed by "px". */
  method CalcLoop(e: string, toks: seq<Token>, base: Decimal) returns (calcExpression: string)
    requires AllWellFormed(toks)
    ensures calcExpression == ReplaceEach(e, toks, Calc, base)
  {
    calcExpression := e;
    var i := 0;
    while i < |toks|
      invariant 0 <= i <= |toks|
      invariant AllWellFormed(toks[i..])
      invariant ReplaceEach(calcExpression, toks[i..], Calc, base) == ReplaceEach(e, toks, Calc, base)
    {
      var t := toks[i];
      assert toks[i..] == [t] + toks[i + 1..];
      if IsEmOrRem(UnitOf(t)) {
        var pixels := LiteralToString(Scale(TokenValue(t), base));
        calcExpression := JsReplace(calcExpression, t.Lexeme(), pixels + "px");
      }
      i := i + 1;
    }
    assert toks[|toks|..] == [];
  }

  /** The loop stripping the units: every token's first occurrence becomes its
      number, converted to pixels when `convert` holds and the unit is em/rem. */
  method CleanLoop(e: string, toks: seq<Token>, convert: bool, base: Decimal) returns (clean: string)
    requires AllWellFormed(toks)
    ensures clean == ReplaceEach(e, toks, Clean(convert), base)
  {
    clean := e;
    var i := 0;
    while i < |toks|
      invariant 0 <= i <= |toks|
      invariant AllWellFormed(toks[i..])
      invariant ReplaceEach(clean, toks[i..], Clean(convert), base) == ReplaceEach(e, toks, Clean(convert), base)
    {
      var t := toks[i];
      assert toks[i..] == [t] + toks[i + 1..];
      var value := TokenValue(t);
      if convert && IsEmOrRem(UnitOf(t)) {
        value := Scale(value, base);
      }
      clean := JsReplace(clean, t.Lexeme(), LiteralToString(value));
      i := i + 1;
    }
    assert toks[|toks|..] == [];
  }

  /** The expression is trimmed first, so surrounding white space changes
      nothing. */
  lemma TrimFirst(expression: string, prop: string, base: Decimal, eval: string -> Evaluation)
    ensures ExpressionOutcome(Trim(expression), prop, base, eval) == ExpressionOutcome(expression, prop, base, eval)
  {
    TrimIdempotent(expression);
  }

  /** Percentages mixed with px/em/rem give `calc(...)` around the expression
      as the calc loop rewrote it, with no warning. */
  lemma CalcPath(expression: string, prop: string, base: Decimal, eval: string -> Evaluation)
    requires NeedsCalc(Units(Scan(Trim(expression))))
    ensures AllWellFormed(Scan(Trim(expression)))
    ensures ExpressionOutcome(expression, prop, base, eval)
            == Outcome("calc(" + ReplaceEach(Trim(expression), Scan(Trim(expression)), Calc, base) + ")", [])
  {
    CalcOutcome(Trim(expression), prop, base, eval);
  }

  /** The calc path evaluates nothing: its result does not depend on the
      evaluator. */
  lemma CalcIgnoresEvaluator(expression: string, prop: string, base: Decimal, eval: string -> Evaluation, other: string -> Evaluation)
    requires NeedsCalc(Units(Scan(Trim(expression))))
    ensures ExpressionOutcome(expression, prop, base, eval) == ExpressionOutcome(expression, prop, base, other)
  {
    CalcOutcome(Trim(expression), prop, base, eval);
    CalcOutcome(Trim(expression), prop, base, other);
  }

  lemma CalcOutcome(e: string, prop: string, base: Decimal, eval: string -> Evaluation)
    requires NeedsCalc(Units(Scan(e)))
    ensures AllWellFormed(Scan(e))
    ensures TrimmedOutcome(e, prop, base, eval) == Outcome("calc(" + ReplaceEach(e, Scan(e), Calc, base) + ")", [])
  {
    ScanWellFormed(e, 0);
  }

  /** In the calc path, with plain tokens, each em/rem token is replaced where it
      stands by its pixel value and "px", and everything else is kept. */
  lemma CalcRewritesInPlace(expression: string, prop: string, base: Decimal, eval: string -> Evaluation)
    requires NeedsCalc(Units(Scan(Trim(expression))))
    requires Plain(Scan(Trim(expression)), Calc)
    ensures AllWellFormed(Scan(Trim(expression)))
    ensures ExpressionOutcome(expression, prop, base, eval).text
            == "calc(" + Positional(Trim(expression), 0, Scan(Trim(expression)), Calc, base) + ")"
  {
    ReplaceEachIsPositional(Trim(expression), Calc, base);
  }

  /** Outside the calc path the evaluator sees the clean expression; with
      plain tokens that is every token replaced where it stands by its number,
      and no number-with-unit is left in it. */
  lemma CleanInPlace(expression: string, base: Decimal)
    requires var e := Trim(expression); Plain(Scan(e), Clean(HasPixels(Units(Scan(e))) && HasEmOrRem(Units(Scan(e)))))
    ensures var e := Trim(expression);
      && AllWellFormed(Scan(e))
      && CleanExpression(expression, base)
         == Positional(e, 0, Scan(e), Clean(HasPixels(Units(Scan(e))) && HasEmOrRem(Units(Scan(e)))), base)
      && Scan(CleanExpression(expression, base)) == []
  {
    var e := Trim(expression);
    var convert := HasPixels(Units(Scan(e))) && HasEmOrRem(Units(Scan(e)));
    ReplaceEachIsPositional(e, Clean(convert), base);
    CleanLeavesNoUnits(e, convert, base);
  }

  /** When evaluation fails the expression is returned inside `do_math(...)`
      again, and the failure is reported last. */
  lemma EvaluationFails(expression: string, prop: string, base: Decimal, eval: string -> Evaluation)
    requires !NeedsCalc(Units(Scan(Trim(expression))))
    requires eval(CleanExpression(expression, base)).Threw?
    ensures var r := ExpressionOutcome(expression, prop, base, eval);
      && r.text == "do_math(" + Trim(expression) + ")"
      && |r.warnings| >= 1
      && r.warnings[|r.warnings| - 1]
         == EvalFailed(Trim(expression), prop, eval(CleanExpression(expression, base)).message)
  {
    OutsideCalc(expression, prop, base, eval);
  }

  /** Outside the calc path the outcome is what `Finish` makes of the
      evaluator's answer on the clean expression. */
  lemma OutsideCalc(expression: string, prop: string, base: Decimal, eval: string -> Evaluation)
    requires !NeedsCalc(Units(Scan(Trim(expression))))
    ensures var e := Trim(expression);
      var units := Units(Scan(e));
      ExpressionOutcome(expression, prop, base, eval)
      == Finish(e, prop, TargetUnit(units),
                if WarnsMixed(units) then [MixedUnits(e, prop, TargetUnit(units))] else [],
                eval(CleanExpression(expression, base)))
  {
    var e := Trim(expression);
    assert ExpressionOutcome(expression, prop, base, eval) == TrimmedOutcome(e, prop, base, eval);
  }

  /** When evaluation succeeds the result is the formatted number followed by
      the target unit, and the only possible warning is the mixed-units one. */
  lemma EvaluationSucceeds(expression: string, prop: string, base: Decimal, eval: string -> Evaluation)
    requires !NeedsCalc(Units(Scan(Trim(expression))))
    requires eval(CleanExpression(expression, base)).Evaluated?
    ensures var r := ExpressionOutcome(expression, prop, base, eval);
      var units := Units(Scan(Trim(expression)));
      && r.text == FormatResult(eval(CleanExpression(expression, base)).value) + TargetUnit(units)
      && (r.warnings == [] <==> !WarnsMixed(units))
      && (WarnsMixed(units) ==> r.warnings == [MixedUnits(Trim(expression), prop, TargetUnit(units))])
  {
    OutsideCalc(expression, prop, base, eval);
  }

  /** The target unit is empty without tokens and otherwise one of the units
      found; it is px exactly when pixels are mixed with em or rem or px comes
      first. */
  lemma TargetUnitFacts(units: seq<string>)
    ensures |units| == 0 ==> TargetUnit(units) == ""
    ensures |units| > 0 ==> TargetUnit(units) in units
    ensures TargetUnit(units) == "px" <==> |units| > 0 && ((HasPixels(units) && HasEmOrRem(units)) || units[0] == "px")
  {
  }

  lemma SubsetSameSize(a: set<string>, b: set<string>)
    requires a <= b && |a| == |b|
    ensures a == b
  {
    if x :| x in b && x !in a {
      assert a <= b - {x};
      assert |b - {x}| == |b| - 1;
      SubsetSize(a, b - {x});
    }
  }

  lemma {:induction false} SubsetSize(a: set<string>, b: set<string>)
    requires a <= b
    ensures |a| <= |b|
    decreases |b|
  {
    if a != {} {
      var x :| x in a;
      SubsetSize(a - {x}, b - {x});
    }
  }

  /** The mixed-units warning is written exactly when two different units occur
      and the units are not just px with em, or px with rem. */
  lemma WarnsMixedIff(units: seq<string>)
    ensures WarnsMixed(units) <==>
      && (exists i, j :: 0 <= i < |units| && 0 <= j < |units| && units[i] != units[j])
      && UnitSet(units) != {"px", "em"}
      && UnitSet(units) != {"px", "rem"}
  {
    var u := UnitSet(units);
    assert "px" != "em" && "px" != "rem" by {
      assert "px"[0] != "em"[0] && "px"[0] != "rem"[0];
    }
    assert |u| > 1 <==> exists i, j :: 0 <= i < |units| && 0 <= j < |units| && units[i] != units[j] by {
      if |u| > 1 {
        var a :| a in u;
        assert |u - {a}| == |u| - 1;
        var b :| b in u - {a};
        var i :| 0 <= i < |units| && units[i] == a;
        var j :| 0 <= j < |units| && units[j] == b;
        assert units[i] != units[j];
      }
      if exists i, j :: 0 <= i < |units| && 0 <= j < |units| && units[i] != units[j] {
        var i, j :| 0 <= i < |units| && 0 <= j < |units| && units[i] != units[j];
        SubsetSize({units[i], units[j]}, u);
      }
    }
    assert (HasPixels(units) && HasEmOrRem(units) && |u| == 2) <==> (u == {"px", "em"} || u == {"px", "rem"}) by {
      if HasPixels(units) && HasEmOrRem(units) && |u| == 2 {
        if "em" in units {
          SubsetSameSize({"px", "em"}, u);
        } else {
          SubsetSameSize({"px", "rem"}, u);
        }
      }
      if u == {"px", "em"} {
        assert "px" in u && "em" in u;
      }
      if u == {"px", "rem"} {
        assert "px" in u && "rem" in u;
      }
    }
  }
}
