/** Two inputs on which `processStringValue` as written does not replace the
    match it located, each next to what the spliced version gives. */
module Findings {
  import opened Text
  import opened Numbers
  import opened UnitScan
  import opened Rewrite
  import opened Expression
  import opened Locator
  import opened StringValue

  /** A declaration whose expression is `$&`, which the evaluator rejects. */
  const DollarValue: string := "do_math($&)"

  /** A media query whose first line holds a copy of the text that matches on
      the second line. */
  const MediaValue: string := "do_math(1)\ndo_math(1))"

  lemma DollarValueLocated()
    ensures Located(DollarValue, ToLastParen) == Some(Match(0, 10))
    ensures Capture(DollarValue, Match(0, 10)) == "$&"
    ensures FullMatch(DollarValue, Match(0, 10)) == DollarValue
  {
    var v := DollarValue;
    assert OccursAt(v, Marker, 0);
    assert IndexOf(v, Marker) == Some(0);
    assert LineEnd(v, 8) == 11;
    assert LastClose(v, 8, 11, ToLastParen) == Some(10);
    assert FirstMatch(v, 0, ToLastParen) == Some(Match(0, 10));
  }

  /** `$&` has no unit tokens, so the evaluator sees it unchanged, and its
      failure gives back `do_math($&)`. */
  lemma DollarCaptureFails(prop: string, base: Decimal, eval: string -> Evaluation)
    requires eval("$&").Threw?
    ensures ExpressionOutcome("$&", prop, base, eval).text == Marker + "$&" + ")"
  {
    DollarHasNoTokens();
    PlainText("$&", base);
    EvaluationFails("$&", prop, base, eval);
  }

  lemma DollarHasNoTokens()
    ensures Trim("$&") == "$&" && Scan("$&") == []
  {
    DollarTrimmed();
    DollarScanned();
  }

  lemma DollarTrimmed()
    ensures Trim("$&") == "$&"
  {
  }

  lemma DollarScanned()
    ensures Scan("$&") == []
  {
  }

  /** A trimmed expression without unit tokens is handed to the evaluator as
      it is, and no unit is appended to the result. */
  lemma PlainText(e: string, base: Decimal)
    requires Trim(e) == e && Scan(e) == []
    ensures !NeedsCalc(Units(Scan(Trim(e))))
    ensures TargetUnit(Units(Scan(Trim(e)))) == ""
    ensures CleanExpression(e, base) == e
  {
    NoTokensNoUnits();
  }

  lemma NoTokensNoUnits()
    ensures Units([]) == [] && !NeedsCalc([]) && TargetUnit([]) == ""
  {
  }

  /** In the replacement, `$&` stands for the matched text. */
  lemma DollarReplaced()
    ensures JsReplace(DollarValue, DollarValue, DollarValue) == Marker + DollarValue + ")"
  {
    var v := DollarValue;
    ReplaceWhole(v, v);
    DollarExpands(v);
  }

  /** Replacing a whole text expands the replacement with nothing before or
      after the match. */
  lemma ReplaceWhole(s: string, replacement: string)
    ensures JsReplace(s, s, replacement) == Expand(replacement, s, "", "")
  {
    assert OccursAt(s, s, 0);
    IndexOfIs(s, s, 0);
    assert s[..0] == "" && s[|s|..] == "";
  }

  lemma DollarExpands(matched: string)
    ensures Expand(DollarValue, matched, "", "") == Marker + matched + ")"
  {
    DollarValueParts();
    ExpandAfterLiteral(Marker, "$&)", matched, "", "");
    DollarTailExpands(matched);
  }

  lemma DollarValueParts()
    ensures DollarValue == Marker + "$&)" == Marker + "$&" + ")" && '$' !in Marker
  {
    assert DollarValue[..8] == Marker;
    assert DollarValue[8..] == "$&)";
    assert DollarValue == DollarValue[..8] + DollarValue[8..];
    assert "$&)" == "$&" + ")";
  }

  lemma DollarTailExpands(matched: string)
    ensures Expand("$&)", matched, "", "") == matched + ")"
  {
    assert "$&)"[2..] == ")";
    assert Expand(")", matched, "", "") == ")";
  }

  /** Text without `$` before a pattern is copied as it is. */
  lemma {:induction false} ExpandAfterLiteral(x: string, rest: string, matched: string, before: string, after: string)
    requires '$' !in x
    ensures Expand(x + rest, matched, before, after) == x + Expand(rest, matched, before, after)
  {
    if |x| > 0 {
      assert x[0] != '$';
      assert (x + rest)[1..] == x[1..] + rest;
      assert '$' !in x[1..] by {
        forall i | 0 <= i < |x[1..]| ensures x[1..][i] != '$' {
          assert x[1..][i] == x[i + 1];
        }
      }
      ExpandAfterLiteral(x[1..], rest, matched, before, after);
      assert x == [x[0]] + x[1..];
    } else {
      assert x + rest == rest;
    }
  }

  /** As written: the fallback text `do_math($&)` is read as a replacement
      pattern, so the value grows to `do_math(do_math($&))` instead of staying
      as it was. The spliced version leaves it unchanged. */
  lemma DollarPatternFinding(prop: string, base: Decimal, eval: string -> Evaluation)
    requires eval("$&").Threw?
    ensures ProcessStringValue(DollarValue, prop, base, ToLastParen, eval).newValue == Some(Marker + DollarValue + ")")
    ensures ProcessStringValueSpliced(DollarValue, prop, base, ToLastParen, eval).newValue == None
  {
    var v := DollarValue;
    var m := Match(0, 10);
    DollarValueLocated();
    DollarCaptureFails(prop, base, eval);
    DollarValueParts();
    var process := Processor(prop, base, eval);
    assert process("$&") == ExpressionOutcome("$&", prop, base, eval);
    RewritesAt(v, ToLastParen, m, process);
    DollarReplaced();
    FallbackKeepsValue(v, ToLastParen, process);
  }

  lemma MediaFirstLineDoesNotMatch()
    ensures MatchAt(MediaValue, 0, BeforeParen).None?
  {
    assert LineEnd(MediaValue, 8) == 10;
    assert LastClose(MediaValue, 8, 10, BeforeParen).None?;
  }

  lemma MediaNoMarkerBetween()
    ensures forall q :: 1 <= q <= 10 ==> MatchAt(MediaValue, q, BeforeParen).None?
  {
    var v := MediaValue;
    assert v[1..11] == "o_math(1)\n";
    forall q | 1 <= q <= 10 ensures !OccursAt(v, Marker, q) {
      assert v[q] == v[1..11][q - 1] != 'd';
      assert v[q..q + 8][0] == v[q];
    }
  }

  lemma MediaSecondLineMatches()
    ensures MatchAt(MediaValue, 11, BeforeParen) == Some(20)
  {
    assert OccursAt(MediaValue, Marker, 11);
    assert LineEnd(MediaValue, 19) == 22;
    assert LastClose(MediaValue, 19, 22, BeforeParen) == Some(20);
  }

  /** The media pattern skips the first line, whose `)` is not followed by
      `)`, and matches on the second. */
  lemma MediaValueLocated()
    ensures Located(MediaValue, BeforeParen) == Some(Match(11, 20))
    ensures Capture(MediaValue, Match(11, 20)) == "1"
    ensures FullMatch(MediaValue, Match(11, 20)) == "do_math(1)"
  {
    var v := MediaValue;
    MediaFirstLineDoesNotMatch();
    MediaNoMarkerBetween();
    MediaSecondLineMatches();
    NoMatchBefore(v, 0, 11, BeforeParen);
    assert FirstMatch(v, 11, BeforeParen) == Some(Match(11, 20));
    MatchNeedsMarker(v, BeforeParen);
    MediaSlices();
  }

  lemma MediaSlices()
    ensures MediaValue[19..20] == "1" && MediaValue[11..21] == "do_math(1)"
  {
  }

  /** The search skips positions where the pattern does not match. */
  lemma {:induction false} NoMatchBefore(s: string, lo: nat, hi: nat, mode: Mode)
    requires lo <= hi <= |s|
    requires forall q :: lo <= q < hi ==> MatchAt(s, q, mode).None?
    ensures FirstMatch(s, lo, mode) == FirstMatch(s, hi, mode)
    decreases hi - lo
  {
    if lo < hi {
      assert MatchAt(s, lo, mode).None?;
      NoMatchBefore(s, lo + 1, hi, mode);
    }
  }


  lemma OneHasNoTokens()
    ensures Trim("1") == "1" && Scan("1") == []
  {
    OneTrimmed();
    OneScanned();
  }

  lemma OneTrimmed()
    ensures Trim("1") == "1"
  {
  }

  lemma OneScanned()
    ensures Scan("1") == []
  {
  }

  /** `1` has no unit tokens, so the evaluator sees it unchanged; it evaluates
      to 1, printed `1`. */
  lemma OneEvaluates(prop: string, base: Decimal, eval: string -> Evaluation)
    requires eval("1") == Evaluated(Number(1.0))
    ensures ExpressionOutcome("1", prop, base, eval).text == "1"
  {
    OneHasNoTokens();
    PlainText("1", base);
    EvaluationSucceeds("1", prop, base, eval);
    OnePrinted();
  }

  lemma OnePrinted()
    ensures FormatResult(Number(1.0)) + "" == "1"
  {
    assert FormatResult(Number(1.0)) == "1";
  }

  lemma MediaReplaced()
    ensures JsReplace(MediaValue, "do_math(1)", "1") == "1\ndo_math(1))"
    ensures Splice(MediaValue, 11, 21, "1") == "do_math(1)\n1)"
  {
    MediaFirstCopy();
    JsReplaceLiteral(MediaValue, "do_math(1)", "1", 0);
    MediaSplices();
  }

  lemma MediaFirstCopy()
    ensures IndexOf(MediaValue, "do_math(1)") == Some(0)
  {
    assert OccursAt(MediaValue, "do_math(1)", 0);
    IndexOfIs(MediaValue, "do_math(1)", 0);
  }

  lemma MediaSplices()
    ensures Splice(MediaValue, 0, 10, "1") == "1\ndo_math(1))"
    ensures Splice(MediaValue, 11, 21, "1") == "do_math(1)\n1)"
  {
  }


  /** As written: the result replaces the first copy of `do_math(1)`, on the
      first line, which the media pattern did not match, and the match on the
      second line stays. The spliced version replaces the match. */
  lemma MediaEarlierCopyFinding(prop: string, base: Decimal, eval: string -> Evaluation)
    requires eval("1") == Evaluated(Number(1.0))
    ensures ProcessStringValue(MediaValue, prop, base, BeforeParen, eval).newValue == Some("1\ndo_math(1))")
    ensures ProcessStringValueSpliced(MediaValue, prop, base, BeforeParen, eval).newValue == Some("do_math(1)\n1)")
  {
    var v := MediaValue;
    var m := Match(11, 20);
    MediaValueLocated();
    OneEvaluates(prop, base, eval);
    var process := Processor(prop, base, eval);
    assert process("1") == ExpressionOutcome("1", prop, base, eval);
    RewritesAt(v, BeforeParen, m, process);
    MediaReplaced();
  }
}
