/** Character classes and the JavaScript string operations the plugin relies on:
    `includes`, `trim`, `toLowerCase` on unit suffixes, and `replace` with a
    string pattern (first occurrence only, with `$` substitution patterns). */
module Text {

  datatype Option<+T> = None | Some(value: T)

  /** A character of the class `[0-9.]`. */
  predicate IsNumChar(c: char) { '0' <= c <= '9' || c == '.' }

  predicate IsDigit(c: char) { '0' <= c <= '9' }

  /** A character of the class `[a-z%]` under the case-insensitive flag. */
  predicate IsUnitChar(c: char) { 'a' <= c <= 'z' || 'A' <= c <= 'Z' || c == '%' }

  /** The characters that `.` in a regular expression does not match. */
  predicate IsLineTerminator(c: char)
  {
    c == '\n' || c == '\r' || c == '\U{2028}' || c == '\U{2029}'
  }

  /** White space and line terminators, as removed by `String.prototype.trim`. */
  predicate IsTrimmable(c: char)
  {
    || c == '\t' || c == '\U{B}' || c == '\U{C}' || c == ' ' || c == '\U{A0}' || c == '\U{FEFF}'
    || c == '\U{1680}' || ('\U{2000}' <= c <= '\U{200A}') || c == '\U{202F}' || c == '\U{205F}'
    || c == '\U{3000}' || IsLineTerminator(c)
  }

  /** A unit character after lower-casing. */
  predicate IsLowerUnitChar(c: char) { 'a' <= c <= 'z' || c == '%' }

  predicate AllNumChars(s: string) { forall c :: c in s ==> IsNumChar(c) }
  predicate AllUnitChars(s: string) { forall c :: c in s ==> IsUnitChar(c) }
  predicate AllDigits(s: string) { forall c :: c in s ==> IsDigit(c) }
  predicate NoUnitChars(s: string) { forall c :: c in s ==> !IsUnitChar(c) }

  /** `toLowerCase` on one character; the unit suffixes it is applied to are ASCII. */
  function LowerChar(c: char): (r: char)
    ensures IsUnitChar(c) <==> IsUnitChar(r)
    ensures 'A' <= c <= 'Z' ==> r as int == c as int + 32
    ensures !('A' <= c <= 'Z') ==> r == c
  {
    if 'A' <= c <= 'Z' then (c as int + 32) as char else c
  }

  function Lower(s: string): (r: string)
    ensures |r| == |s|
    ensures forall i :: 0 <= i < |s| ==> r[i] == LowerChar(s[i])
  {
    seq(|s|, i requires 0 <= i < |s| => LowerChar(s[i]))
  }

  /** Lower-casing a unit leaves only lower-case letters and `%`. */
  lemma LowerUnit(u: string)
    requires AllUnitChars(u)
    ensures forall i :: 0 <= i < |u| ==> IsLowerUnitChar(Lower(u)[i])
  {
    forall i | 0 <= i < |u| ensures IsLowerUnitChar(Lower(u)[i]) {
      assert IsUnitChar(u[i]) by { assert u[i] in u; }
    }
  }

  lemma LowerPrefix(s: string, k: nat)
    requires k <= |s|
    ensures Lower(s[..k]) == Lower(s)[..k]
  {
  }

  /** `trimStart`: drops the maximal run of trimmable characters at the front. */
  function TrimStart(s: string): (r: string)
    ensures |r| <= |s| && r == s[|s| - |r|..]
    ensures forall i :: 0 <= i < |s| - |r| ==> IsTrimmable(s[i])
    ensures r == [] || !IsTrimmable(r[0])
  {
    if |s| > 0 && IsTrimmable(s[0]) then TrimStart(s[1..]) else s
  }

  /** `trimEnd`: drops the maximal run of trimmable characters at the back. */
  function TrimEnd(s: string): (r: string)
    ensures |r| <= |s| && r == s[..|r|]
    ensures forall i :: |r| <= i < |s| ==> IsTrimmable(s[i])
    ensures r == [] || !IsTrimmable(r[|r| - 1])
  {
    if |s| > 0 && IsTrimmable(s[|s| - 1]) then TrimEnd(s[..|s| - 1]) else s
  }

  /** `String.prototype.trim`. */
  function Trim(s: string): (r: string)
  {
    TrimEnd(TrimStart(s))
  }

  /** The number of white-space characters Trim removes at the front. */
  function LeadingSpace(s: string): nat
  {
    |s| - |TrimStart(s)|
  }

  /** Trim removes exactly the leading and the trailing white space: the result
      sits inside the input, everything cut off is white space, and the result
      neither starts nor ends with white space. */
  lemma TrimSpec(s: string)
    ensures LeadingSpace(s) + |Trim(s)| <= |s|
    ensures Trim(s) == s[LeadingSpace(s)..LeadingSpace(s) + |Trim(s)|]
    ensures forall i :: 0 <= i < LeadingSpace(s) ==> IsTrimmable(s[i])
    ensures forall i :: LeadingSpace(s) + |Trim(s)| <= i < |s| ==> IsTrimmable(s[i])
    ensures Trim(s) == [] || (!IsTrimmable(Trim(s)[0]) && !IsTrimmable(Trim(s)[|Trim(s)| - 1]))
  {
    var a := TrimStart(s);
    var k := |s| - |a|;
    var r := TrimEnd(a);
    assert r == s[k..k + |r|];
    forall i | k + |r| <= i < |s| ensures IsTrimmable(s[i]) {
      assert s[i] == a[i - k];
    }
  }

  /** Trimming is idempotent. */
  lemma TrimIdempotent(s: string)
    ensures Trim(Trim(s)) == Trim(s)
  {
    TrimSpec(s);
  }

  predicate OccursAt(s: string, p: string, i: nat)
  {
    i + |p| <= |s| && s[i..i + |p|] == p
  }

  /** The first occurrence of `p` in `s` at or after `from` (`indexOf`). */
  function IndexOfFrom(s: string, p: string, from: nat): (r: Option<nat>)
    ensures r.Some? ==> from <= r.value && OccursAt(s, p, r.value)
    ensures r.Some? ==> forall i :: from <= i < r.value ==> !OccursAt(s, p, i)
    ensures r.None? ==> forall i :: from <= i ==> !OccursAt(s, p, i)
    decreases |s| - from
  {
    if from + |p| > |s| then None
    else if s[from..from + |p|] == p then Some(from)
    else IndexOfFrom(s, p, from + 1)
  }

  function IndexOf(s: string, p: string): Option<nat>
  {
    IndexOfFrom(s, p, 0)
  }

  /** `String.prototype.includes`. */
  predicate Contains(s: string, p: string)
  {
    IndexOf(s, p).Some?
  }

  lemma ContainsIff(s: string, p: string)
    ensures Contains(s, p) <==> exists i :: OccursAt(s, p, i)
  {
  }

  /** IndexOf is determined by an occurrence with none before it. */
  lemma IndexOfIs(s: string, p: string, k: nat)
    requires OccursAt(s, p, k)
    requires forall i: nat :: i < k ==> !OccursAt(s, p, i)
    ensures IndexOf(s, p) == Some(k)
  {
  }

  /** The replacement template of `String.prototype.replace` (GetSubstitution in
      section 22.1.3.19.1 of ECMA-262) for a string pattern, which has no capture
      groups: `$$`, `$&`, `` $` `` and `$'` are expanded, every other character,
      including any other `$`, is copied. */
  function Expand(template: string, matched: string, before: string, after: string): string
  {
    if |template| >= 2 && template[0] == '$' && template[1] == '$' then
      "$" + Expand(template[2..], matched, before, after)
    else if |template| >= 2 && template[0] == '$' && template[1] == '&' then
      matched + Expand(template[2..], matched, before, after)
    else if |template| >= 2 && template[0] == '$' && template[1] == '`' then
      before + Expand(template[2..], matched, before, after)
    else if |template| >= 2 && template[0] == '$' && template[1] == '\'' then
      after + Expand(template[2..], matched, before, after)
    else if |template| >= 1 then
      [template[0]] + Expand(template[1..], matched, before, after)
    else
      ""
  }

  /** A template without `$` is inserted as written. */
  lemma {:induction false} ExpandLiteral(template: string, matched: string, before: string, after: string)
    requires '$' !in template
    ensures Expand(template, matched, before, after) == template
  {
    if |template| >= 1 {
      assert template[0] != '$';
      assert '$' !in template[1..] by {
        forall i | 0 <= i < |template[1..]| ensures template[1..][i] != '$' {
          assert template[1..][i] == template[i + 1];
        }
      }
      ExpandLiteral(template[1..], matched, before, after);
    }
  }

  /** `s.replace(pattern, replacement)` with a string pattern: only the first
      occurrence is replaced, and the replacement is a template. */
  function JsReplace(s: string, pattern: string, replacement: string): (r: string)
    ensures IndexOf(s, pattern).None? ==> r == s
  {
    match IndexOf(s, pattern)
    case None => s
    case Some(k) =>
      s[..k] + Expand(replacement, pattern, s[..k], s[k + |pattern|..]) + s[k + |pattern|..]
  }

  /** What `replace` does: without an occurrence the text is unchanged;
      otherwise the text before the first occurrence and the text after it
      are kept, and a replacement without `$` is inserted as written. */
  lemma JsReplaceSpec(s: string, pattern: string, replacement: string)
    ensures IndexOf(s, pattern).None? ==> JsReplace(s, pattern, replacement) == s
    ensures IndexOf(s, pattern).Some? ==>
      var k := IndexOf(s, pattern).value;
      var r := JsReplace(s, pattern, replacement);
      && k + |pattern| <= |s|
      && k + (|s| - k - |pattern|) <= |r|
      && r[..k] == s[..k]
      && r[|r| - (|s| - k - |pattern|)..] == s[k + |pattern|..]
      && ('$' !in replacement ==> r == s[..k] + replacement + s[k + |pattern|..])
  {
    if IndexOf(s, pattern).Some? {
      var k := IndexOf(s, pattern).value;
      var e := Expand(replacement, pattern, s[..k], s[k + |pattern|..]);
      var r := JsReplace(s, pattern, replacement);
      assert r == s[..k] + e + s[k + |pattern|..];
      if '$' !in replacement {
        ExpandLiteral(replacement, pattern, s[..k], s[k + |pattern|..]);
      }
    }
  }

  /** Replacing a text that occurs by itself, with no `$` in it, changes
      nothing. */
  lemma ReplaceWithItself(s: string, p: string, q: nat)
    requires OccursAt(s, p, q) && '$' !in p
    ensures JsReplace(s, p, p) == s
  {
    JsReplaceSpec(s, p, p);
    var k := IndexOf(s, p).value;
    assert s[k..k + |p|] == p;
    assert s == s[..k] + s[k..k + |p|] + s[k + |p|..];
  }

  /** Puts `replacement` in place of `s[lo..hi]`, as written. */
  function Splice(s: string, lo: nat, hi: nat, replacement: string): (r: string)
    requires lo <= hi <= |s|
    ensures |r| == |s| - (hi - lo) + |replacement|
    ensures r[..lo] == s[..lo] && r[lo..lo + |replacement|] == replacement && r[lo + |replacement|..] == s[hi..]
  {
    s[..lo] + replacement + s[hi..]
  }

  /** Without `$` in the replacement, `replace` splices it in at the first
      occurrence of the pattern. */
  lemma JsReplaceLiteral(s: string, pattern: string, replacement: string, k: nat)
    requires '$' !in replacement
    requires IndexOf(s, pattern) == Some(k)
    ensures JsReplace(s, pattern, replacement) == Splice(s, k, k + |pattern|, replacement)
  {
    ExpandLiteral(replacement, pattern, s[..k], s[k + |pattern|..]);
  }
}
