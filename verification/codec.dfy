/**
 * The attribute-value coercion `convertType` (src/utils.ts, copied verbatim
 * in src/helpers/utils.ts). The decision of which branch applies is made on
 * the string alone; the host functions it calls -- `JSON.parse`, the
 * `isNaN(value)` test (which converts with `Number(value)`) and
 * `parseFloat` -- are parameters of the model, gathered in `Host`.
 */
module Codec {
  import opened Wrappers
  import opened Text

  /** An IEEE-754 double produced by `parseFloat`; never computed with here. */
  type Double(==)

  /** An object or array produced by `JSON.parse`. */
  type Json(==)

  /** The typed value of one prop. */
  datatype Value =
    | Parsed(json: Json)
    | Bool(b: bool)
    | Null
    | Number(n: Double)
    | Str(s: string)

  /** The only exception convertType lets escape: `JSON.parse` rejecting its text. */
  datatype Error = SyntaxError

  /**
   * The host functions convertType relies on.
   * `parse(t)` is None when `JSON.parse(t)` throws; `isNaN(t)` is the result
   * of the global `isNaN(t)`, i.e. whether `Number(t)` is NaN; `nan` is NaN.
   */
  datatype Host = Host(
    parse: string -> Option<Json>,
    isNaN: string -> bool,
    parseFloat: string -> Double,
    nan: Double)

  /**
   * Two facts of ECMAScript number conversion that the model relies on:
   * `Number(t)` of a blank string is 0 (so `isNaN(t)` is false), while
   * `parseFloat(t)` of a blank string finds no digits and is NaN.
   */
  ghost predicate JsNumberFacts(h: Host) {
    forall t :: IsBlank(t) ==> !h.isNaN(t) && h.parseFloat(t) == h.nan
  }

  /** The text is bounded by braces or by square brackets. */
  predicate IsBracketed(s: string) {
    || (StartsWith(s, "{") && EndsWith(s, "}"))
    || (StartsWith(s, "[") && EndsWith(s, "]"))
  }

  /** `value.replace(/'/g, '"')`: every apostrophe becomes a double quote. */
  function SwapQuotes(s: string): (r: string)
    ensures |r| == |s|
    ensures forall i :: 0 <= i < |s| ==> r[i] == (if s[i] == '\'' then '"' else s[i])
    ensures forall i :: 0 <= i < |r| ==> r[i] != '\''
  {
    if s == [] then [] else [if s[0] == '\'' then '"' else s[0]] + SwapQuotes(s[1..])
  }

  /** The three keywords and the literals they stand for. */
  const Keywords: map<string, Value> := map["false" := Bool(false), "true" := Bool(true), "null" := Null]

  /**
   * convertType. Only bracketed text can make it throw; a Bool or Null
   * result comes from exactly its keyword; a string result is the input
   * itself.
   */
  function ConvertType(h: Host, s: string): (r: Result<Value, Error>)
    ensures r.Failure? <==> IsBracketed(s) && h.parse(SwapQuotes(s)).None?
    ensures r.Success? && r.value.Parsed? <==> IsBracketed(s) && h.parse(SwapQuotes(s)).Some?
    ensures r.Success? && r.value.Bool? ==> s == (if r.value.b then "true" else "false")
    ensures r == Success(Null) <==> s == "null"
    ensures r.Success? && r.value.Str? ==> r.value.s == s && h.isNaN(s)
    ensures r.Success? && r.value.Number? ==> !h.isNaN(s) && r.value.n == h.parseFloat(s)
  {
    if IsBracketed(s) then
      match h.parse(SwapQuotes(s))
      case Some(j) => Success(Parsed(j))
      case None => Failure(SyntaxError)
    else if s == "false" then Success(Bool(false))
    else if s == "true" then Success(Bool(true))
    else if s == "null" then Success(Null)
    else if !h.isNaN(s) then Success(Number(h.parseFloat(s)))
    else Success(Str(s))
  }

  /**
   * Reference reading of convertType as four mutually exclusive cases, each
   * guarded by the cases that take precedence over it.
   */
  ghost predicate Decodes(h: Host, s: string, r: Result<Value, Error>) {
    || (IsBracketed(s) && h.parse(SwapQuotes(s)).Some? && r == Success(Parsed(h.parse(SwapQuotes(s)).value)))
    || (IsBracketed(s) && h.parse(SwapQuotes(s)).None? && r == Failure(SyntaxError))
    || (!IsBracketed(s) && s in Keywords && r == Success(Keywords[s]))
    || (!IsBracketed(s) && s !in Keywords && !h.isNaN(s) && r == Success(Number(h.parseFloat(s))))
    || (!IsBracketed(s) && s !in Keywords && h.isNaN(s) && r == Success(Str(s)))
  }

  /** convertType is exactly the reference reading: it is one of the cases, and the only one. */
  lemma ConvertTypeIsDecodes(h: Host, s: string, r: Result<Value, Error>)
    ensures Decodes(h, s, r) <==> r == ConvertType(h, s)
  {
  }

  /** Swapping quotes keeps the bounding brackets, so bracketed text stays bracketed. */
  lemma SwapQuotesKeepsBrackets(s: string)
    ensures IsBracketed(SwapQuotes(s)) <==> IsBracketed(s)
  {
    var t := SwapQuotes(s);
    if |s| > 0 {
      assert t[..1] == [t[0]] && s[..1] == [s[0]];
      assert t[|t| - 1..] == [t[|t| - 1]] && s[|s| - 1..] == [s[|s| - 1]];
    }
  }

  /**
   * Bracket precedence: "[true]" is handed to JSON.parse; it is never the
   * keyword `true`, never a number, and never returned as text.
   */
  lemma BracketedTrueIsJson(h: Host)
    ensures ConvertType(h, "[true]").Failure? || ConvertType(h, "[true]").value.Parsed?
  {
    assert IsBracketed("[true]") by {
      assert "[true]"[..1] == "[";
      assert "[true]"[5..] == "]";
    }
  }

  /** Bracketed text that is not JSON after the quote swap throws. */
  lemma MalformedBracketedThrows(h: Host, s: string)
    requires IsBracketed(s) && h.parse(SwapQuotes(s)).None?
    ensures ConvertType(h, s) == Failure(SyntaxError)
  {
  }

  /**
   * The empty string and every blank string are number-like for `Number`,
   * so they come back as `parseFloat` of themselves, which is NaN.
   */
  lemma BlankTextBecomesNaN(h: Host, s: string)
    requires JsNumberFacts(h)
    requires IsBlank(s)
    ensures ConvertType(h, s) == Success(Number(h.nan))
  {
    assert !IsBracketed(s) by {
      if |s| > 0 {
        assert IsJsWhitespace(s[0]);
        assert s[..1] == [s[0]];
      }
    }
    assert s !in Keywords by {
      if |s| > 0 { assert IsJsWhitespace(s[0]); }
    }
  }

  /** The single-quoted object of the documentation is parsed from its double-quoted form. */
  lemma SingleQuotedObjectIsSwapped()
    ensures SwapQuotes("{'a': 1}") == "{\"a\": 1}"
  {
    SwappedText("{'a': 1}", "{\"a\": 1}");
  }

  /** SwapQuotes agrees with a text that differs only in its quotes. */
  lemma SwappedText(s: string, t: string)
    requires |s| == |t|
    requires forall i :: 0 <= i < |s| ==> t[i] == (if s[i] == '\'' then '"' else s[i])
    ensures SwapQuotes(s) == t
  {
  }
}
