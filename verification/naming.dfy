/**
 * Name handling of the class-based dispatcher (src/index.js): `snakeToCamel`,
 * the dataset key derived from the component selector, and the trimmed
 * component names paired with their elements.
 */
module Naming {
  import opened Wrappers
  import opened Text

  predicate IsSeparator(c: char) {
    c == '-' || c == '_'
  }

  /** The regular expression `[-_][a-z]` matches at position i. */
  predicate HumpAt(s: string, i: int) {
    0 <= i && i + 1 < |s| && IsSeparator(s[i]) && IsLowerAscii(s[i + 1])
  }

  /** No separator is directly followed by a lower-case ASCII letter. */
  predicate NoHumps(s: string) {
    forall i :: 0 <= i < |s| ==> !HumpAt(s, i)
  }

  /**
   * snakeToCamel: a global, left-to-right, non-overlapping replacement of
   * each `[-_][a-z]` by the upper-cased letter. Its first character is
   * either kept or is the upper-cased letter of a match.
   */
  function SnakeToCamel(s: string): (r: string)
    ensures |r| <= |s|
    ensures s == [] <==> r == []
    ensures r != [] ==> (if HumpAt(s, 0) then r[0] == UpperAscii(s[1]) else r[0] == s[0])
  {
    if HumpAt(s, 0) then [UpperAscii(s[1])] + SnakeToCamel(s[2..])
    else if s == [] then []
    else [s[0]] + SnakeToCamel(s[1..])
  }

  /** No match survives the replacement. */
  lemma {:induction false} SnakeToCamelNoHumps(s: string)
    ensures NoHumps(SnakeToCamel(s))
    decreases |s|
  {
    var r := SnakeToCamel(s);
    if HumpAt(s, 0) {
      var rest := SnakeToCamel(s[2..]);
      SnakeToCamelNoHumps(s[2..]);
      assert r == [UpperAscii(s[1])] + rest;
      assert forall i :: 1 <= i < |r| ==> (HumpAt(r, i) <==> HumpAt(rest, i - 1));
    } else if s != [] {
      var rest := SnakeToCamel(s[1..]);
      SnakeToCamelNoHumps(s[1..]);
      assert rest != [] ==> !IsLowerAscii(rest[0]) || !IsSeparator(s[0]) by {
        if rest != [] && IsSeparator(s[0]) {
          assert !IsLowerAscii(s[1]);
          assert !HumpAt(s[1..], 0) ==> rest[0] == s[1];
        }
      }
      assert r == [s[0]] + rest;
      assert forall i :: 1 <= i < |r| ==> (HumpAt(r, i) <==> HumpAt(rest, i - 1));
    }
  }

  /** Text without humps is left unchanged. */
  lemma {:induction false} SnakeToCamelFixesCamel(s: string)
    requires NoHumps(s)
    ensures SnakeToCamel(s) == s
  {
    if s != [] {
      assert !HumpAt(s, 0);
      assert NoHumps(s[1..]) by {
        forall i | 0 <= i < |s[1..]|
          ensures !HumpAt(s[1..], i)
        {
          assert !HumpAt(s, i + 1);
        }
      }
      SnakeToCamelFixesCamel(s[1..]);
    }
  }

  /** Camel-casing twice is camel-casing once. */
  lemma SnakeToCamelIdempotent(s: string)
    ensures SnakeToCamel(SnakeToCamel(s)) == SnakeToCamel(s)
  {
    SnakeToCamelNoHumps(s);
    SnakeToCamelFixesCamel(SnakeToCamel(s));
  }

  /**
   * The replacement is local: text can be camel-cased separately from
   * whatever follows it unless a match straddles the boundary, that is,
   * unless `x` ends in a separator and `y` starts with a lower-case letter.
   */
  lemma {:induction false} SnakeToCamelAppend(x: string, y: string)
    requires !HumpAt(x + y, |x| - 1)
    ensures SnakeToCamel(x + y) == SnakeToCamel(x) + SnakeToCamel(y)
    decreases |x|
  {
    if x == [] {
      assert x + y == y;
    } else if HumpAt(x, 0) {
      assert x[2..] + y == (x + y)[2..];
      SnakeToCamelAppend(x[2..], y);
      AppendAfterHump(x, y);
    } else {
      assert x[1..] + y == (x + y)[1..];
      SnakeToCamelAppend(x[1..], y);
      AppendAfterPlain(x, y);
    }
  }

  /** The inductive step of SnakeToCamelAppend when `x` opens with a match. */
  lemma AppendAfterHump(x: string, y: string)
    requires HumpAt(x, 0)
    requires SnakeToCamel(x[2..] + y) == SnakeToCamel(x[2..]) + SnakeToCamel(y)
    ensures SnakeToCamel(x + y) == SnakeToCamel(x) + SnakeToCamel(y)
  {
    var xy := x + y;
    assert xy[2..] == x[2..] + y;
    assert HumpAt(xy, 0);
  }

  /** The inductive step of SnakeToCamelAppend when `x` opens without a match. */
  lemma AppendAfterPlain(x: string, y: string)
    requires x != [] && !HumpAt(x, 0) && !HumpAt(x + y, |x| - 1)
    requires SnakeToCamel(x[1..] + y) == SnakeToCamel(x[1..]) + SnakeToCamel(y)
    ensures SnakeToCamel(x + y) == SnakeToCamel(x) + SnakeToCamel(y)
  {
    var xy := x + y;
    assert xy[1..] == x[1..] + y;
    assert !HumpAt(xy, 0) by {
      if |x| >= 2 {
        assert xy[0] == x[0] && xy[1] == x[1];
      }
    }
  }

  /** A separator and a lower-case letter become that letter upper-cased. */
  lemma SnakeToCamelHump(sep: char, c: char)
    requires IsSeparator(sep) && IsLowerAscii(c)
    ensures SnakeToCamel([sep, c]) == [UpperAscii(c)]
  {
    assert HumpAt([sep, c], 0);
    assert [sep, c][2..] == [];
  }

  /** `pat` occurs in `s` starting at position j. */
  predicate OccursAt(s: string, pat: string, j: int) {
    0 <= j && j + |pat| <= |s| && s[j..j + |pat|] == pat
  }

  lemma OccursAtTail(s: string, pat: string, j: int)
    requires |s| > 0 && 0 <= j
    ensures OccursAt(s, pat, j + 1) <==> OccursAt(s[1..], pat, j)
  {
    if j + 1 + |pat| <= |s| {
      assert s[j + 1..j + 1 + |pat|] == s[1..][j..j + |pat|];
    }
  }

  /** Index of the first occurrence of `pat` in `s`. */
  function IndexOf(s: string, pat: string): (r: Option<nat>)
    ensures r.Some? ==> OccursAt(s, pat, r.value)
    ensures r.Some? ==> forall j :: 0 <= j < r.value ==> !OccursAt(s, pat, j)
    ensures r.None? ==> forall j :: !OccursAt(s, pat, j)
    decreases |s|
  {
    if |pat| > |s| then None
    else if s[..|pat|] == pat then Some(0)
    else
      match IndexOf(s[1..], pat)
      case None =>
        assert forall j :: !OccursAt(s, pat, j) by {
          forall j | OccursAt(s, pat, j)
            ensures false
          {
            if j > 0 {
              OccursAtTail(s, pat, j - 1);
            }
          }
        }
        None
      case Some(k) =>
        OccursAtTail(s, pat, k);
        forall j | 0 <= j < k + 1
          ensures !OccursAt(s, pat, j)
        {
          if j > 0 {
            OccursAtTail(s, pat, j - 1);
          }
        }
        Some(k + 1)
  }

  /** `s.replace(pat, rep)` with a string pattern: only the first occurrence is replaced. */
  function ReplaceFirst(s: string, pat: string, rep: string): (r: string)
    ensures IndexOf(s, pat).None? ==> r == s
    ensures IndexOf(s, pat).Some? ==>
      var i := IndexOf(s, pat).value;
      r == s[..i] + rep + s[i + |pat|..]
  {
    match IndexOf(s, pat)
    case None => s
    case Some(i) => s[..i] + rep + s[i + |pat|..]
  }

  /**
   * COMPONENT_SELECTOR: the dataset key of the component attribute, from a
   * selector such as `[data-sharp]`.
   */
  function ComponentSelector(selector: string): string {
    SnakeToCamel(ReplaceFirst(ReplaceFirst(selector, "[data-", ""), "]", ""))
  }

  /**
   * For a selector `[data-` + body + `]` whose body holds no `]`, the key is
   * the camel-cased body.
   */
  lemma ComponentSelectorOfAttribute(body: string)
    requires forall i :: 0 <= i < |body| ==> body[i] != ']'
    ensures ComponentSelector("[data-" + body + "]") == SnakeToCamel(body)
  {
    StripOpening(body);
    ReplaceClosing(body);
  }

  /** Removing the opening `[data-` leaves the body and the closing bracket. */
  lemma StripOpening(body: string)
    ensures ReplaceFirst("[data-" + body + "]", "[data-", "") == body + "]"
  {
    var open := "[data-";
    assert open + body + "]" == open + (body + "]");
    ReplaceLeading(open, body + "]");
  }

  /** Replacing a leading occurrence removes exactly that occurrence. */
  lemma ReplaceLeading(pat: string, rest: string)
    ensures ReplaceFirst(pat + rest, pat, "") == rest
  {
    var s := pat + rest;
    assert OccursAt(s, pat, 0) by {
      assert s[..|pat|] == pat;
    }
    assert IndexOf(s, pat) == Some(0);
    assert s[|pat|..] == rest;
  }

  /** The first `]` of `body + "]"` is the last character when `body` holds none. */
  lemma ReplaceClosing(body: string)
    requires forall i :: 0 <= i < |body| ==> body[i] != ']'
    ensures ReplaceFirst(body + "]", "]", "") == body
  {
    var s := body + "]";
    assert OccursAt(s, "]", |body|) by {
      assert s[|body|..|body| + 1] == "]";
    }
    var i := IndexOf(s, "]");
    forall j | 0 <= j < |body|
      ensures !OccursAt(s, "]", j)
    {
      assert s[j..j + 1] == [body[j]];
    }
    assert i == Some(|body|);
    assert s[..|body|] == body;
    assert s[|body| + 1..] == [];
  }

  /** The dispatcher's own selector gives the dataset key `sharp`. */
  lemma SharpSelectorKey()
    ensures ComponentSelector("[data-sharp]") == "sharp"
  {
    PlainSelector("sharp", "[data-sharp]");
  }

  /** A body with neither separators nor brackets is its own key. */
  lemma PlainSelector(body: string, selector: string)
    requires forall i :: 0 <= i < |body| ==> body[i] != ']' && !IsSeparator(body[i])
    requires selector == "[data-" + body + "]"
    ensures ComponentSelector(selector) == body
  {
    ComponentSelectorOfAttribute(body);
    SnakeToCamelFixesCamel(body);
  }

  /** A hyphenated attribute gives a camel-cased key: `[data-my-widget]` gives `myWidget`. */
  lemma HyphenatedSelectorKey()
    ensures ComponentSelector("[data-my-widget]") == "myWidget"
  {
    SelectorOf("my-widget", "[data-my-widget]");
    CamelMyWidget();
  }

  /** ComponentSelectorOfAttribute for a selector written out in full. */
  lemma SelectorOf(body: string, selector: string)
    requires forall i :: 0 <= i < |body| ==> body[i] != ']'
    requires selector == "[data-" + body + "]"
    ensures ComponentSelector(selector) == SnakeToCamel(body)
  {
    ComponentSelectorOfAttribute(body);
  }

  lemma CamelMyWidget()
    ensures SnakeToCamel("my-widget") == "myWidget"
  {
    CamelWidget();
    CamelJoin("my", "-widget", "my-widget");
    PlainCamel("my");
  }

  lemma CamelWidget()
    ensures SnakeToCamel("-widget") == "Widget"
  {
    SnakeToCamelHump('-', 'w');
    CamelJoin("-w", "idget", "-widget");
    PlainCamel("idget");
  }

  /**
   * Of a run of separators only the last can start a match: the others
   * are kept.
   */
  lemma CamelDoubleSeparator()
    ensures SnakeToCamel("--a") == "-A"
  {
    SnakeToCamelHump('-', 'a');
    assert !HumpAt("-" + "-a", 0);
    SnakeToCamelAppend("-", "-a");
    assert "-" + "-a" == "--a";
    SnakeToCamelFixesCamel("-");
  }

  /** Text without separators is left unchanged. */
  lemma PlainCamel(s: string)
    requires forall i :: 0 <= i < |s| ==> !IsSeparator(s[i])
    ensures SnakeToCamel(s) == s
  {
    SnakeToCamelFixesCamel(s);
  }

  /** SnakeToCamelAppend for a concatenation written out in full. */
  lemma CamelJoin(x: string, y: string, xy: string)
    requires x == [] || !IsSeparator(x[|x| - 1])
    requires xy == x + y
    ensures SnakeToCamel(xy) == SnakeToCamel(x) + SnakeToCamel(y)
  {
    SnakeToCamelAppend(x, y);
  }

  /**
   * getComponentsNames: the trimmed value of each component's name
   * attribute, position by position, so that `names[i]` belongs to
   * `components[i]`.
   */
  function ComponentsNames(values: seq<string>): (names: seq<string>)
    ensures |names| == |values|
    ensures forall i :: 0 <= i < |values| ==> names[i] == Trim(values[i])
  {
    if values == [] then [] else [Trim(values[0])] + ComponentsNames(values[1..])
  }
}
