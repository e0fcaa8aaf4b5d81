/** The case converters of src/strings.cpp: the `string_iter` walker, camel case
    (`detail::camel_case_impl` behind `upper_camel_case`/`lower_camel_case`), the
    delimiter cases (`detail::delimiter_case_impl` behind the snake and kebab variants)
    and the older `to_camel_case`. */
module StringCase {
  import opened Strings

  /** The `prev` the walkers carry at position `j`: the character before it, NUL at the start. */
  function Prev(s: string, j: nat): char
    requires j <= |s|
  {
    if j == 0 then NUL else s[j - 1]
  }

  /** Neither a delimiter nor NUL: a character that the delimiter walker copies out. */
  predicate IsWordChar(c: char) {
    !IsDelimiter(c) && c != NUL
  }

  // ---------------------------------------------------------------------------
  // string_iter
  // ---------------------------------------------------------------------------

  /** The arguments of one callback made by `string_iter`. */
  datatype Call = Call(prev: char, curr: char, next: char)

  /** The call `string_iter` makes for position `j` when it makes one. It is made in the
      loop iteration for `j + 1`, whose `next` is the character at `j + 2`. */
  function CallAt(s: string, j: nat): Call
    requires j < |s|
  {
    Call(Prev(s, j), s[j], if j + 2 < |s| then s[j + 2] else NUL)
  }

  /** The calls `string_iter` makes inside its loop for the positions before `m`: one
      per position, except that a position holding NUL is skipped (the `curr == 0` test). */
  function CallsUpTo(s: string, m: nat): (r: seq<Call>)
    requires m < |s|
    ensures |r| <= m
    decreases m
  {
    if m == 0 then []
    else CallsUpTo(s, m - 1) + (if s[m - 1] == NUL then [] else [CallAt(s, m - 1)])
  }

  /** Every call `string_iter(s, callback)` makes, in order: the loop's calls, then the
      final call for the last character, which is made even when that character is NUL. */
  function IterCalls(s: string): (r: seq<Call>)
    ensures |r| <= |s|
  {
    if s == [] then [] else CallsUpTo(s, |s| - 1) + [CallAt(s, |s| - 1)]
  }

  /** src/strings.cpp `string_iter`, recording the callbacks instead of making them. */
  method StringIter(s: string) returns (calls: seq<Call>)
    ensures calls == IterCalls(s)
  {
    if |s| == 0 {
      return [];
    }
    calls := [];
    var prev, curr := NUL, NUL;
    for i := 0 to |s|
      invariant i == 0 ==> prev == NUL && curr == NUL && calls == []
      invariant i > 0 ==> curr == s[i - 1] && prev == Prev(s, i - 1) && calls == CallsUpTo(s, i - 1)
    {
      var next := if i + 1 < |s| then s[i + 1] else NUL;
      if curr == NUL {
        prev := curr;
        curr := s[i];
      } else {
        calls := calls + [Call(prev, curr, next)];
        prev := curr;
        curr := s[i];
      }
    }
    calls := calls + [Call(prev, curr, NUL)];
  }

  /** Without NUL characters the loop calls back once for every position but the last. */
  lemma {:induction false} CallsUpToPlain(s: string, m: nat)
    requires m < |s| && NUL !in s
    ensures |CallsUpTo(s, m)| == m
    ensures forall j :: 0 <= j < m ==> CallsUpTo(s, m)[j] == CallAt(s, j)
    decreases m
  {
    if m > 0 {
      CallsUpToPlain(s, m - 1);
    }
  }

  /** Without NUL characters the callback sees every character once, in order, with the
      character before it as `prev`; its `next` is two positions on, not one. */
  lemma {:induction false} IterCallsPlain(s: string)
    requires NUL !in s
    ensures |IterCalls(s)| == |s|
    ensures forall j :: 0 <= j < |s| ==> IterCalls(s)[j] == CallAt(s, j)
  {
    if |s| > 0 {
      CallsUpToPlain(s, |s| - 1);
    }
  }

  /** The loop's calls for a shorter prefix come first. */
  lemma {:induction false} CallsUpToPrefix(s: string, a: nat, m: nat)
    requires a <= m < |s|
    ensures |CallsUpTo(s, a)| <= |CallsUpTo(s, m)|
    ensures CallsUpTo(s, m)[..|CallsUpTo(s, a)|] == CallsUpTo(s, a)
    decreases m
  {
    if a < m {
      CallsUpToPrefix(s, a, m - 1);
    }
  }

  /** The first callback is for the first character, with NUL as `prev`. */
  lemma {:induction false} IterCallsFirst(s: string)
    requires |s| > 0 && s[0] != NUL
    ensures |IterCalls(s)| > 0 && IterCalls(s)[0].prev == NUL && IterCalls(s)[0].curr == s[0]
  {
    if |s| > 1 {
      CallsUpToPrefix(s, 1, |s| - 1);
      assert CallsUpTo(s, 1) == [CallAt(s, 0)];
    }
  }

  // ---------------------------------------------------------------------------
  // camel_case_impl
  // ---------------------------------------------------------------------------

  /** What the callback of `camel_case_impl` appends: nothing for a delimiter; the letter
      upper-cased after a delimiter (or at the start, for upper camel case); unchanged
      after a lower-case letter; lower-cased otherwise. */
  function CamelEmit(c: Call, upperFirst: bool): (r: string)
    ensures |r| <= 1 && (r != [] <==> !IsDelimiter(c.curr))
    ensures forall x :: x in r ==> !IsDelimiter(x)
  {
    if IsDelimiter(c.curr) then []
    else if IsDelimiter(c.prev) || (upperFirst && c.prev == NUL) then [ToUpper(c.curr)]
    else if IsLower(c.prev) then [c.curr]
    else [ToLower(c.curr)]
  }

  /** What the callbacks for the first `k` of `calls` append, in order. */
  function Emitted(calls: seq<Call>, k: nat, upperFirst: bool): string
    requires k <= |calls|
    decreases k
  {
    if k == 0 then [] else Emitted(calls, k - 1, upperFirst) + CamelEmit(calls[k - 1], upperFirst)
  }

  /** `camel_case_impl(str, upper_first)`: trim, then run the callback over `string_iter`. */
  function CamelCase(str: string, upperFirst: bool): string {
    var calls := IterCalls(Trimmed(str));
    Emitted(calls, |calls|, upperFirst)
  }

  function UpperCamelCase(str: string): string {
    CamelCase(str, true)
  }

  function LowerCamelCase(str: string): string {
    CamelCase(str, false)
  }

  /** src/strings.cpp `detail::camel_case_impl`. */
  method CamelCaseImpl(str: string, upperFirst: bool) returns (result: string)
    ensures result == CamelCase(str, upperFirst)
  {
    var s := Trim(str);
    if |s| == 0 {
      assert IterCalls(s) == [];
      return s;
    }
    var calls := StringIter(s);
    result := [];
    for k := 0 to |calls|
      invariant result == Emitted(calls, k, upperFirst)
    {
      result := result + CamelEmit(calls[k], upperFirst);
    }
  }

  /** What the first callbacks append comes first. */
  lemma {:induction false} EmittedPrefix(calls: seq<Call>, a: nat, k: nat, upperFirst: bool)
    requires a <= k <= |calls|
    ensures |Emitted(calls, a, upperFirst)| <= |Emitted(calls, k, upperFirst)|
    ensures Emitted(calls, k, upperFirst)[..|Emitted(calls, a, upperFirst)|] == Emitted(calls, a, upperFirst)
    decreases k
  {
    if a < k {
      EmittedPrefix(calls, a, k - 1, upperFirst);
    }
  }

  /** At most one character per callback, and never a delimiter. */
  lemma {:induction false} EmittedShape(calls: seq<Call>, k: nat, upperFirst: bool)
    requires k <= |calls|
    ensures |Emitted(calls, k, upperFirst)| <= k
    ensures forall x :: x in Emitted(calls, k, upperFirst) ==> !IsDelimiter(x)
    decreases k
  {
    if k > 0 {
      EmittedShape(calls, k - 1, upperFirst);
    }
  }

  /** Camel case removes every delimiter and never lengthens the trimmed input. */
  lemma {:induction false} CamelCaseShape(str: string, upperFirst: bool)
    ensures |CamelCase(str, upperFirst)| <= |Trimmed(str)|
    ensures forall x :: x in CamelCase(str, upperFirst) ==> !IsDelimiter(x)
  {
    var calls := IterCalls(Trimmed(str));
    EmittedShape(calls, |calls|, upperFirst);
  }

  /** A trimmed input that starts with a letter or digit starts the output, upper-cased for
      upper camel case and lower-cased for lower camel case. */
  lemma {:induction false} CamelCaseFirst(str: string, upperFirst: bool)
    requires Trimmed(str) != [] && IsWordChar(Trimmed(str)[0])
    ensures CamelCase(str, upperFirst) != []
    ensures CamelCase(str, upperFirst)[0] ==
      if upperFirst then ToUpper(Trimmed(str)[0]) else ToLower(Trimmed(str)[0])
  {
    var s := Trimmed(str);
    var calls := IterCalls(s);
    IterCallsFirst(s);
    EmittedPrefix(calls, 1, |calls|, upperFirst);
    assert Emitted(calls, 1, upperFirst) == CamelEmit(calls[0], upperFirst);
  }

  /** The camel case examples of tests/test_go_strings_port.cpp. */
  lemma {:induction false} UpperCamelExampleSteps(calls: seq<Call>)
    requires |calls| == 11
    requires calls[0].prev == NUL && calls[0].curr == 'h'
    requires calls[1].prev == 'h' && calls[1].curr == 'e'
    requires calls[2].prev == 'e' && calls[2].curr == 'l'
    requires calls[3].prev == 'l' && calls[3].curr == 'l'
    requires calls[4].prev == 'l' && calls[4].curr == 'o'
    requires calls[5].prev == 'o' && calls[5].curr == '_'
    requires calls[6].prev == '_' && calls[6].curr == 'w'
    requires calls[7].prev == 'w' && calls[7].curr == 'o'
    requires calls[8].prev == 'o' && calls[8].curr == 'r'
    requires calls[9].prev == 'r' && calls[9].curr == 'l'
    requires calls[10].prev == 'l' && calls[10].curr == 'd'
    ensures Emitted(calls, 11, true) == "HelloWorld"
  {
    assert Emitted(calls, 1, true) == "H";
    assert Emitted(calls, 2, true) == "He";
    assert Emitted(calls, 3, true) == "Hel";
    assert Emitted(calls, 4, true) == "Hell";
    assert Emitted(calls, 5, true) == "Hello";
    assert Emitted(calls, 6, true) == "Hello";
    assert Emitted(calls, 7, true) == "HelloW";
    assert Emitted(calls, 8, true) == "HelloWo";
    assert Emitted(calls, 9, true) == "HelloWor";
    assert Emitted(calls, 10, true) == "HelloWorl";
  }

  lemma {:induction false} UpperCamelExample()
    ensures UpperCamelCase("hello_world") == "HelloWorld"
  {
    var s := "hello_world";
    assert Trimmed(s) == s;
    IterCallsPlain(s);
    UpperCamelExampleSteps(IterCalls(s));
  }

  lemma {:induction false} LowerCamelExampleSteps(calls: seq<Call>)
    requires |calls| == 11
    requires calls[0].prev == NUL && calls[0].curr == 'H'
    requires calls[1].prev == 'H' && calls[1].curr == 'E'
    requires calls[2].prev == 'E' && calls[2].curr == 'L'
    requires calls[3].prev == 'L' && calls[3].curr == 'L'
    requires calls[4].prev == 'L' && calls[4].curr == 'O'
    requires calls[5].prev == 'O' && calls[5].curr == '-'
    requires calls[6].prev == '-' && calls[6].curr == 'W'
    requires calls[7].prev == 'W' && calls[7].curr == 'O'
    requires calls[8].prev == 'O' && calls[8].curr == 'R'
    requires calls[9].prev == 'R' && calls[9].curr == 'L'
    requires calls[10].prev == 'L' && calls[10].curr == 'D'
    ensures Emitted(calls, 11, false) == "helloWorld"
  {
    assert Emitted(calls, 1, false) == "h";
    assert Emitted(calls, 2, false) == "he";
    assert Emitted(calls, 3, false) == "hel";
    assert Emitted(calls, 4, false) == "hell";
    assert Emitted(calls, 5, false) == "hello";
    assert Emitted(calls, 6, false) == "hello";
    assert Emitted(calls, 7, false) == "helloW";
    assert Emitted(calls, 8, false) == "helloWo";
    assert Emitted(calls, 9, false) == "helloWor";
    assert Emitted(calls, 10, false) == "helloWorl";
  }

  lemma {:induction false} LowerCamelExample()
    ensures LowerCamelCase("HELLO-WORLD") == "helloWorld"
  {
    var s := "HELLO-WORLD";
    assert Trimmed(s) == s;
    IterCallsPlain(s);
    LowerCamelExampleSteps(IterCalls(s));
  }

  // ---------------------------------------------------------------------------
  // delimiter_case_impl
  // ---------------------------------------------------------------------------

  /** The `adjust_case` lambda. */
  function Adjust(c: char, upperCase: bool): (r: char)
    ensures !IsDelimiter(c) ==> !IsDelimiter(r)
    ensures if upperCase then !IsLower(r) else !IsUpper(r)
  {
    if upperCase then ToUpper(c) else ToLower(c)
  }

  /** What one iteration of the `delimiter_case_impl` loop appends for `curr`: a delimiter
      after a word for the first of a run of delimiters; for an upper-case letter, a
      delimiter first when it follows a lower-case letter or ends a run of capitals
      ("XMLHttp": before 'H'), then the letter; any other non-NUL character, adjusted. */
  function DelimStep(prev: char, curr: char, next: char, d: char, upperCase: bool): (r: string)
    ensures |r| <= 2
  {
    if IsDelimiter(curr) then (if !IsDelimiter(prev) && prev != NUL then [d] else [])
    else if IsUpper(curr) then
      (if IsLower(prev) || (IsUpper(prev) && IsLower(next)) then [d] else []) + [Adjust(curr, upperCase)]
    else if curr != NUL then [Adjust(curr, upperCase)]
    else []
  }

  /** What the code after the loop appends for the last character: a delimiter only after a
      lower-case letter, then the character unless it is a delimiter. */
  function DelimLast(prev: char, curr: char, d: char, upperCase: bool): (r: string)
    ensures |r| <= 2
  {
    (if IsUpper(curr) && IsLower(prev) && prev != NUL then [d] else [])
      + (if !IsDelimiter(curr) then [Adjust(curr, upperCase)] else [])
  }

  /** What the loop has appended once it has handled the positions before `m`; the
      character after each is its `next`. */
  function DelimUpTo(s: string, m: nat, d: char, upperCase: bool): (r: string)
    requires m < |s|
    ensures |r| <= 2 * m
    decreases m
  {
    if m == 0 then []
    else DelimUpTo(s, m - 1, d, upperCase) + DelimStep(Prev(s, m - 1), s[m - 1], s[m], d, upperCase)
  }

  /** `delimiter_case_impl(str, delimiter, upper_case)`. */
  function DelimiterCase(str: string, d: char, upperCase: bool): (r: string)
    ensures |r| <= 2 * |Trimmed(str)|
  {
    var s := Trimmed(str);
    if s == [] then []
    else DelimUpTo(s, |s| - 1, d, upperCase) + DelimLast(Prev(s, |s| - 1), s[|s| - 1], d, upperCase)
  }

  function SnakeCase(str: string): string {
    DelimiterCase(str, '_', false)
  }

  function UpperSnakeCase(str: string): string {
    DelimiterCase(str, '_', true)
  }

  function KebabCase(str: string): string {
    DelimiterCase(str, '-', false)
  }

  function UpperKebabCase(str: string): string {
    DelimiterCase(str, '-', true)
  }

  /** src/strings.cpp `detail::delimiter_case_impl`. */
  method DelimiterCaseImpl(str: string, delimiter: char, upperCase: bool) returns (result: string)
    ensures result == DelimiterCase(str, delimiter, upperCase)
  {
    var s := Trim(str);
    if |s| == 0 {
      return s;
    }
    result := [];
    var prev, curr := NUL, NUL;
    for j := 0 to |s|
      invariant j == 0 ==> prev == NUL && curr == NUL && result == []
      invariant j > 0 ==> curr == s[j - 1] && prev == Prev(s, j - 1)
      invariant j > 0 ==> result == DelimUpTo(s, j - 1, delimiter, upperCase)
    {
      var next := s[j];
      ghost var result0 := result;
      if IsDelimiter(curr) {
        if !IsDelimiter(prev) && prev != NUL {
          result := result + [delimiter];
        }
      } else if IsUpper(curr) {
        if IsLower(prev) || (IsUpper(prev) && IsLower(next)) {
          result := result + [delimiter];
        }
        result := result + [Adjust(curr, upperCase)];
      } else if curr != NUL {
        result := result + [Adjust(curr, upperCase)];
      }
      assert result == result0 + DelimStep(prev, curr, next, delimiter, upperCase);
      prev := curr;
      curr := next;
    }
    ghost var result0 := result;
    if IsUpper(curr) && IsLower(prev) && prev != NUL {
      result := result + [delimiter];
    }
    if !IsDelimiter(curr) {
      result := result + [Adjust(curr, upperCase)];
    }
    assert result == result0 + DelimLast(prev, curr, delimiter, upperCase);
  }

  /** No two delimiters `d` stand next to each other in `r`. */
  predicate NoDoubled(r: string, d: char) {
    forall i :: 0 < i < |r| ==> !(r[i - 1] == d && r[i] == d)
  }

  /** Appending keeps `r` free of doubled delimiters when the seam is not a doubled one. */
  lemma {:induction false} NoDoubledAppend(r: string, t: string, d: char)
    requires NoDoubled(r, d) && NoDoubled(t, d)
    requires r != [] && t != [] && t[0] == d ==> r[|r| - 1] != d
    ensures NoDoubled(r + t, d)
  {
    var rt := r + t;
    forall i | 0 < i < |rt|
      ensures !(rt[i - 1] == d && rt[i] == d)
    {
      if i == |r| {
        assert rt[i - 1] == r[|r| - 1] && rt[i] == t[0];
      } else if i < |r| {
        assert rt[i - 1] == r[i - 1] && rt[i] == r[i];
      } else {
        assert rt[i - 1] == t[i - 1 - |r|] && rt[i] == t[i - |r|];
      }
    }
  }

  /** One iteration appends no doubled delimiter, starts with the delimiter only after a
      word character, and ends with it (or appends nothing) only for a non-word character. */
  lemma {:induction false} StepSeparated(prev: char, curr: char, next: char, d: char, upperCase: bool)
    requires IsDelimiter(d)
    ensures var t := DelimStep(prev, curr, next, d, upperCase);
      NoDoubled(t, d) && (t != [] && t[0] == d ==> IsWordChar(prev))
      && (t == [] || t[|t| - 1] == d ==> !IsWordChar(curr))
  {
  }

  lemma {:induction false} LastSeparated(prev: char, curr: char, d: char, upperCase: bool)
    requires IsDelimiter(d)
    ensures var t := DelimLast(prev, curr, d, upperCase);
      NoDoubled(t, d) && (t != [] && t[0] == d ==> IsWordChar(prev))
  {
  }

  /** How those facts about a prefix `r` and an appended piece `t` combine. */
  lemma {:induction false} Seam(r: string, t: string, d: char, wordBefore: bool, wordNow: bool)
    requires NoDoubled(r, d) && NoDoubled(t, d) && (r != [] ==> r[0] != d)
    requires r == [] || r[|r| - 1] == d ==> !wordBefore
    requires t != [] && t[0] == d ==> wordBefore
    requires t == [] || t[|t| - 1] == d ==> !wordNow
    ensures NoDoubled(r + t, d) && (r + t != [] ==> (r + t)[0] != d)
    ensures r + t == [] || (r + t)[|r + t| - 1] == d ==> !wordNow
  {
    NoDoubledAppend(r, t, d);
    if r == [] {
      assert r + t == t;
    } else {
      assert (r + t)[0] == r[0];
    }
    if t != [] {
      assert (r + t)[|r + t| - 1] == t[|t| - 1];
    }
  }

  /** What the loop appends never doubles the delimiter, never starts with it, and ends
      with it (or is empty) only when the last handled character was a delimiter or NUL. */
  lemma {:induction false} DelimUpToSeparated(s: string, m: nat, d: char, upperCase: bool)
    requires m < |s| && IsDelimiter(d)
    ensures var r := DelimUpTo(s, m, d, upperCase);
      NoDoubled(r, d) && (r != [] ==> r[0] != d) && (r == [] || r[|r| - 1] == d ==> m == 0 || !IsWordChar(s[m - 1]))
    decreases m
  {
    if m > 0 {
      DelimUpToSeparated(s, m - 1, d, upperCase);
      var r := DelimUpTo(s, m - 1, d, upperCase);
      var prev, curr := Prev(s, m - 1), s[m - 1];
      var t := DelimStep(prev, curr, s[m], d, upperCase);
      assert m - 1 == 0 || !IsWordChar(s[m - 2]) <==> !IsWordChar(prev);
      StepSeparated(prev, curr, s[m], d, upperCase);
      Seam(r, t, d, IsWordChar(prev), IsWordChar(curr));
      assert DelimUpTo(s, m, d, upperCase) == r + t;
    }
  }

  /** The delimiter cases never produce a doubled or leading delimiter. */
  lemma {:induction false} DelimiterCaseSeparated(str: string, d: char, upperCase: bool)
    requires IsDelimiter(d)
    ensures NoDoubled(DelimiterCase(str, d, upperCase), d)
    ensures DelimiterCase(str, d, upperCase) != [] ==> DelimiterCase(str, d, upperCase)[0] != d
  {
    var s := Trimmed(str);
    if s != [] {
      var m := |s| - 1;
      DelimUpToSeparated(s, m, d, upperCase);
      LastSeparated(Prev(s, m), s[m], d, upperCase);
      Seam(DelimUpTo(s, m, d, upperCase), DelimLast(Prev(s, m), s[m], d, upperCase), d,
        IsWordChar(Prev(s, m)), false);
    }
  }

  /** Every character the loop appends is the delimiter or a non-delimiter in the requested case. */
  predicate CaseClean(r: string, d: char, upperCase: bool) {
    forall x :: x in r ==> x == d || (!IsDelimiter(x) && if upperCase then !IsLower(x) else !IsUpper(x))
  }

  lemma {:induction false} DelimUpToClean(s: string, m: nat, d: char, upperCase: bool)
    requires m < |s|
    ensures CaseClean(DelimUpTo(s, m, d, upperCase), d, upperCase)
    decreases m
  {
    if m > 0 {
      DelimUpToClean(s, m - 1, d, upperCase);
    }
  }

  /** Snake and kebab case output holds only the delimiter and characters of the requested
      case: every input delimiter is replaced, and every letter is converted. */
  lemma {:induction false} DelimiterCaseClean(str: string, d: char, upperCase: bool)
    ensures CaseClean(DelimiterCase(str, d, upperCase), d, upperCase)
  {
    var s := Trimmed(str);
    if s != [] {
      DelimUpToClean(s, |s| - 1, d, upperCase);
    }
  }

  /** The snake and kebab case examples of tests/test_go_strings_port.cpp. */
  lemma {:induction false} SnakeExampleSteps1(s: string)
    requires |s| == 14
    requires s[0] == 'X' && s[1] == 'M' && s[2] == 'L' && s[3] == 'H'
    requires s[4] == 't' && s[5] == 't' && s[6] == 'p' && s[7] == 'R'
    requires s[8] == 'e' && s[9] == 'q' && s[10] == 'u' && s[11] == 'e'
    requires s[12] == 's' && s[13] == 't'
    ensures DelimUpTo(s, 5, '_', false) == "xml_ht"
  {
    assert DelimStep(Prev(s, 0), s[0], s[1], '_', false) == "x";
    assert DelimUpTo(s, 1, '_', false) == "x";
    assert DelimStep(Prev(s, 1), s[1], s[2], '_', false) == "m";
    assert DelimUpTo(s, 2, '_', false) == "xm";
    assert DelimStep(Prev(s, 2), s[2], s[3], '_', false) == "l";
    assert DelimUpTo(s, 3, '_', false) == "xml";
    assert DelimStep(Prev(s, 3), s[3], s[4], '_', false) == "_h";
    assert DelimUpTo(s, 4, '_', false) == "xml_h";
  }

  lemma {:induction false} SnakeExampleSteps2(s: string)
    requires |s| == 14
    requires s[0] == 'X' && s[1] == 'M' && s[2] == 'L' && s[3] == 'H'
    requires s[4] == 't' && s[5] == 't' && s[6] == 'p' && s[7] == 'R'
    requires s[8] == 'e' && s[9] == 'q' && s[10] == 'u' && s[11] == 'e'
    requires s[12] == 's' && s[13] == 't'
    requires DelimUpTo(s, 5, '_', false) == "xml_ht"
    ensures DelimUpTo(s, 9, '_', false) == "xml_http_re"
  {
    assert DelimStep(Prev(s, 5), s[5], s[6], '_', false) == "t";
    assert DelimUpTo(s, 6, '_', false) == "xml_htt";
    assert DelimStep(Prev(s, 6), s[6], s[7], '_', false) == "p";
    assert DelimUpTo(s, 7, '_', false) == "xml_http";
    assert DelimStep(Prev(s, 7), s[7], s[8], '_', false) == "_r";
    assert DelimUpTo(s, 8, '_', false) == "xml_http_r";
  }

  lemma {:induction false} SnakeExampleSteps3(s: string)
    requires |s| == 14
    requires s[0] == 'X' && s[1] == 'M' && s[2] == 'L' && s[3] == 'H'
    requires s[4] == 't' && s[5] == 't' && s[6] == 'p' && s[7] == 'R'
    requires s[8] == 'e' && s[9] == 'q' && s[10] == 'u' && s[11] == 'e'
    requires s[12] == 's' && s[13] == 't'
    requires DelimUpTo(s, 9, '_', false) == "xml_http_re"
    ensures DelimUpTo(s, 13, '_', false) == "xml_http_reques"
  {
    assert DelimStep(Prev(s, 9), s[9], s[10], '_', false) == "q";
    assert DelimUpTo(s, 10, '_', false) == "xml_http_req";
    assert DelimStep(Prev(s, 10), s[10], s[11], '_', false) == "u";
    assert DelimUpTo(s, 11, '_', false) == "xml_http_requ";
    assert DelimStep(Prev(s, 11), s[11], s[12], '_', false) == "e";
    assert DelimUpTo(s, 12, '_', false) == "xml_http_reque";
  }

  lemma {:induction false} SnakeExampleSteps4(s: string)
    requires |s| == 14
    requires s[0] == 'X' && s[1] == 'M' && s[2] == 'L' && s[3] == 'H'
    requires s[4] == 't' && s[5] == 't' && s[6] == 'p' && s[7] == 'R'
    requires s[8] == 'e' && s[9] == 'q' && s[10] == 'u' && s[11] == 'e'
    requires s[12] == 's' && s[13] == 't'
    requires DelimUpTo(s, 13, '_', false) == "xml_http_reques"
    ensures DelimiterCase(s, '_', false) == "xml_http_request"
  {
    TrimmedPlain(s);
    assert DelimLast(Prev(s, 13), s[13], '_', false) == "t";
    assert DelimiterCase(s, '_', false) == DelimUpTo(s, 13, '_', false) + "t";
  }

  lemma {:induction false} SnakeExample()
    ensures SnakeCase("XMLHttpRequest") == "xml_http_request"
  {
    SnakeExampleSteps1("XMLHttpRequest");
    SnakeExampleSteps2("XMLHttpRequest");
    SnakeExampleSteps3("XMLHttpRequest");
    SnakeExampleSteps4("XMLHttpRequest");
  }

  lemma {:induction false} UpperSnakeExampleSteps1(s: string)
    requires |s| == 10
    requires s[0] == 'h' && s[1] == 'e' && s[2] == 'l' && s[3] == 'l'
    requires s[4] == 'o' && s[5] == 'W' && s[6] == 'o' && s[7] == 'r'
    requires s[8] == 'l' && s[9] == 'd'
    ensures DelimUpTo(s, 5, '_', true) == "HELLO"
  {
    assert DelimStep(Prev(s, 0), s[0], s[1], '_', true) == "H";
    assert DelimUpTo(s, 1, '_', true) == "H";
    assert DelimStep(Prev(s, 1), s[1], s[2], '_', true) == "E";
    assert DelimUpTo(s, 2, '_', true) == "HE";
    assert DelimStep(Prev(s, 2), s[2], s[3], '_', true) == "L";
    assert DelimUpTo(s, 3, '_', true) == "HEL";
    assert DelimStep(Prev(s, 3), s[3], s[4], '_', true) == "L";
    assert DelimUpTo(s, 4, '_', true) == "HELL";
  }

  lemma {:induction false} UpperSnakeExampleSteps2(s: string)
    requires |s| == 10
    requires s[0] == 'h' && s[1] == 'e' && s[2] == 'l' && s[3] == 'l'
    requires s[4] == 'o' && s[5] == 'W' && s[6] == 'o' && s[7] == 'r'
    requires s[8] == 'l' && s[9] == 'd'
    requires DelimUpTo(s, 5, '_', true) == "HELLO"
    ensures DelimUpTo(s, 9, '_', true) == "HELLO_WORL"
  {
    assert DelimStep(Prev(s, 5), s[5], s[6], '_', true) == "_W";
    assert DelimUpTo(s, 6, '_', true) == "HELLO_W";
    assert DelimStep(Prev(s, 6), s[6], s[7], '_', true) == "O";
    assert DelimUpTo(s, 7, '_', true) == "HELLO_WO";
    assert DelimStep(Prev(s, 7), s[7], s[8], '_', true) == "R";
    assert DelimUpTo(s, 8, '_', true) == "HELLO_WOR";
  }

  lemma {:induction false} UpperSnakeExampleSteps3(s: string)
    requires |s| == 10
    requires s[0] == 'h' && s[1] == 'e' && s[2] == 'l' && s[3] == 'l'
    requires s[4] == 'o' && s[5] == 'W' && s[6] == 'o' && s[7] == 'r'
    requires s[8] == 'l' && s[9] == 'd'
    requires DelimUpTo(s, 9, '_', true) == "HELLO_WORL"
    ensures DelimiterCase(s, '_', true) == "HELLO_WORLD"
  {
    TrimmedPlain(s);
    assert DelimLast(Prev(s, 9), s[9], '_', true) == "D";
    assert DelimiterCase(s, '_', true) == DelimUpTo(s, 9, '_', true) + "D";
  }

  lemma {:induction false} UpperSnakeExample()
    ensures UpperSnakeCase("helloWorld") == "HELLO_WORLD"
  {
    UpperSnakeExampleSteps1("helloWorld");
    UpperSnakeExampleSteps2("helloWorld");
    UpperSnakeExampleSteps3("helloWorld");
  }

  lemma {:induction false} KebabExampleSteps1(s: string)
    requires |s| == 11
    requires s[0] == 'H' && s[1] == 'e' && s[2] == 'l' && s[3] == 'l'
    requires s[4] == 'o' && s[5] == ' ' && s[6] == 'W' && s[7] == 'o'
    requires s[8] == 'r' && s[9] == 'l' && s[10] == 'd'
    ensures DelimUpTo(s, 5, '-', false) == "hello"
  {
    assert DelimStep(Prev(s, 0), s[0], s[1], '-', false) == "h";
    assert DelimUpTo(s, 1, '-', false) == "h";
    assert DelimStep(Prev(s, 1), s[1], s[2], '-', false) == "e";
    assert DelimUpTo(s, 2, '-', false) == "he";
    assert DelimStep(Prev(s, 2), s[2], s[3], '-', false) == "l";
    assert DelimUpTo(s, 3, '-', false) == "hel";
    assert DelimStep(Prev(s, 3), s[3], s[4], '-', false) == "l";
    assert DelimUpTo(s, 4, '-', false) == "hell";
  }

  lemma {:induction false} KebabExampleSteps2(s: string)
    requires |s| == 11
    requires s[0] == 'H' && s[1] == 'e' && s[2] == 'l' && s[3] == 'l'
    requires s[4] == 'o' && s[5] == ' ' && s[6] == 'W' && s[7] == 'o'
    requires s[8] == 'r' && s[9] == 'l' && s[10] == 'd'
    requires DelimUpTo(s, 5, '-', false) == "hello"
    ensures DelimUpTo(s, 10, '-', false) == "hello-worl"
  {
    assert DelimStep(Prev(s, 5), s[5], s[6], '-', false) == "-";
    assert DelimUpTo(s, 6, '-', false) == "hello-";
    assert DelimStep(Prev(s, 6), s[6], s[7], '-', false) == "w";
    assert DelimUpTo(s, 7, '-', false) == "hello-w";
    assert DelimStep(Prev(s, 7), s[7], s[8], '-', false) == "o";
    assert DelimUpTo(s, 8, '-', false) == "hello-wo";
    assert DelimStep(Prev(s, 8), s[8], s[9], '-', false) == "r";
    assert DelimUpTo(s, 9, '-', false) == "hello-wor";
  }

  lemma {:induction false} KebabExampleSteps3(s: string)
    requires |s| == 11
    requires s[0] == 'H' && s[1] == 'e' && s[2] == 'l' && s[3] == 'l'
    requires s[4] == 'o' && s[5] == ' ' && s[6] == 'W' && s[7] == 'o'
    requires s[8] == 'r' && s[9] == 'l' && s[10] == 'd'
    requires DelimUpTo(s, 10, '-', false) == "hello-worl"
    ensures DelimiterCase(s, '-', false) == "hello-world"
  {
    TrimmedPlain(s);
    assert DelimLast(Prev(s, 10), s[10], '-', false) == "d";
    assert DelimiterCase(s, '-', false) == DelimUpTo(s, 10, '-', false) + "d";
  }

  lemma {:induction false} KebabExample()
    ensures KebabCase("Hello World") == "hello-world"
  {
    KebabExampleSteps1("Hello World");
    KebabExampleSteps2("Hello World");
    KebabExampleSteps3("Hello World");
  }

  // ---------------------------------------------------------------------------
  // to_camel_case
  // ---------------------------------------------------------------------------

  /** The two characters `to_camel_case` treats as word separators. */
  predicate IsSeparator(c: char) {
    c == '-' || c == '_'
  }

  /** What `to_camel_case` produces for the rest `s` of its input when `pending` says the
      previous character was '-' or '_': that character is dropped and the one after it is
      upper-cased, whatever it is; every other character is copied. */
  function ToCamel(s: string, pending: bool): (r: string)
    ensures |r| <= |s|
    decreases |s|
  {
    if s == [] then []
    else if pending then [ToUpper(s[0])] + ToCamel(s[1..], false)
    else if IsSeparator(s[0]) then ToCamel(s[1..], true)
    else [s[0]] + ToCamel(s[1..], false)
  }

  /** src/strings.cpp `to_camel_case`. */
  method ToCamelCase(str: string) returns (result: string)
    ensures result == ToCamel(str, false)
  {
    result := [];
    var isToUpper := false;
    for i := 0 to |str|
      invariant result + ToCamel(str[i..], isToUpper) == ToCamel(str, false)
    {
      ghost var (result0, pending0) := (result, isToUpper);
      var ch := str[i];
      if isToUpper {
        result := result + [ToUpper(ch)];
        isToUpper := false;
      } else {
        if IsSeparator(ch) {
          isToUpper := true;
        } else {
          result := result + [ch];
        }
      }
      ToCamelStep(str, i, result0, pending0, result, isToUpper);
    }
  }

  lemma {:induction false} ToCamelStep(str: string, i: nat, result0: string, pending0: bool, result: string, pending: bool)
    requires i < |str|
    requires result == result0 + (if pending0 then [ToUpper(str[i])] else if IsSeparator(str[i]) then [] else [str[i]])
    requires pending == (!pending0 && IsSeparator(str[i]))
    ensures result + ToCamel(str[i + 1..], pending) == result0 + ToCamel(str[i..], pending0)
  {
    assert str[i..][1..] == str[i + 1..];
  }

  /** An input without '-' or '_' comes back unchanged: spaces are not delimiters here. */
  lemma {:induction false} ToCamelPlain(s: string)
    requires '-' !in s && '_' !in s
    ensures ToCamel(s, false) == s
    decreases |s|
  {
    if s != [] {
      assert s[1..] + [] == s[1..];
      assert '-' !in s[1..] && '_' !in s[1..] by {
        assert forall c :: c in s[1..] ==> c in s;
      }
      ToCamelPlain(s[1..]);
      assert s == [s[0]] + s[1..];
    }
  }

  /** Without two separators in a row, every '-' and '_' is dropped. */
  lemma {:induction false} ToCamelDropsSeparators(s: string, pending: bool)
    requires forall i :: 0 < i < |s| ==> !(IsSeparator(s[i - 1]) && IsSeparator(s[i]))
    requires pending && s != [] ==> !IsSeparator(s[0])
    ensures forall c :: c in ToCamel(s, pending) ==> !IsSeparator(c)
    decreases |s|
  {
    if s != [] {
      ToCamelDropsSeparators(s[1..], !pending && IsSeparator(s[0]));
    }
  }

  /** A separator-free prefix is copied as it is. */
  lemma {:induction false} ToCamelPlainPrefix(a: string, b: string)
    requires '-' !in a && '_' !in a
    ensures ToCamel(a + b, false) == a + ToCamel(b, false)
    decreases |a|
  {
    if a != [] {
      assert a[0] in a;
      var ab := a + b;
      assert ab[0] == a[0] && ab[1..] == a[1..] + b;
      assert '-' !in a[1..] && '_' !in a[1..] by {
        assert forall c :: c in a[1..] ==> c in a;
      }
      ToCamelPlainPrefix(a[1..], b);
      assert ToCamel(ab, false) == [a[0]] + ToCamel(ab[1..], false);
      assert [a[0]] + (a[1..] + ToCamel(b, false)) == a + ToCamel(b, false);
    } else {
      assert a + b == b;
    }
  }

  /** A separator, then a separator-free word: the word comes out capitalised. */
  lemma {:induction false} ToCamelWord(sep: char, w: string, b: string)
    requires IsSeparator(sep) && w != [] && '-' !in w && '_' !in w
    ensures ToCamel([sep] + w + b, false) == [ToUpper(w[0])] + w[1..] + ToCamel(b, false)
  {
    assert ([sep] + w + b)[1..] == w + b;
    assert (w + b)[1..] == w[1..] + b;
    assert '-' !in w[1..] && '_' !in w[1..] by {
      assert forall c :: c in w[1..] ==> c in w;
    }
    ToCamelPlainPrefix(w[1..], b);
  }

  /** The `to_camel_case` examples of tests/test_go_strings_port.cpp. */
  lemma {:induction false} ToCamelExample(s: string)
    requires s == "hello_world"
    ensures ToCamel(s, false) == "helloWorld"
  {
    var w := "world";
    ToCamelWord('_', w, "");
    assert ['_'] + w + "" == "_world";
    assert [ToUpper(w[0])] + w[1..] + ToCamel("", false) == "World";
    ToCamelPlainPrefix("hello", "_world");
    assert "hello" + "_world" == s;
    assert "hello" + "World" == "helloWorld";
  }
}
