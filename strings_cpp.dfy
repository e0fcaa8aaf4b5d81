/** String utilities of src/strings.cpp: trimming, splitting, de-duplication, hex
    conversion, replacement, the ASCII character helpers and the camel, snake and
    kebab case converters. A C++ `char` is a Dafny `char`; `std::string` is `string`. */
module Strings {
  import opened Wrappers
  import opened Seqs
  import Ints

  const NUL: char := 0 as char

  // ---------------------------------------------------------------------------
  // Character helpers (ASCII only, as the source)
  // ---------------------------------------------------------------------------

  /** `is_whitespace` and `is_space`: blank, tab, line feed or carriage return. */
  predicate IsWhitespace(c: char) {
    c == ' ' || c == '\t' || c == '\n' || c == '\r'
  }

  predicate IsLower(c: char) {
    'a' <= c <= 'z'
  }

  predicate IsUpper(c: char) {
    'A' <= c <= 'Z'
  }

  /** `to_lower(char)`: only 'A'..'Z' change, and they become their lower-case letter. */
  function ToLower(c: char): (r: char)
    ensures r != c <==> IsUpper(c)
    ensures !IsUpper(r)
    ensures IsUpper(c) ==> IsLower(r) && r as int - c as int == 32
  {
    if IsUpper(c) then (c as int + 32) as char else c
  }

  /** `to_upper(char)`: only 'a'..'z' change, and they become their upper-case letter. */
  function ToUpper(c: char): (r: char)
    ensures r != c <==> IsLower(c)
    ensures !IsLower(r)
    ensures IsLower(c) ==> IsUpper(r) && c as int - r as int == 32
  {
    if IsLower(c) then (c as int - 32) as char else c
  }

  /** The two case maps undo each other on letters of the other case. */
  lemma {:induction false} CaseRoundTrip(c: char)
    ensures IsUpper(c) ==> ToUpper(ToLower(c)) == c
    ensures IsLower(c) ==> ToLower(ToUpper(c)) == c
    ensures ToLower(ToLower(c)) == ToLower(c) && ToUpper(ToUpper(c)) == ToUpper(c)
  {
  }

  /** `is_delimiter`: '-', '_' or a space character. */
  predicate IsDelimiter(c: char) {
    c == '-' || c == '_' || IsWhitespace(c)
  }

  /** Case conversion never turns a non-delimiter into a delimiter. */
  lemma {:induction false} CaseKeepsNonDelimiter(c: char)
    requires !IsDelimiter(c)
    ensures !IsDelimiter(ToLower(c)) && !IsDelimiter(ToUpper(c))
  {
  }

  // ---------------------------------------------------------------------------
  // trim
  // ---------------------------------------------------------------------------

  /** Every character in `s[lo..hi]` is whitespace. */
  predicate WhitespaceRange(s: string, lo: nat, hi: nat)
    requires lo <= hi <= |s|
  {
    forall i :: lo <= i < hi ==> IsWhitespace(s[i])
  }

  predicate AllWhitespace(s: string) {
    WhitespaceRange(s, 0, |s|)
  }

  /** The first non-whitespace position at or after `i`, or `|s|`. */
  function SkipLeading(s: string, i: nat): (n: nat)
    requires i <= |s|
    ensures i <= n <= |s| && WhitespaceRange(s, i, n)
    ensures n < |s| ==> !IsWhitespace(s[n])
    decreases |s| - i
  {
    if i == |s| || !IsWhitespace(s[i]) then i else SkipLeading(s, i + 1)
  }

  /** One past the last non-whitespace position in `s[lo..j]`, or `lo`. */
  function SkipTrailing(s: string, lo: nat, j: nat): (n: nat)
    requires lo <= j <= |s|
    ensures lo <= n <= j && WhitespaceRange(s, n, j)
    ensures lo < n ==> !IsWhitespace(s[n - 1])
    decreases j
  {
    if j == lo || !IsWhitespace(s[j - 1]) then j else SkipTrailing(s, lo, j - 1)
  }

  /** Where `trim` cuts: everything before `lo` and from `hi` on is whitespace, and
      what is kept starts and ends with a non-whitespace character. */
  function TrimBounds(s: string): (b: (nat, nat))
    ensures b.0 <= b.1 <= |s|
    ensures WhitespaceRange(s, 0, b.0) && WhitespaceRange(s, b.1, |s|)
    ensures b.0 < b.1 ==> !IsWhitespace(s[b.0]) && !IsWhitespace(s[b.1 - 1])
  {
    var lo := SkipLeading(s, 0);
    (lo, SkipTrailing(s, lo, |s|))
  }

  function Trimmed(s: string): string {
    s[TrimBounds(s).0..TrimBounds(s).1]
  }

  /** The bounds are the only ones with that description, so `trim` removes
      exactly the maximal whitespace prefix and suffix. */
  lemma {:induction false} TrimBoundsUnique(s: string, lo: nat, hi: nat)
    requires lo <= hi <= |s|
    requires WhitespaceRange(s, 0, lo) && WhitespaceRange(s, hi, |s|)
    requires lo < hi ==> !IsWhitespace(s[lo]) && !IsWhitespace(s[hi - 1])
    ensures lo < hi ==> (lo, hi) == TrimBounds(s)
    ensures lo == hi ==> Trimmed(s) == [] && AllWhitespace(s)
  {
  }

  /** A string that starts and ends with a non-whitespace character is its own trim. */
  lemma {:induction false} TrimmedPlain(s: string)
    requires s != [] && !IsWhitespace(s[0]) && !IsWhitespace(s[|s| - 1])
    ensures Trimmed(s) == s
  {
    TrimBoundsUnique(s, 0, |s|);
  }

  /** Trimming a trimmed string changes nothing. */
  lemma {:induction false} TrimIdempotent(s: string)
    ensures Trimmed(Trimmed(s)) == Trimmed(s)
  {
    var t := Trimmed(s);
    TrimBoundsUnique(t, 0, |t|);
  }

  /** src/strings.cpp `trim`: skip whitespace from the front, then from the back. */
  method Trim(str: string) returns (t: string)
    ensures t == Trimmed(str)
  {
    ghost var b := TrimBounds(str);
    var start := 0;
    var end := |str|;
    while start < end && IsWhitespace(str[start])
      invariant start <= end == |str|
      invariant start <= b.0
    {
      start := start + 1;
    }
    while start < end && IsWhitespace(str[end - 1])
      invariant start <= end <= |str|
      invariant start == b.0 <= b.1 <= end
    {
      end := end - 1;
    }
    if start == 0 && end == |str| {
      t := str;
    } else {
      t := str[start..end];
    }
  }

  /** src/strings.cpp `is_empty`: `trim` leaves nothing. */
  predicate IsEmpty(str: string) {
    Trimmed(str) == []
  }

  /** A string is empty in that sense exactly when every character is whitespace. */
  lemma {:induction false} IsEmptyIff(str: string)
    ensures IsEmpty(str) <==> AllWhitespace(str)
  {
    var b := TrimBounds(str);
    if b.0 < b.1 {
      assert !IsWhitespace(str[b.0]);
    } else {
      TrimBoundsUnique(str, b.0, b.1);
    }
  }

  // ---------------------------------------------------------------------------
  // split on a character
  // ---------------------------------------------------------------------------

  /** `std::string::find(char, from)`: the first position at or after `from` holding `c`. */
  function Find(s: string, c: char, from: nat): (r: Option<nat>)
    requires from <= |s|
    ensures r.Some? ==> from <= r.value < |s| && s[r.value] == c
    ensures forall j :: from <= j < (if r.Some? then r.value else |s|) ==> s[j] != c
    decreases |s| - from
  {
    if from == |s| then None
    else if s[from] == c then Some(from)
    else Find(s, c, from + 1)
  }

  /** The raw fields of `s[from..]` between occurrences of `d`. */
  function FieldsFrom(s: string, d: char, from: nat): (r: seq<string>)
    requires from <= |s|
    ensures |r| > 0
    decreases |s| - from
  {
    match Find(s, d, from)
    case None => [s[from..]]
    case Some(k) => [s[from..k]] + FieldsFrom(s, d, k + 1)
  }

  lemma {:induction false} FieldsUnfold(s: string, d: char, from: nat, k: nat)
    requires from <= |s| && Find(s, d, from) == Some(k)
    ensures FieldsFrom(s, d, from) == [s[from..k]] + FieldsFrom(s, d, k + 1)
  { }

  lemma {:induction false} FieldsNone(s: string, d: char, from: nat)
    requires from <= |s| && Find(s, d, from) == None
    ensures FieldsFrom(s, d, from) == [s[from..]]
  { }

  function Fields(s: string, d: char): seq<string> {
    FieldsFrom(s, d, 0)
  }

  /** Each field trimmed; empty tokens dropped when `ignoreEmpty` is set. */
  function TrimKeep(fields: seq<string>, ignoreEmpty: bool): seq<string>
    decreases |fields|
  {
    if fields == [] then []
    else
      var t := Trimmed(fields[0]);
      (if !ignoreEmpty || t != [] then [t] else []) + TrimKeep(fields[1..], ignoreEmpty)
  }

  lemma {:induction false} TrimKeepAppend(a: seq<string>, b: seq<string>, ignoreEmpty: bool)
    ensures TrimKeep(a + b, ignoreEmpty) == TrimKeep(a, ignoreEmpty) + TrimKeep(b, ignoreEmpty)
    decreases |a|
  {
    if a == [] {
      assert a + b == b;
    } else {
      assert (a + b)[0] == a[0];
      assert (a + b)[1..] == a[1..] + b;
      TrimKeepAppend(a[1..], b, ignoreEmpty);
    }
  }

  /** What `split(str, char, ignoreEmpty)` returns. */
  function SplitByChar(str: string, d: char, ignoreEmpty: bool): seq<string> {
    if str == [] then [] else TrimKeep(Fields(str, d), ignoreEmpty)
  }

  /** src/strings.cpp `split(str, char, ignoreEmpty)`. The source ends the loop when
      `find` returns `npos`; here `finished` records that. */
  method SplitChar(str: string, delimiter: char, ignoreEmpty: bool) returns (tokens: seq<string>)
    ensures tokens == SplitByChar(str, delimiter, ignoreEmpty)
  {
    tokens := [];
    if |str| == 0 {
      return;
    }
    var start := 0;
    var finished := false;
    ghost var done: seq<string> := [];
    ghost var whole := Fields(str, delimiter);
    while !finished
      invariant start <= |str|
      invariant tokens == TrimKeep(done, ignoreEmpty)
      invariant !finished ==> done + FieldsFrom(str, delimiter, start) == whole
      invariant finished ==> done == whole
      decreases |str| - start + (if finished then 0 else 1)
    {
      var end := Find(str, delimiter, start);
      var token := if end.Some? then str[start..end.value] else str[start..];
      var trimmed := Trim(token);
      ghost var (done0, tokens0, start0) := (done, tokens, start);
      if !ignoreEmpty || trimmed != [] {
        tokens := tokens + [trimmed];
      }
      done := done + [token];
      if end.Some? {
        start := end.value + 1;
      } else {
        finished := true;
      }
      TokenStep(done0, token, ignoreEmpty, tokens0, trimmed, done, tokens);
      FieldStep(str, delimiter, start0, end, done0, token, whole, done, start, finished);
    }
  }

  /** One token of a split loop: its trimmed form joins the tokens unless it is empty and
      empty tokens are ignored. */
  lemma {:induction false} TokenStep(done0: seq<string>, token: string, ignoreEmpty: bool, tokens0: seq<string>,
                  trimmed: string, done: seq<string>, tokens: seq<string>)
    requires tokens0 == TrimKeep(done0, ignoreEmpty) && trimmed == Trimmed(token)
    requires done == done0 + [token]
    requires tokens == if !ignoreEmpty || trimmed != [] then tokens0 + [trimmed] else tokens0
    ensures tokens == TrimKeep(done, ignoreEmpty)
  {
    assert [token][1..] == [];
    TrimKeepAppend(done0, [token], ignoreEmpty);
  }

  /** One round of the character `split` loop: the field before the next delimiter, or the
      last field, moves to `done`. */
  lemma {:induction false} FieldStep(str: string, d: char, start0: nat, end: Option<nat>, done0: seq<string>, token: string,
                  whole: seq<string>, done: seq<string>, start: nat, finished: bool)
    requires start0 <= |str| && done0 + FieldsFrom(str, d, start0) == whole
    requires end == Find(str, d, start0)
    requires token == if end.Some? then str[start0..end.value] else str[start0..]
    requires done == done0 + [token]
    requires start == if end.Some? then end.value + 1 else start0
    requires finished == end.None?
    ensures start <= |str|
    ensures !finished ==> start0 < start && done + FieldsFrom(str, d, start) == whole
    ensures finished ==> done == whole
  {
    if end.Some? {
      assert FieldsFrom(str, d, start0) == [token] + FieldsFrom(str, d, start);
      assert done0 + ([token] + FieldsFrom(str, d, start)) == done + FieldsFrom(str, d, start);
    } else {
      assert FieldsFrom(str, d, start0) == [token];
    }
  }

  /** The fields joined back with the delimiter give the input: `split` loses only whitespace. */
  lemma {:induction false} FieldsJoin(s: string, d: char, from: nat)
    requires from <= |s|
    ensures Join(FieldsFrom(s, d, from), [d]) == s[from..]
    decreases |s| - from
  {
    var found := Find(s, d, from);
    if found.Some? {
      var k := found.value;
      FieldsJoin(s, d, k + 1);
      FieldsUnfold(s, d, from, k);
      JoinCons(s[from..k], FieldsFrom(s, d, k + 1), [d]);
      AroundDelimiter(s, d, from, k);
    } else {
      FieldsNone(s, d, from);
    }
  }

  lemma {:induction false} AroundDelimiter(s: string, d: char, from: nat, k: nat)
    requires from <= |s| && Find(s, d, from) == Some(k)
    ensures s[from..] == s[from..k] + [d] + s[k + 1..]
  {
    Around(s, from, k, 1);
    assert s[k..k + 1] == [d];
  }

  /** The delimiter found is the only one before the rest of the text. */
  lemma {:induction false} CountAroundDelimiter(s: string, d: char, from: nat, k: nat)
    requires from <= |s| && Find(s, d, from) == Some(k)
    ensures multiset(s[from..])[d] == multiset(s[k + 1..])[d] + 1
  {
    AroundDelimiter(s, d, from, k);
    assert d !in s[from..k];
  }

  /** No field contains the delimiter. */
  lemma {:induction false} FieldsAvoidDelimiter(s: string, d: char, from: nat)
    requires from <= |s|
    ensures forall f :: f in FieldsFrom(s, d, from) ==> d !in f
    decreases |s| - from
  {
    match Find(s, d, from)
    case None =>
    case Some(k) =>
      FieldsAvoidDelimiter(s, d, k + 1);
  }

  /** One field more than there are delimiters. */
  lemma {:induction false} FieldsCount(s: string, d: char, from: nat)
    requires from <= |s|
    ensures |FieldsFrom(s, d, from)| == multiset(s[from..])[d] + 1
    decreases |s| - from
  {
    var found := Find(s, d, from);
    if found.Some? {
      var k := found.value;
      FieldsCount(s, d, k + 1);
      FieldsUnfold(s, d, from, k);
      CountAroundDelimiter(s, d, from, k);
    } else {
      FieldsNone(s, d, from);
      assert d !in s[from..];
    }
  }

  lemma {:induction false} TrimKeepAll(fields: seq<string>)
    ensures |TrimKeep(fields, false)| == |fields|
    ensures forall i :: 0 <= i < |fields| ==> TrimKeep(fields, false)[i] == Trimmed(fields[i])
    decreases |fields|
  {
    if fields != [] {
      TrimKeepAll(fields[1..]);
    }
  }

  lemma {:induction false} TrimKeepFiltered(fields: seq<string>, ignoreEmpty: bool)
    ensures forall t :: t in TrimKeep(fields, ignoreEmpty) ==> Trimmed(t) == t && (ignoreEmpty ==> t != [])
    decreases |fields|
  {
    if fields != [] {
      TrimIdempotent(fields[0]);
      TrimKeepFiltered(fields[1..], ignoreEmpty);
    }
  }

  /** `split` on a character: no tokens for an empty input; otherwise one trimmed
      token per field, `count(delimiter) + 1` of them unless empty ones are dropped,
      and with `ignoreEmpty` none of them is empty. */
  lemma {:induction false} SplitByCharShape(str: string, d: char, ignoreEmpty: bool)
    ensures str == [] ==> SplitByChar(str, d, ignoreEmpty) == []
    ensures str != [] && !ignoreEmpty ==>
      |Fields(str, d)| == |SplitByChar(str, d, false)| == multiset(str)[d] + 1 &&
      forall i :: 0 <= i < |Fields(str, d)| ==> SplitByChar(str, d, false)[i] == Trimmed(Fields(str, d)[i])
    ensures forall t :: t in SplitByChar(str, d, ignoreEmpty) ==> Trimmed(t) == t && (ignoreEmpty ==> t != [])
  {
    if str != [] {
      FieldsCount(str, d, 0);
      assert str[0..] == str;
      TrimKeepAll(Fields(str, d));
      TrimKeepFiltered(Fields(str, d), ignoreEmpty);
    }
  }

  // ---------------------------------------------------------------------------
  // split on a string, and replace_all
  // ---------------------------------------------------------------------------

  /** `p` occurs in `s` at position `j`. */
  predicate OccursAt(s: string, p: string, j: nat) {
    j + |p| <= |s| && s[j..j + |p|] == p
  }

  /** `std::string::find(string, from)`: the first occurrence of `p` at or after `from`. */
  function FindSub(s: string, p: string, from: nat): (r: Option<nat>)
    ensures r.Some? ==> from <= r.value && OccursAt(s, p, r.value)
    ensures forall j :: from <= j && (r.None? || j < r.value) ==> !OccursAt(s, p, j)
    decreases |s| - from
  {
    if from + |p| > |s| then None
    else if s[from..from + |p|] == p then Some(from)
    else FindSub(s, p, from + 1)
  }

  /** Searching two strings that agree from `i` and from `j` on finds the same match, shifted. */
  lemma {:induction false} FindSubShift(a: string, b: string, p: string, i: nat, j: nat)
    requires i <= |a| && j <= |b| && a[i..] == b[j..]
    ensures FindSub(a, p, i).Some? <==> FindSub(b, p, j).Some?
    ensures FindSub(a, p, i).Some? ==> FindSub(a, p, i).value - i == FindSub(b, p, j).value - j
    decreases |b| - j
  {
    assert |a| - i == |b| - j;
    if j + |p| <= |b| {
      assert a[i..i + |p|] == a[i..][..|p|] == b[j..][..|p|] == b[j..j + |p|];
      if a[i..i + |p|] != p {
        assert a[i + 1..] == a[i..][1..];
        assert b[j + 1..] == b[j..][1..];
        FindSubShift(a, b, p, i + 1, j + 1);
      }
    }
  }

  /** The pieces of `s[from..]` between non-overlapping occurrences of `p`, found left to right. */
  function PiecesFrom(s: string, p: string, from: nat): (r: seq<string>)
    requires |p| > 0 && from <= |s|
    ensures |r| > 0
    decreases |s| - from
  {
    match FindSub(s, p, from)
    case None => [s[from..]]
    case Some(k) => [s[from..k]] + PiecesFrom(s, p, k + |p|)
  }

  lemma {:induction false} PiecesUnfold(s: string, p: string, from: nat, k: nat)
    requires |p| > 0 && from <= |s| && FindSub(s, p, from) == Some(k)
    ensures PiecesFrom(s, p, from) == [s[from..k]] + PiecesFrom(s, p, k + |p|)
  { }

  lemma {:induction false} PiecesNone(s: string, p: string, from: nat)
    requires |p| > 0 && from <= |s| && FindSub(s, p, from) == None
    ensures PiecesFrom(s, p, from) == [s[from..]]
  { }

  /** One round of the string `split` loop: the token before the occurrence moves to `done`. */
  lemma {:induction false} PiecesStep(s: string, p: string, start0: nat, k: nat, done0: seq<string>, whole: seq<string>,
                   done: seq<string>, start: nat)
    requires |p| > 0 && start0 <= |s| && FindSub(s, p, start0) == Some(k)
    requires done0 + PiecesFrom(s, p, start0) == whole
    requires done == done0 + [s[start0..k]] && start == k + |p|
    ensures start0 < start <= |s|
    ensures done + PiecesFrom(s, p, start) == whole
  {
    PiecesUnfold(s, p, start0, k);
    Reassociate(done0, s[start0..k], PiecesFrom(s, p, start));
  }

  lemma {:induction false} Reassociate<T>(a: seq<T>, x: T, b: seq<T>)
    ensures a + ([x] + b) == (a + [x]) + b
  {
  }

  function Pieces(s: string, p: string): seq<string>
    requires |p| > 0
  {
    PiecesFrom(s, p, 0)
  }

  /** The pieces joined with the separator give the input back. */
  lemma {:induction false} PiecesJoin(s: string, p: string, from: nat)
    requires |p| > 0 && from <= |s|
    ensures Join(PiecesFrom(s, p, from), p) == s[from..]
    decreases |s| - from
  {
    var found := FindSub(s, p, from);
    if found.Some? {
      var k := found.value;
      PiecesJoin(s, p, k + |p|);
      PiecesUnfold(s, p, from, k);
      JoinAround(s, p, from, k, PiecesFrom(s, p, k + |p|));
    } else {
      PiecesNone(s, p, from);
    }
  }

  /** The piece before an occurrence, the separator, and a join of what follows it
      give the whole suffix. */
  lemma {:induction false} JoinAround(s: string, p: string, from: nat, k: nat, rest: seq<string>)
    requires from <= k && OccursAt(s, p, k) && |rest| > 0 && Join(rest, p) == s[k + |p|..]
    ensures Join([s[from..k]] + rest, p) == s[from..]
  {
    JoinCons(s[from..k], rest, p);
    Around(s, from, k, |p|);
  }

  /** No piece contains the separator. */
  lemma {:induction false} PiecesAvoidSeparator(s: string, p: string, from: nat)
    requires |p| > 0 && from <= |s|
    ensures forall q, j :: q in PiecesFrom(s, p, from) ==> !OccursAt(q, p, j)
    decreases |s| - from
  {
    var found := FindSub(s, p, from);
    if found.Some? {
      var k := found.value;
      PiecesAvoidSeparator(s, p, k + |p|);
      PiecesUnfold(s, p, from, k);
      forall j: nat ensures !OccursAt(s[from..k], p, j) {
        OccursInSlice(s, p, from, k, j);
      }
    } else {
      PiecesNone(s, p, from);
      forall j: nat ensures !OccursAt(s[from..], p, j) {
        OccursInSlice(s, p, from, |s|, j);
        assert s[from..|s|] == s[from..];
      }
    }
  }

  /** An occurrence inside a slice is an occurrence in the whole text. */
  lemma {:induction false} OccursInSlice(s: string, p: string, lo: nat, hi: nat, j: nat)
    requires lo <= hi <= |s|
    ensures OccursAt(s[lo..hi], p, j) ==> lo + j + |p| <= hi && OccursAt(s, p, lo + j)
  {
    if OccursAt(s[lo..hi], p, j) {
      var w := s[lo..hi][j..j + |p|];
      assert forall t :: 0 <= t < |w| ==> w[t] == s[lo + j + t];
      assert w == s[lo + j..lo + j + |p|];
    }
  }

  /** The last piece is kept untrimmed, and dropped only when empty and `ignoreEmpty` is set. */
  function KeepLast(last: string, ignoreEmpty: bool): seq<string> {
    if !ignoreEmpty || last != [] then [last] else []
  }

  /** What `split(str, string, ignoreEmpty)` returns: interior pieces are trimmed, the last is not. */
  function SplitByString(str: string, delimiter: string, ignoreEmpty: bool): seq<string> {
    if str == [] then []
    else if delimiter == [] then [str]
    else
      var ps := Pieces(str, delimiter);
      TrimKeep(ps[..|ps| - 1], ignoreEmpty) + KeepLast(ps[|ps| - 1], ignoreEmpty)
  }

  /** src/strings.cpp `split(str, string, ignoreEmpty)`. */
  method SplitString(str: string, delimiter: string, ignoreEmpty: bool) returns (tokens: seq<string>)
    ensures tokens == SplitByString(str, delimiter, ignoreEmpty)
  {
    tokens := [];
    if |str| == 0 {
      return;
    }
    if |delimiter| == 0 {
      tokens := [str];
      return;
    }
    var start: nat := 0;
    ghost var done: seq<string> := [];
    ghost var whole := Pieces(str, delimiter);
    var pos := FindSub(str, delimiter, start);
    while pos.Some?
      invariant start <= |str|
      invariant pos == FindSub(str, delimiter, start)
      invariant tokens == TrimKeep(done, ignoreEmpty)
      invariant done + PiecesFrom(str, delimiter, start) == whole
      decreases |str| - start
    {
      var token := str[start..pos.value];
      var trimmed := Trim(token);
      ghost var (done0, tokens0, start0, k) := (done, tokens, start, pos.value);
      if !ignoreEmpty || trimmed != [] {
        tokens := tokens + [trimmed];
      }
      done := done + [token];
      start := pos.value + |delimiter|;
      pos := FindSub(str, delimiter, start);
      TokenStep(done0, token, ignoreEmpty, tokens0, trimmed, done, tokens);
      PiecesStep(str, delimiter, start0, k, done0, whole, done, start);
    }
    var last := str[start..];
    PiecesNone(str, delimiter, start);
    assert Pieces(str, delimiter) == done + [last];
    assert Pieces(str, delimiter)[..|done|] == done;
    if !ignoreEmpty || last != [] {
      tokens := tokens + [last];
    }
  }

  /** `split` on a string: an empty delimiter yields the whole input; otherwise the
      tokens are the pieces between occurrences, interior ones trimmed and the last
      one as it stands, and joining the raw pieces gives the input back. */
  lemma {:induction false} SplitByStringShape(str: string, delimiter: string)
    ensures str != [] && delimiter == [] ==> SplitByString(str, delimiter, true) == [str]
    ensures str != [] && delimiter != [] ==>
      var ps := Pieces(str, delimiter);
      var ts := SplitByString(str, delimiter, false);
      |ts| == |ps| && ts[|ts| - 1] == ps[|ps| - 1] &&
      (forall i :: 0 <= i < |ps| - 1 ==> ts[i] == Trimmed(ps[i])) &&
      Join(ps, delimiter) == str
  {
    if str != [] && delimiter != [] {
      var ps := Pieces(str, delimiter);
      TrimKeepAll(ps[..|ps| - 1]);
      PiecesJoin(str, delimiter, 0);
      assert str[0..] == str;
    }
  }

  /** What `replace_all` computes: the text from `start` on with each occurrence of
      `p` found left to right in the ORIGINAL text replaced by `r`. */
  function ReplaceFrom(s: string, p: string, r: string, start: nat): string
    requires |p| > 0 && start <= |s|
    decreases |s| - start
  {
    match FindSub(s, p, start)
    case None => s[start..]
    case Some(k) => s[start..k] + r + ReplaceFrom(s, p, r, k + |p|)
  }

  function ReplaceAll(s: string, p: string, r: string): string
    requires |p| > 0
  {
    ReplaceFrom(s, p, r, 0)
  }

  /** Replacing is splitting at the occurrences and joining with the replacement, so
      text produced by a replacement is never searched again. */
  lemma {:induction false} ReplaceIsSplitJoin(s: string, p: string, r: string, start: nat)
    requires |p| > 0 && start <= |s|
    ensures ReplaceFrom(s, p, r, start) == Join(PiecesFrom(s, p, start), r)
    decreases |s| - start
  {
    var found := FindSub(s, p, start);
    if found.Some? {
      var k := found.value;
      ReplaceIsSplitJoin(s, p, r, k + |p|);
      SplitJoinStep(s, p, r, start, k);
    } else {
      ReplaceFromNone(s, p, r, start);
      PiecesNone(s, p, start);
    }
  }

  lemma {:induction false} SplitJoinStep(s: string, p: string, r: string, start: nat, k: nat)
    requires |p| > 0 && start <= |s| && FindSub(s, p, start) == Some(k)
    requires ReplaceFrom(s, p, r, k + |p|) == Join(PiecesFrom(s, p, k + |p|), r)
    ensures ReplaceFrom(s, p, r, start) == Join(PiecesFrom(s, p, start), r)
  {
    ReplaceFromUnfold(s, p, r, start, k);
    PiecesUnfold(s, p, start, k);
    JoinCons(s[start..k], PiecesFrom(s, p, k + |p|), r);
  }

  /** Replacing a pattern by itself changes nothing; a text without the pattern is unchanged. */
  lemma {:induction false} ReplaceIdentities(s: string, p: string, r: string)
    requires |p| > 0
    ensures ReplaceAll(s, p, p) == s
    ensures FindSub(s, p, 0).None? ==> ReplaceAll(s, p, r) == s
  {
    ReplaceIsSplitJoin(s, p, p, 0);
    PiecesJoin(s, p, 0);
    assert s[0..] == s;
  }

  lemma {:induction false} ReplaceFromNone(s: string, p: string, r: string, start: nat)
    requires |p| > 0 && start <= |s| && FindSub(s, p, start) == None
    ensures ReplaceFrom(s, p, r, start) == s[start..]
  { }

  lemma {:induction false} ReplaceFromUnfold(s: string, p: string, r: string, start: nat, k: nat)
    requires |p| > 0 && start <= |s| && FindSub(s, p, start) == Some(k)
    ensures ReplaceFrom(s, p, r, start) == s[start..k] + r + ReplaceFrom(s, p, r, k + |p|)
  {
  }

  /** `std::string::replace(k, n, r)`: the `n` characters at `k` become `r`. */
  method ReplaceRange(s: string, k: nat, n: nat, r: string) returns (t: string)
    requires k + n <= |s|
    ensures |t| == |s| - n + |r|
    ensures t[..k] == s[..k] && t[k..k + |r|] == r && t[k + |r|..] == s[k + n..]
  {
    t := s[..k] + r + s[k + n..];
    TakeSplice(s[..k], r, s[k + n..]);
    DropSplice(s[..k], r, s[k + n..]);
  }

  /** src/strings.cpp `replace_all`, in place on `str`. An empty `from` makes the
      source loop forever, so it is excluded. The ghost `i` is the position in the
      original text that corresponds to `pos`. */
  method ReplaceAllInPlace(str0: string, from: string, to: string) returns (str: string)
    requires |from| > 0
    ensures str == ReplaceAll(str0, from, to)
  {
    str := str0;
    var pos: nat := 0;
    ghost var i: nat := 0;
    ghost var result := ReplaceAll(str0, from, to);
    var found := FindSub(str, from, pos);
    while found.Some?
      invariant pos <= |str| && i <= |str0| && str[pos..] == str0[i..]
      invariant Produced(str, str0, from, to, pos, i) == result
      invariant found == FindSub(str, from, pos)
      decreases |str| - pos
    {
      var k := found.value;
      ghost var (str1, pos1, i1) := (str, pos, i);
      str := ReplaceRange(str, k, |from|, to);
      pos := k + |to|;
      i := k - pos1 + i + |from|;
      ReplaceStep(str1, str0, str, from, to, pos1, i1, k, pos, i);
      found := FindSub(str, from, pos);
    }
    ReplaceDone(str, str0, from, to, pos, i);
  }

  /** `replace_all` with an empty `from` turned into a no-op, so that it always ends:
      every occurrence of a non-empty `from` is replaced, an empty one changes nothing. */
  method ReplaceAllGuarded(str0: string, from: string, to: string) returns (str: string)
    ensures from == [] ==> str == str0
    ensures from != [] ==> str == ReplaceAll(str0, from, to)
  {
    if from == [] {
      str := str0;
    } else {
      str := ReplaceAllInPlace(str0, from, to);
    }
  }

  /** One turn of the `replace_all` loop as written, on the working text and `pos`:
      none once `find` fails, otherwise the text after `replace` and `pos += to_size`. */
  function ReplaceTurn(str: string, pos: nat, from: string, to: string): (r: Option<(string, nat)>)
    ensures r.None? <==> FindSub(str, from, pos).None?
    ensures r.Some? ==> |r.value.0| == |str| - |from| + |to|
  {
    match FindSub(str, from, pos)
    case None => None
    case Some(k) => Some((str[..k] + to + str[k + |from|..], k + |to|))
  }

  /** The loop's state after `n` turns, none when it has stopped before making them. */
  function ReplaceTurns(str: string, pos: nat, from: string, to: string, n: nat): Option<(string, nat)>
    decreases n
  {
    if n == 0 then Some((str, pos))
    else match ReplaceTurn(str, pos, from, to)
      case None => None
      case Some(next) => ReplaceTurns(next.0, next.1, from, to, n - 1)
  }

  /** With an empty `from` the loop as written never stops: `find` matches the empty
      string at `pos` itself, and `pos += to_size` stays within the grown text, so
      every number of turns is made (`replace_all("ab", "", "x")` among them). */
  lemma {:induction false} ReplaceEmptyNeverStops(str: string, pos: nat, to: string, n: nat)
    requires pos <= |str|
    ensures ReplaceTurns(str, pos, [], to, n).Some?
    decreases n
  {
    if n > 0 {
      assert str[pos..pos + 0] == [];
      assert FindSub(str, [], pos) == Some(pos);
      var next := ReplaceTurn(str, pos, [], to).value;
      ReplaceEmptyNeverStops(next.0, next.1, to, n - 1);
    }
  }

  /** What the `replace_all` loop will have produced: the working text before `pos`,
      then the original text from `i` on with its remaining occurrences replaced. */
  function Produced(str: string, str0: string, p: string, r: string, pos: nat, i: nat): string
    requires |p| > 0 && pos <= |str| && i <= |str0|
  {
    str[..pos] + ReplaceFrom(str0, p, r, i)
  }

  /** Once no occurrence is left, the working text is the result. */
  lemma {:induction false} ReplaceDone(str: string, str0: string, p: string, r: string, pos: nat, i: nat)
    requires |p| > 0 && pos <= |str| && i <= |str0| && str[pos..] == str0[i..]
    requires FindSub(str, p, pos) == None
    ensures Produced(str, str0, p, r, pos, i) == str
  {
    FindSubShift(str0, str, p, i, pos);
    ReplaceFromNone(str0, p, r, i);
    assert str == str[..pos] + str[pos..];
  }

  /** One replacement: the occurrence found in the working text is the next one of the
      original text, and the loop state moves past the inserted text. */
  lemma {:induction false} ReplaceStep(str: string, str0: string, next: string, p: string, r: string, pos: nat, i: nat, k: nat,
                    pos': nat, i': nat)
    requires |p| > 0 && pos <= |str| && i <= |str0| && str[pos..] == str0[i..]
    requires FindSub(str, p, pos) == Some(k)
    requires |next| == |str| - |p| + |r|
    requires next[..k] == str[..k] && next[k..k + |r|] == r && next[k + |r|..] == str[k + |p|..]
    requires pos' == k + |r| && i' == k - pos + i + |p|
    ensures pos <= k && pos' <= |next| && |next| - pos' < |str| - pos
    ensures i' <= |str0| && next[pos'..] == str0[i'..]
    ensures Produced(next, str0, p, r, pos', i') == Produced(str, str0, p, r, pos, i)
  {
    FindSubShift(str0, str, p, i, pos);
    var ki := k - pos + i;
    assert FindSub(str0, p, i) == Some(ki);
    StepAgree(str, str0, next, |p|, r, pos, i, k, ki);
    ProducedStep(next, str, str0, p, r, pos, i, ki, pos', i');
  }

  /** Where the working text and the original text agree across one splice: before it
      up to the occurrence, and after it from the end of the inserted text. */
  lemma {:induction false} StepAgree(str: string, str0: string, next: string, n: nat, r: string, pos: nat, i: nat,
                  k: nat, ki: nat)
    requires pos <= k && k + n <= |str| && i <= |str0| && str[pos..] == str0[i..] && ki == k - pos + i
    requires k + |r| <= |next| && next[..k] == str[..k] && next[k..k + |r|] == r
    requires next[k + |r|..] == str[k + n..]
    ensures ki + n <= |str0| && next[k + |r|..] == str0[ki + n..]
    ensures next[..k + |r|] == str[..pos] + str0[i..ki] + r
  {
    AgreeFrom(str0, str, i, pos, ki, k);
    AgreeFrom(str0, str, i, pos, ki + n, k + n);
    SplicePrefix(str, next, r, pos, k);
  }

  /** Passing one occurrence of the original text moves its replacement into the produced part. */
  lemma {:induction false} ProducedStep(next: string, str: string, str0: string, p: string, r: string,
                     pos: nat, i: nat, ki: nat, pos': nat, i': nat)
    requires |p| > 0 && pos <= |str| && i <= |str0| && FindSub(str0, p, i) == Some(ki)
    requires i' == ki + |p| && pos' <= |next| && next[..pos'] == str[..pos] + str0[i..ki] + r
    ensures Produced(next, str0, p, r, pos', i') == Produced(str, str0, p, r, pos, i)
  {
    ReplaceFromUnfold(str0, p, r, i, ki);
    Regroup(str[..pos], str0[i..ki], r, ReplaceFrom(str0, p, r, i'));
  }

  /** After a splice, the text up to the end of the inserted text is the old prefix and the insertion. */
  lemma {:induction false} SplicePrefix(str: string, next: string, r: string, pos: nat, k: nat)
    requires pos <= k <= |str| && k + |r| <= |next| && next[..k] == str[..k] && next[k..k + |r|] == r
    ensures next[..k + |r|] == str[..pos] + str[pos..k] + r
  {
    TakeSplit(next, k, k + |r|);
    TakeSplit(str, pos, k);
  }

  lemma {:induction false} Regroup(a: string, b: string, c: string, d: string)
    ensures (a + b) + c + d == a + (b + c + d)
  {
  }

  /** Replacement text is not rescanned: "aa" with every "a" replaced by "ba" is "baba". */
  lemma {:induction false} ReplaceNoRescan()
    ensures ReplaceAll("aa", "a", "ba") == "baba"
  {
    assert FindSub("aa", "a", 0) == Some(0);
    assert FindSub("aa", "a", 1) == Some(1);
    assert FindSub("aa", "a", 2) == None;
  }

  // ---------------------------------------------------------------------------
  // unique
  // ---------------------------------------------------------------------------

  /** `std::string`'s `operator<`: lexicographic order on characters, a proper prefix first. */
  predicate LexLess(a: string, b: string)
    decreases |a|
  {
    if |a| == 0 then |b| > 0
    else if |b| == 0 then false
    else if a[0] != b[0] then a[0] < b[0]
    else LexLess(a[1..], b[1..])
  }

  lemma {:induction false} LexIrreflexive(a: string)
    ensures !LexLess(a, a)
    decreases |a|
  {
    if |a| > 0 {
      LexIrreflexive(a[1..]);
    }
  }

  lemma {:induction false} LexTotal(a: string, b: string)
    ensures a == b || LexLess(a, b) || LexLess(b, a)
    decreases |a|
  {
    if |a| > 0 && |b| > 0 && a[0] == b[0] {
      LexTotal(a[1..], b[1..]);
      if a[1..] == b[1..] {
        assert a == [a[0]] + a[1..] && b == [b[0]] + b[1..];
      }
    }
  }

  lemma {:induction false} LexAsymmetric(a: string, b: string)
    ensures !(LexLess(a, b) && LexLess(b, a))
    decreases |a|
  {
    if |a| > 0 && |b| > 0 && a[0] == b[0] {
      LexAsymmetric(a[1..], b[1..]);
    }
  }

  lemma {:induction false} LexTransitive(a: string, b: string, c: string)
    requires LexLess(a, b) && LexLess(b, c)
    ensures LexLess(a, c)
    decreases |a|
  {
    if |a| > 0 && a[0] == b[0] && b[0] == c[0] {
      LexTransitive(a[1..], b[1..], c[1..]);
    }
  }

  /** Sorted with no two neighbours equal, which is what `std::sort` then `std::unique` leave. */
  predicate StrictlyAscending(s: seq<string>) {
    forall i :: 0 < i < |s| ==> LexLess(s[i - 1], s[i])
  }

  /** In a strictly ascending sequence every earlier element is below every later one. */
  lemma {:induction false} AscendingPairs(s: seq<string>, i: nat, j: nat)
    requires StrictlyAscending(s) && i < j < |s|
    ensures LexLess(s[i], s[j])
    decreases j - i
  {
    if i + 1 < j {
      AscendingPairs(s, i + 1, j);
      LexTransitive(s[i], s[i + 1], s[j]);
    }
  }

  /** No element occurs twice in a strictly ascending sequence. */
  lemma {:induction false} AscendingDistinct(s: seq<string>, i: nat, j: nat)
    requires StrictlyAscending(s) && i < j < |s|
    ensures s[i] != s[j]
  {
    AscendingPairs(s, i, j);
    LexIrreflexive(s[i]);
  }

  /** Two strictly ascending sequences with the same elements are equal: the contract of
      `Unique` determines its result. */
  lemma {:induction false} AscendingUnique(a: seq<string>, b: seq<string>)
    requires StrictlyAscending(a) && StrictlyAscending(b)
    requires forall x :: x in a <==> x in b
    ensures a == b
    decreases |a|
  {
    if |a| > 0 {
      assert a[0] in a;
    }
    if |b| > 0 {
      assert b[0] in b;
    }
    if |a| > 0 && |b| > 0 {
      if a[0] != b[0] {
        var k :| 0 <= k < |b| && b[k] == a[0];
        var m :| 0 <= m < |a| && a[m] == b[0];
        AscendingPairs(b, 0, k);
        AscendingPairs(a, 0, m);
        LexAsymmetric(a[0], b[0]);
      }
      forall x ensures x in a[1..] <==> x in b[1..] {
        TailMembers(a, x);
        TailMembers(b, x);
      }
      AscendingUnique(a[1..], b[1..]);
      assert a == [a[0]] + a[1..] && b == [b[0]] + b[1..];
    }
  }

  /** The tail of a strictly ascending sequence holds everything but its head. */
  lemma {:induction false} TailMembers(s: seq<string>, x: string)
    requires StrictlyAscending(s) && |s| > 0
    ensures x in s[1..] <==> x in s && x != s[0]
  {
    if x in s[1..] {
      var j :| 0 <= j < |s[1..]| && s[1..][j] == x;
      AscendingDistinct(s, 0, j + 1);
    }
    if x in s && x != s[0] {
      var j :| 0 <= j < |s| && s[j] == x;
      assert s[1..][j - 1] == x;
    }
  }

  /** Inserts `x` into a strictly ascending sequence unless it is already there. */
  method InsertAscending(r: seq<string>, x: string) returns (out: seq<string>)
    requires StrictlyAscending(r)
    ensures StrictlyAscending(out)
    ensures forall y :: y in out <==> y in r || y == x
  {
    var j := 0;
    while j < |r| && LexLess(r[j], x)
      invariant j <= |r|
      invariant j > 0 ==> LexLess(r[j - 1], x)
    {
      j := j + 1;
    }
    if j < |r| && r[j] == x {
      out := r;
    } else {
      if j < |r| {
        LexTotal(r[j], x);
      }
      out := r[..j] + [x] + r[j..];
      InsertionAscends(r, x, j);
    }
  }

  lemma {:induction false} InsertionAscends(r: seq<string>, x: string, j: nat)
    requires StrictlyAscending(r) && j <= |r|
    requires j > 0 ==> LexLess(r[j - 1], x)
    requires j < |r| ==> LexLess(x, r[j])
    ensures StrictlyAscending(r[..j] + [x] + r[j..])
    ensures forall y :: y in r[..j] + [x] + r[j..] <==> y in r || y == x
  {
    var out := r[..j] + [x] + r[j..];
    forall i | 0 < i < |out| ensures LexLess(out[i - 1], out[i]) {
      if i < j {
        assert out[i - 1] == r[i - 1] && out[i] == r[i];
      } else if i == j {
        assert out[i - 1] == r[j - 1] && out[i] == x;
      } else if i == j + 1 {
        assert out[i - 1] == x && out[i] == r[j];
      } else {
        assert out[i - 1] == r[i - 2] && out[i] == r[i - 1];
      }
    }
    assert r == r[..j] + r[j..];
  }

  /** src/strings.cpp `unique`: the distinct strings of `arr` in ascending order. The
      source sorts in place and erases the duplicates; here each string is inserted
      into an ascending result, which yields the same sequence (see `AscendingUnique`). */
  method Unique(arr: seq<string>) returns (r: seq<string>)
    ensures StrictlyAscending(r)
    ensures forall x :: x in r <==> x in arr
  {
    r := [];
    for i := 0 to |arr|
      invariant StrictlyAscending(r)
      invariant forall x :: x in r <==> x in arr[..i]
    {
      r := InsertAscending(r, arr[i]);
      assert arr[..i + 1] == arr[..i] + [arr[i]];
    }
    assert arr[..|arr|] == arr;
  }

  // ---------------------------------------------------------------------------
  // bytesToHex and hexToBytes
  // ---------------------------------------------------------------------------

  const HexUpper: string := "0123456789ABCDEF"
  const HexLower: string := "0123456789abcdef"

  /** The digit table `bytesToHex` indexes. */
  function HexChars(upper: bool): (t: string)
    ensures |t| == 16
  {
    if upper then HexUpper else HexLower
  }

  /** The digit for the nibble `n`: what the table holds at position `n` (`HexTable`). */
  function HexDigit(n: nat, upper: bool): char
    requires n < 16
  {
    if n < 10 then ('0' as int + n) as char
    else ((if upper then 'A' else 'a') as int + n - 10) as char
  }

  lemma {:induction false} HexTable(n: nat, upper: bool)
    requires n < 16
    ensures HexChars(upper)[n] == HexDigit(n, upper)
  {
  }

  /** The two digits of one byte, high nibble (`byte >> 4`) first, then `byte & 0x0F`. */
  function ByteHex(b: Ints.uint8, upper: bool): string {
    [HexDigit(b / 16, upper), HexDigit(b % 16, upper)]
  }

  /** What `bytesToHex` returns. */
  function Hex(bytes: seq<Ints.uint8>, upper: bool): (h: string)
    ensures |h| == 2 * |bytes|
    decreases |bytes|
  {
    if |bytes| == 0 then []
    else Hex(bytes[..|bytes| - 1], upper) + ByteHex(bytes[|bytes| - 1], upper)
  }

  lemma {:induction false} HexSnoc(bytes: seq<Ints.uint8>, i: nat, upper: bool, hex0: string, hex: string)
    requires i < |bytes| && hex0 == Hex(bytes[..i], upper) && hex == hex0 + ByteHex(bytes[i], upper)
    ensures hex == Hex(bytes[..i + 1], upper)
  {
    assert bytes[..i + 1][..i] == bytes[..i];
  }

  /** src/strings.cpp `bytesToHex`. */
  method BytesToHex(bytes: seq<Ints.uint8>, upper: bool) returns (hex: string)
    ensures hex == Hex(bytes, upper)
  {
    hex := [];
    var hexChars := if upper then HexUpper else HexLower;
    for i := 0 to |bytes|
      invariant hex == Hex(bytes[..i], upper)
    {
      ghost var hex0 := hex;
      var byte := bytes[i];
      hex := hex + [hexChars[byte / 16]];
      hex := hex + [hexChars[byte % 16]];
      HexTable(byte / 16, upper);
      HexTable(byte % 16, upper);
      HexSnoc(bytes, i, upper, hex0, hex);
    }
    assert bytes[..|bytes|] == bytes;
  }

  /** A byte is its high nibble times 16 plus its low nibble. */
  lemma {:induction false} Nibbles(b: Ints.uint8)
    ensures b / 16 * 16 + b % 16 == b
  {
  }

  /** Every character of the output is a decimal digit or a letter 'a'..'f' of the chosen case. */
  lemma {:induction false} HexUsesCase(bytes: seq<Ints.uint8>, upper: bool)
    ensures forall c :: c in Hex(bytes, upper) ==>
      '0' <= c <= '9' || (if upper then 'A' <= c <= 'F' else 'a' <= c <= 'f')
    decreases |bytes|
  {
    if |bytes| > 0 {
      HexUsesCase(bytes[..|bytes| - 1], upper);
    }
  }

  /** `isxdigit`. */
  predicate IsXDigit(c: char) {
    '0' <= c <= '9' || 'a' <= c <= 'f' || 'A' <= c <= 'F'
  }

  predicate AllXDigits(h: string) {
    forall i :: 0 <= i < |h| ==> IsXDigit(h[i])
  }

  /** The value `hexToBytes` gives a digit: upper-cased, then `c - 'A' + 10` from 'A' on,
      `c - '0'` below. */
  function HexValue(c: char): (v: nat)
    requires IsXDigit(c)
    ensures v < 16
  {
    var u := ToUpper(c);
    if u >= 'A' then u as int - 'A' as int + 10 else u as int - '0' as int
  }

  /** The bytes of an even-length string of hex digits, two digits each, high digit first. */
  function DecodePairs(h: string): (r: seq<Ints.uint8>)
    requires |h| % 2 == 0 && AllXDigits(h)
    ensures |r| == |h| / 2
    decreases |h|
  {
    if |h| == 0 then []
    else DecodePairs(h[..|h| - 2]) + [HexValue(h[|h| - 2]) * 16 + HexValue(h[|h| - 1])]
  }

  /** The two exceptions `hexToBytes` throws. */
  datatype HexError = OddLength | InvalidHexChar

  /** What `hexToBytes` returns or throws: odd length is checked first, then every digit. */
  function HexDecode(h: string): Result<seq<Ints.uint8>, HexError> {
    if |h| % 2 != 0 then Err(OddLength)
    else if !AllXDigits(h) then Err(InvalidHexChar)
    else Ok(DecodePairs(h))
  }

  lemma {:induction false} DecodeSnoc(h: string, i: nat, bytes0: seq<Ints.uint8>, bytes: seq<Ints.uint8>, b: int)
    requires i % 2 == 0 && i + 2 <= |h| && AllXDigits(h[..i]) && bytes0 == DecodePairs(h[..i])
    requires IsXDigit(h[i]) && IsXDigit(h[i + 1])
    requires b == HexValue(h[i]) * 16 + HexValue(h[i + 1]) && bytes == bytes0 + [b]
    ensures AllXDigits(h[..i + 2]) && bytes == DecodePairs(h[..i + 2])
  {
    var g := h[..i + 2];
    assert g[..i] == h[..i] && g[i] == h[i] && g[i + 1] == h[i + 1];
  }

  /** A digit the loop finds invalid makes the whole string invalid. */
  lemma {:induction false} BadDigit(h: string, i: nat)
    requires i < |h| && !IsXDigit(h[i])
    ensures !AllXDigits(h)
  {
  }

  /** src/strings.cpp `hexToBytes`; the two `std::invalid_argument` throws are the errors. */
  method HexToBytes(hex: string) returns (r: Result<seq<Ints.uint8>, HexError>)
    ensures r == HexDecode(hex)
  {
    if |hex| % 2 != 0 {
      return Err(OddLength);
    }
    var bytes: seq<Ints.uint8> := [];
    var i := 0;
    while i < |hex|
      invariant i % 2 == 0 && i <= |hex|
      invariant AllXDigits(hex[..i]) && bytes == DecodePairs(hex[..i])
    {
      var highChar := hex[i];
      var lowChar := hex[i + 1];
      if !IsXDigit(highChar) || !IsXDigit(lowChar) {
        if !IsXDigit(highChar) {
          BadDigit(hex, i);
        } else {
          BadDigit(hex, i + 1);
        }
        return Err(InvalidHexChar);
      }
      ghost var bytes0 := bytes;
      highChar := ToUpper(highChar);
      lowChar := ToUpper(lowChar);
      var high := if highChar >= 'A' then highChar as int - 'A' as int + 10 else highChar as int - '0' as int;
      var low := if lowChar >= 'A' then lowChar as int - 'A' as int + 10 else lowChar as int - '0' as int;
      bytes := bytes + [high * 16 + low];
      DecodeSnoc(hex, i, bytes0, bytes, high * 16 + low);
      i := i + 2;
    }
    assert hex[..i] == hex;
    return Ok(bytes);
  }

  /** Each digit is a hex digit whose value is its nibble. */
  lemma {:induction false} HexDigitValue(n: nat, upper: bool)
    requires n < 16
    ensures IsXDigit(HexDigit(n, upper)) && HexValue(HexDigit(n, upper)) == n
  {
  }

  lemma {:induction false} HexAppend(init: seq<Ints.uint8>, b: Ints.uint8, upper: bool)
    ensures Hex(init + [b], upper) == Hex(init, upper) + ByteHex(b, upper)
  {
    assert (init + [b])[..|init|] == init;
  }

  /** The last pair of digits decodes to the last byte. */
  lemma {:induction false} DecodeLast(h: string, g: string, x: char, y: char)
    requires |h| >= 2 && |h| % 2 == 0 && AllXDigits(h)
    requires g == h[..|h| - 2] && x == h[|h| - 2] && y == h[|h| - 1]
    ensures AllXDigits(g) && IsXDigit(x) && IsXDigit(y)
    ensures DecodePairs(h) == DecodePairs(g) + [HexValue(x) * 16 + HexValue(y)]
  {
  }

  /** The output of `bytesToHex` consists of hex digits. */
  lemma {:induction false} HexAllDigits(bytes: seq<Ints.uint8>, upper: bool)
    ensures AllXDigits(Hex(bytes, upper))
    decreases |bytes|
  {
    if |bytes| > 0 {
      var init := bytes[..|bytes| - 1];
      var b := bytes[|bytes| - 1];
      HexAllDigits(init, upper);
      HexDigitValue(b / 16, upper);
      HexDigitValue(b % 16, upper);
      assert init + [b] == bytes;
      HexAppend(init, b, upper);
    }
  }

  /** The last two digits of an encoding are those of the last byte. */
  lemma {:induction false} HexLast(bytes: seq<Ints.uint8>, upper: bool)
    requires |bytes| > 0
    ensures var h := Hex(bytes, upper); var b := bytes[|bytes| - 1];
      |h| >= 2 && h[..|h| - 2] == Hex(bytes[..|bytes| - 1], upper) &&
      h[|h| - 2] == HexDigit(b / 16, upper) && h[|h| - 1] == HexDigit(b % 16, upper)
  {
    var init := bytes[..|bytes| - 1];
    var b := bytes[|bytes| - 1];
    assert init + [b] == bytes;
    HexAppend(init, b, upper);
    var h := Hex(bytes, upper);
    assert h == Hex(init, upper) + [HexDigit(b / 16, upper), HexDigit(b % 16, upper)];
    assert h[..|h| - 2] == Hex(init, upper);
  }

  /** Decoding an encoding whose front decodes to `init` and whose last two digits are
      those of `b` gives `init` and then `b`. */
  lemma {:induction false} DecodeLastByte(h: string, init: seq<Ints.uint8>, b: Ints.uint8, upper: bool)
    requires |h| >= 2 && |h| % 2 == 0 && AllXDigits(h)
    requires h[|h| - 2] == HexDigit(b / 16, upper) && h[|h| - 1] == HexDigit(b % 16, upper)
    requires AllXDigits(h[..|h| - 2]) && DecodePairs(h[..|h| - 2]) == init
    ensures DecodePairs(h) == init + [b]
  {
    HexDigitValue(b / 16, upper);
    HexDigitValue(b % 16, upper);
    DecodeLast(h, h[..|h| - 2], h[|h| - 2], h[|h| - 1]);
    Nibbles(b);
  }

  /** The digit pairs of an encoding decode to the bytes encoded. */
  lemma {:induction false} DecodeHex(bytes: seq<Ints.uint8>, upper: bool)
    ensures AllXDigits(Hex(bytes, upper)) && DecodePairs(Hex(bytes, upper)) == bytes
    decreases |bytes|
  {
    HexAllDigits(bytes, upper);
    if |bytes| > 0 {
      var init := bytes[..|bytes| - 1];
      DecodeHex(init, upper);
      HexLast(bytes, upper);
      DecodeLastByte(Hex(bytes, upper), init, bytes[|bytes| - 1], upper);
      assert init + [bytes[|bytes| - 1]] == bytes;
    }
  }

  /** `hexToBytes` inverts `bytesToHex`, in either case. */
  lemma {:induction false} HexRoundTrip(bytes: seq<Ints.uint8>, upper: bool)
    ensures HexDecode(Hex(bytes, upper)) == Ok(bytes)
  {
    DecodeHex(bytes, upper);
  }

  /** Every letter upper-cased, as `toupper` does character by character. */
  function UpperCased(h: string): (r: string)
    ensures |r| == |h| && forall i :: 0 <= i < |h| ==> r[i] == ToUpper(h[i])
  {
    seq(|h|, i requires 0 <= i < |h| => ToUpper(h[i]))
  }

  /** Decoding, then encoding in upper case, gives the input with its letters upper-cased. */
  lemma {:induction false} HexDecodeEncode(h: string)
    requires |h| % 2 == 0 && AllXDigits(h)
    ensures Hex(DecodePairs(h), true) == UpperCased(h)
    decreases |h|
  {
    if |h| > 0 {
      var g := h[..|h| - 2];
      DecodeLast(h, g, h[|h| - 2], h[|h| - 1]);
      HexDecodeEncode(g);
      EncodeLastPair(h, g, DecodePairs(g), DecodePairs(h), PairByte(h[|h| - 2], h[|h| - 1]));
    }
  }

  /** If the front re-encodes to its upper-cased form and the last byte to the last two
      characters upper-cased, so does the whole. */
  lemma {:induction false} EncodeLastPair(h: string, g: string, dg: seq<Ints.uint8>, dh: seq<Ints.uint8>, b: Ints.uint8)
    requires |h| >= 2 && g == h[..|h| - 2] && dh == dg + [b]
    requires ByteHex(b, true) == [ToUpper(h[|h| - 2]), ToUpper(h[|h| - 1])]
    requires Hex(dg, true) == UpperCased(g)
    ensures Hex(dh, true) == UpperCased(h)
  {
    HexAppend(dg, b, true);
    UpperCasedLast(h);
  }

  /** The byte two digits stand for, and its upper-case encoding. */
  function PairByte(x: char, y: char): (b: Ints.uint8)
    requires IsXDigit(x) && IsXDigit(y)
    ensures b == HexValue(x) * 16 + HexValue(y)
    ensures ByteHex(b, true) == [ToUpper(x), ToUpper(y)]
  {
    Pack(HexValue(x), HexValue(y));
    UpperDigit(x);
    UpperDigit(y);
    HexValue(x) * 16 + HexValue(y)
  }

  /** Upper-casing handles the last two characters one by one. */
  lemma {:induction false} UpperCasedLast(h: string)
    requires |h| >= 2
    ensures UpperCased(h) == UpperCased(h[..|h| - 2]) + [ToUpper(h[|h| - 2]), ToUpper(h[|h| - 1])]
  {
    var front := UpperCased(h[..|h| - 2]);
    var whole := front + [ToUpper(h[|h| - 2]), ToUpper(h[|h| - 1])];
    forall i | 0 <= i < |h|
      ensures UpperCased(h)[i] == whole[i]
    {
      if i < |h| - 2 {
        assert whole[i] == front[i];
      }
    }
  }

  /** Two nibbles make one byte, and come back out of it. */
  lemma {:induction false} Pack(hi: nat, lo: nat)
    requires hi < 16 && lo < 16
    ensures hi * 16 + lo < 256 && (hi * 16 + lo) / 16 == hi && (hi * 16 + lo) % 16 == lo
  {
  }

  /** Upper-casing a hex digit gives the table's digit for its value. */
  lemma {:induction false} UpperDigit(c: char)
    requires IsXDigit(c)
    ensures HexDigit(HexValue(c), true) == ToUpper(c)
  {
  }

  // ---------------------------------------------------------------------------
  // starts_with / ends_with
  // ---------------------------------------------------------------------------

  /** `str.length() >= p.length() && str.substr(0, p.length()) == p`. */
  predicate HasPrefix(str: string, p: string) {
    |p| <= |str| && str[..|p|] == p
  }

  /** `str.length() >= p.length() && str.substr(str.length() - p.length()) == p`. */
  predicate HasSuffix(str: string, p: string) {
    |p| <= |str| && str[|str| - |p|..] == p
  }

  /** What `starts_with(str, prefixes)` answers: false for an empty string or an empty
      list, otherwise whether some listed prefix matches. */
  predicate StartsWithAny(str: string, prefixes: seq<string>) {
    str != [] && prefixes != [] && exists i :: 0 <= i < |prefixes| && HasPrefix(str, prefixes[i])
  }

  predicate EndsWithAny(str: string, suffixes: seq<string>) {
    str != [] && suffixes != [] && exists i :: 0 <= i < |suffixes| && HasSuffix(str, suffixes[i])
  }

  /** src/strings.cpp `starts_with`. */
  method StartsWith(str: string, prefixes: seq<string>) returns (b: bool)
    ensures b == StartsWithAny(str, prefixes)
  {
    if |str| == 0 || |prefixes| == 0 {
      return false;
    }
    for i := 0 to |prefixes|
      invariant forall k :: 0 <= k < i ==> !HasPrefix(str, prefixes[k])
    {
      var prefix := prefixes[i];
      if |str| >= |prefix| && str[..|prefix|] == prefix {
        return true;
      }
    }
    return false;
  }

  /** src/strings.cpp `ends_with`. */
  method EndsWith(str: string, suffixes: seq<string>) returns (b: bool)
    ensures b == EndsWithAny(str, suffixes)
  {
    if |str| == 0 || |suffixes| == 0 {
      return false;
    }
    for i := 0 to |suffixes|
      invariant forall k :: 0 <= k < i ==> !HasSuffix(str, suffixes[k])
    {
      var suffix := suffixes[i];
      if |str| >= |suffix| && str[|str| - |suffix|..] == suffix {
        return true;
      }
    }
    return false;
  }

  /** An empty prefix or suffix in the list matches every non-empty string. */
  lemma {:induction false} EmptyPatternMatches(str: string, patterns: seq<string>)
    requires str != [] && [] in patterns
    ensures StartsWithAny(str, patterns) && EndsWithAny(str, patterns)
  {
    var i :| 0 <= i < |patterns| && patterns[i] == [];
    assert HasPrefix(str, patterns[i]) && HasSuffix(str, patterns[i]);
  }

  /** A prefix matches exactly when reversing both strings makes it a suffix. */
  lemma {:induction false} PrefixSuffixDual(str: string, p: string)
    ensures HasPrefix(str, p) <==> HasSuffix(Reverse(str), Reverse(p))
  {
    if |p| <= |str| {
      var r, rp := Reverse(str), Reverse(p);
      var tail := r[|r| - |p|..];
      assert forall k :: 0 <= k < |p| ==> tail[k] == str[|p| - 1 - k];
      if HasPrefix(str, p) {
        assert forall k :: 0 <= k < |p| ==> tail[k] == rp[k];
      }
      if HasSuffix(r, rp) {
        assert forall k :: 0 <= k < |p| ==> str[k] == tail[|p| - 1 - k] == p[k];
      }
    }
  }

  /** The sequence read backwards. */
  function Reverse(s: string): (r: string)
    ensures |r| == |s| && forall k :: 0 <= k < |s| ==> r[k] == s[|s| - 1 - k]
    decreases |s|
  {
    if s == [] then [] else Reverse(s[1..]) + [s[0]]
  }

  /** The matching examples of tests/test_go_strings_port.cpp. */
  lemma {:induction false} MatchExamples()
    ensures StartsWithAny("hello world", ["hello", "hi", "hey"])
    ensures !StartsWithAny("", ["hello", "hi", "hey"])
    ensures EndsWithAny("file.txt", ["world", "test", ".txt"])
  {
    var ps: seq<string> := ["hello", "hi", "hey"];
    var ss: seq<string> := ["world", "test", ".txt"];
    assert HasPrefix("hello world", ps[0]);
    assert HasSuffix("file.txt", ss[2]);
  }
}
