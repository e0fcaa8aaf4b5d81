/** The inline helpers of src/strings.h: `from`, `join`, the in-place ASCII case
    converters over a C buffer, `startsWith`/`endsWith`, `remove_quotes` and the
    keyword part of `try_parse<bool>`. A `char *` buffer is an `array<byte>` that
    holds its terminating NUL; a `std::string` is a `string`. */
module StringsH {
  import opened Wrappers
  import opened Seqs
  import opened CStrings
  import opened Strings

  type byte = bv8

  const NUL_BYTE: byte := 0
  const UPPER_A: byte := 0x41  // 'A'
  const UPPER_Z: byte := 0x5A  // 'Z'
  const LOWER_A: byte := 0x61  // 'a'
  const LOWER_Z: byte := 0x7A  // 'z'

  // ---------------------------------------------------------------------------
  // from
  // ---------------------------------------------------------------------------

  /** `from(start, len)`: the characters before the first NUL among the first `len`
      (`strnlen`), or all `len` of them. The array overloads pass the array's size. */
  function From(start: seq<char>, len: nat): (r: string)
    requires len <= |start|
    ensures r <= start[..len] && NUL !in r
    ensures |r| < len ==> start[|r|] == NUL
  {
    UpToNul(start[..len], NUL)
  }

  /** `strnlen` is pinned down by its three properties. */
  lemma {:induction false} StrNLenUnique<T>(s: seq<T>, nul: T, k: nat)
    requires k <= |s| && (forall i :: 0 <= i < k ==> s[i] != nul) && (k < |s| ==> s[k] == nul)
    ensures StrNLen(s, nul) == k
  {
  }

  /** A NUL-free text followed by a terminator comes back unchanged, whatever follows. */
  lemma {:induction false} FromTerminated(s: string, rest: string)
    requires NUL !in s
    ensures From(s + [NUL] + rest, |s| + 1 + |rest|) == s
  {
    var w := s + [NUL] + rest;
    assert w[..|w|] == w;
    StrNLenUnique(w, NUL, |s|);
    assert w[..|s|] == s;
  }

  /** A NUL-free text that fills the whole window comes back unchanged. */
  lemma {:induction false} FromWhole(s: string)
    requires NUL !in s
    ensures From(s, |s|) == s
  {
    assert s[..|s|] == s;
    StrNLenUnique(s, NUL, |s|);
  }

  // ---------------------------------------------------------------------------
  // join
  // ---------------------------------------------------------------------------

  /** `join(tokens, delimiter)` with a string delimiter; the `string_view` overload is the same. */
  method JoinString(tokens: seq<string>, delimiter: string) returns (result: string)
    ensures result == Join(tokens, delimiter)
    ensures |result| == TotalLength(tokens) + (if |tokens| == 0 then 0 else |delimiter| * (|tokens| - 1))
  {
    if |tokens| == 0 {
      return [];
    }
    result := tokens[0];
    assert tokens[..1] == [tokens[0]];
    for i := 1 to |tokens|
      invariant result == Join(tokens[..i], delimiter)
    {
      result := result + delimiter + tokens[i];
      assert tokens[..i + 1] == tokens[..i] + [tokens[i]];
      JoinSnoc(tokens[..i], tokens[i], delimiter);
    }
    assert tokens[..|tokens|] == tokens;
    JoinLength(tokens, delimiter);
  }

  /** `join(tokens, delimiter)` with a character delimiter; the `string_view` overload is the same. */
  method JoinChar(tokens: seq<string>, delimiter: char) returns (result: string)
    ensures result == Join(tokens, [delimiter])
    ensures |result| == TotalLength(tokens) + (if |tokens| == 0 then 0 else |tokens| - 1)
  {
    if |tokens| == 0 {
      return [];
    }
    result := tokens[0];
    assert tokens[..1] == [tokens[0]];
    for i := 1 to |tokens|
      invariant result == Join(tokens[..i], [delimiter])
    {
      result := result + [delimiter];
      result := result + tokens[i];
      assert tokens[..i + 1] == tokens[..i] + [tokens[i]];
      JoinSnoc(tokens[..i], tokens[i], [delimiter]);
    }
    assert tokens[..|tokens|] == tokens;
    JoinLength(tokens, [delimiter]);
  }

  /** A text that continues with `p`, a delimiter and `tail` at `from`. */
  lemma {:induction false} Continues(s: string, from: nat, p: string, d: char, tail: string)
    requires from <= |s| && s[from..] == p + [d] + tail
    ensures from + |p| < |s| && s[from + |p|] == d
    ensures forall j :: from <= j < from + |p| ==> s[j] == p[j - from]
    ensures s[from..from + |p|] == p && s[from + |p| + 1..] == tail
  {
    assert forall j :: from <= j < |s| ==> s[j] == s[from..][j - from];
    assert s[from..from + |p|] == s[from..][..|p|];
    assert s[from + |p| + 1..] == s[from..][|p| + 1..];
  }

  /** `find` stops at the first delimiter. */
  lemma {:induction false} FindFirst(s: string, d: char, from: nat, k: nat)
    requires from <= k < |s| && s[k] == d && forall j :: from <= j < k ==> s[j] != d
    ensures Find(s, d, from) == Some(k)
  {
  }

  /** The raw fields of a join of delimiter-free tokens, read from where the join
      starts, are the tokens. */
  lemma {:induction false} FieldsOfJoinFrom(s: string, d: char, from: nat, parts: seq<string>)
    requires from <= |s| && |parts| > 0 && s[from..] == Join(parts, [d])
    requires forall i :: 0 <= i < |parts| ==> d !in parts[i]
    ensures FieldsFrom(s, d, from) == parts
    decreases |parts|
  {
    var p := parts[0];
    if |parts| == 1 {
      assert s[from..] == p && parts == [p];
      assert forall j :: from <= j < |s| ==> s[j] == p[j - from];
      FieldsNone(s, d, from);
    } else {
      var k := from + |p|;
      var tail := parts[1..];
      Continues(s, from, p, d, Join(tail, [d]));
      FindFirst(s, d, from, k);
      FieldsUnfold(s, d, from, k);
      assert forall i :: 0 <= i < |tail| ==> tail[i] == parts[i + 1];
      FieldsOfJoinFrom(s, d, k + 1, tail);
      assert FieldsFrom(s, d, from) == [p] + tail;
      assert parts == [p] + tail;
    }
  }

  /** Splitting a join of delimiter-free tokens on the delimiter gives the tokens back:
      `join` with a character delimiter and the raw fields of `split` undo each other. */
  lemma {:induction false} SplitJoinRoundTrip(parts: seq<string>, d: char)
    requires |parts| > 0 && forall i :: 0 <= i < |parts| ==> d !in parts[i]
    ensures Fields(Join(parts, [d]), d) == parts
  {
    var s := Join(parts, [d]);
    assert s[0..] == s;
    FieldsOfJoinFrom(s, d, 0, parts);
  }

  // ---------------------------------------------------------------------------
  // In-place ASCII case conversion of a C buffer
  // ---------------------------------------------------------------------------

  predicate IsUpperByte(b: byte) {
    UPPER_A <= b <= UPPER_Z
  }

  predicate IsLowerByte(b: byte) {
    LOWER_A <= b <= LOWER_Z
  }

  /** One byte after conversion: the character-level `to_lower`/`to_upper`. */
  function CaseByte(b: byte, lower: bool): (r: byte)
    ensures r as char == (if lower then ToLower(b as char) else ToUpper(b as char))
  {
    if lower && IsUpperByte(b) then b + 32
    else if !lower && IsLowerByte(b) then b - 32
    else b
  }

  /** The branchless lower-case step: the mask sets bit 0x20 exactly on 'A'..'Z'. */
  lemma {:induction false} BranchlessLower(b: byte, mask: byte)
    requires mask == if IsUpperByte(b) then 1 else 0
    ensures b | ((mask << 5) & 0x20) == CaseByte(b, true)
  {
  }

  /** The branchless upper-case step: the mask clears bit 0x20 exactly on 'a'..'z'. */
  lemma {:induction false} BranchlessUpper(b: byte, mask: byte)
    requires mask == if IsLowerByte(b) then 1 else 0
    ensures b & !((mask << 5) & 0x20) == CaseByte(b, false)
  {
  }

  /** The branching steps of `strtolc`/`strtouc` compute the same byte. */
  lemma {:induction false} BranchyCase(b: byte)
    ensures (if IsUpperByte(b) then b | 0x20 else b) == CaseByte(b, true)
    ensures (if IsLowerByte(b) then b & !0x20 else b) == CaseByte(b, false)
  {
  }

  /** What a converter leaves in a buffer: every byte before the first NUL converted,
      the terminator and everything after it untouched. */
  function CaseUpToNul(s: seq<byte>, lower: bool): (r: seq<byte>)
    ensures |r| == |s|
  {
    seq(|s|, i requires 0 <= i < |s| => if i < StrNLen(s, NUL_BYTE) then CaseByte(s[i], lower) else s[i])
  }

  /** The converters only touch bit 0x20 of letters of the other case before the first NUL. */
  lemma {:induction false} CaseUpToNulBits(s: seq<byte>)
    ensures forall i :: 0 <= i < |s| ==>
      CaseUpToNul(s, true)[i] == (if i < StrNLen(s, NUL_BYTE) && IsUpperByte(s[i]) then s[i] | 0x20 else s[i])
    ensures forall i :: 0 <= i < |s| ==>
      CaseUpToNul(s, false)[i] == (if i < StrNLen(s, NUL_BYTE) && IsLowerByte(s[i]) then s[i] & !0x20 else s[i])
  {
    forall i | 0 <= i < |s| {
      BranchyCase(s[i]);
    }
  }

  /** A buffer converted up to the first NUL of its old contents holds `CaseUpToNul` of them. */
  lemma {:induction false} BufferConverted(a: seq<byte>, s0: seq<byte>, lower: bool)
    requires |a| == |s0|
    requires forall i :: 0 <= i < StrNLen(s0, NUL_BYTE) ==> a[i] == CaseByte(s0[i], lower)
    requires forall i :: StrNLen(s0, NUL_BYTE) <= i < |a| ==> a[i] == s0[i]
    ensures a == CaseUpToNul(s0, lower)
  {
  }

  /** The first NUL of a C string lies inside its buffer. */
  lemma {:induction false} Terminated(s: seq<byte>)
    requires NUL_BYTE in s
    ensures StrNLen(s, NUL_BYTE) < |s|
  {
    var k :| 0 <= k < |s| && s[k] == NUL_BYTE;
    assert StrNLen(s, NUL_BYTE) <= k;
  }

  /** `strtolc_inplace_branchless`; `null` comes back as `null`. */
  method StrToLcBranchless(str: array?<byte>) returns (r: array?<byte>)
    requires str != null ==> NUL_BYTE in str[..]
    modifies str
    ensures r == str
    ensures str != null ==> str[..] == CaseUpToNul(old(str[..]), true)
  {
    if str == null {
      return null;
    }
    ghost var s0 := str[..];
    Terminated(s0);
    var p := 0;
    while str[p] != 0
      invariant 0 <= p <= StrNLen(s0, NUL_BYTE) < str.Length
      invariant forall i :: 0 <= i < p ==> str[i] == CaseByte(s0[i], true)
      invariant forall i :: p <= i < str.Length ==> str[i] == s0[i]
      decreases str.Length - p
    {
      var c := str[p];
      var mask: byte := if c >= UPPER_A && c <= UPPER_Z then 1 else 0;
      var v := c | ((mask << 5) & 0x20);
      BranchlessLower(c, mask);
      str[p] := v;
      p := p + 1;
    }
    BufferConverted(str[..], s0, true);
    return str;
  }

  /** `strtouc_inplace_branchless`; `null` comes back as `null`. */
  method StrToUcBranchless(str: array?<byte>) returns (r: array?<byte>)
    requires str != null ==> NUL_BYTE in str[..]
    modifies str
    ensures r == str
    ensures str != null ==> str[..] == CaseUpToNul(old(str[..]), false)
  {
    if str == null {
      return null;
    }
    ghost var s0 := str[..];
    Terminated(s0);
    var p := 0;
    while str[p] != 0
      invariant 0 <= p <= StrNLen(s0, NUL_BYTE) < str.Length
      invariant forall i :: 0 <= i < p ==> str[i] == CaseByte(s0[i], false)
      invariant forall i :: p <= i < str.Length ==> str[i] == s0[i]
      decreases str.Length - p
    {
      var c := str[p];
      var mask: byte := if c >= LOWER_A && c <= LOWER_Z then 1 else 0;
      var v := c & !((mask << 5) & 0x20);
      BranchlessUpper(c, mask);
      str[p] := v;
      p := p + 1;
    }
    BufferConverted(str[..], s0, false);
    return str;
  }

  /** `strtolc`: the branching form, with the same effect as the branchless one. */
  method StrToLc(str: array?<byte>) returns (r: array?<byte>)
    requires str != null ==> NUL_BYTE in str[..]
    modifies str
    ensures r == str
    ensures str != null ==> str[..] == CaseUpToNul(old(str[..]), true)
  {
    if str == null {
      return null;
    }
    ghost var s0 := str[..];
    Terminated(s0);
    var p := 0;
    while str[p] != 0
      invariant 0 <= p <= StrNLen(s0, NUL_BYTE) < str.Length
      invariant forall i :: 0 <= i < p ==> str[i] == CaseByte(s0[i], true)
      invariant forall i :: p <= i < str.Length ==> str[i] == s0[i]
      decreases str.Length - p
    {
      BranchyCase(str[p]);
      str[p] := if str[p] >= UPPER_A && str[p] <= UPPER_Z then str[p] | 0x20 else str[p];
      p := p + 1;
    }
    BufferConverted(str[..], s0, true);
    return str;
  }

  /** `strtouc`: the branching form, with the same effect as the branchless one. */
  method StrToUc(str: array?<byte>) returns (r: array?<byte>)
    requires str != null ==> NUL_BYTE in str[..]
    modifies str
    ensures r == str
    ensures str != null ==> str[..] == CaseUpToNul(old(str[..]), false)
  {
    if str == null {
      return null;
    }
    ghost var s0 := str[..];
    Terminated(s0);
    var p := 0;
    while str[p] != 0
      invariant 0 <= p <= StrNLen(s0, NUL_BYTE) < str.Length
      invariant forall i :: 0 <= i < p ==> str[i] == CaseByte(s0[i], false)
      invariant forall i :: p <= i < str.Length ==> str[i] == s0[i]
      decreases str.Length - p
    {
      BranchyCase(str[p]);
      str[p] := if str[p] >= LOWER_A && str[p] <= LOWER_Z then str[p] & !0x20 else str[p];
      p := p + 1;
    }
    BufferConverted(str[..], s0, false);
    return str;
  }

  /** The buffer `std::string::data()` exposes: the bytes and a terminating NUL. */
  method CBuffer(s: seq<byte>) returns (buf: array<byte>)
    ensures fresh(buf) && buf[..] == s + [NUL_BYTE]
  {
    buf := new byte[|s| + 1](i => if 0 <= i < |s| then s[i] else NUL_BYTE);
    assert buf[..] == s + [NUL_BYTE];
  }

  /** A terminator appended behind a buffer does not move its first NUL. */
  lemma {:induction false} StrNLenTerminator(s: seq<byte>)
    ensures StrNLen(s + [NUL_BYTE], NUL_BYTE) == StrNLen(s, NUL_BYTE)
  {
    var n := StrNLen(s, NUL_BYTE);
    StrNLenUnique(s + [NUL_BYTE], NUL_BYTE, n);
  }

  /** `to_lower(input)` (src/strings.h): a copy converted through its `data()` buffer, so
      conversion stops at an embedded NUL while the copy keeps its full length. */
  method ToLowerText(input: seq<byte>) returns (result: seq<byte>)
    ensures result == CaseUpToNul(input, true)
  {
    var buf := CBuffer(input);
    var _ := StrToLcBranchless(buf);
    result := buf[..|input|];
    StrNLenTerminator(input);
  }

  /** `to_upper(input)` (src/strings.h), the upper-case counterpart. */
  method ToUpperText(input: seq<byte>) returns (result: seq<byte>)
    ensures result == CaseUpToNul(input, false)
  {
    var buf := CBuffer(input);
    var _ := StrToUcBranchless(buf);
    result := buf[..|input|];
    StrNLenTerminator(input);
  }

  /** Without an embedded NUL every byte is converted. */
  lemma {:induction false} CaseWithoutNul(s: seq<byte>, lower: bool)
    requires NUL_BYTE !in s
    ensures forall i :: 0 <= i < |s| ==> CaseUpToNul(s, lower)[i] == CaseByte(s[i], lower)
  {
    StrNLenUnique(s, NUL_BYTE, |s|);
  }

  /** Converting twice is converting once. */
  lemma {:induction false} CaseIdempotent(s: seq<byte>, lower: bool)
    ensures CaseUpToNul(CaseUpToNul(s, lower), lower) == CaseUpToNul(s, lower)
  {
    var r := CaseUpToNul(s, lower);
    var n := StrNLen(s, NUL_BYTE);
    assert forall i :: 0 <= i < n ==> r[i] != NUL_BYTE;
    StrNLenUnique(r, NUL_BYTE, n);
  }

  // ---------------------------------------------------------------------------
  // startsWith / endsWith
  // ---------------------------------------------------------------------------

  /** Some listed prefix matches; unlike `starts_with` in src/strings.cpp an empty
      string is not rejected up front. */
  predicate AnyPrefix(str: string, prefixes: seq<string>) {
    exists i :: 0 <= i < |prefixes| && HasPrefix(str, prefixes[i])
  }

  predicate AnySuffix(str: string, suffixes: seq<string>) {
    exists i :: 0 <= i < |suffixes| && HasSuffix(str, suffixes[i])
  }

  /** `startsWith(str, prefixes)`; the `initializer_list` overload forwards to it. */
  method StartsWith(str: string, prefixes: seq<string>) returns (b: bool)
    ensures b == AnyPrefix(str, prefixes)
  {
    for i := 0 to |prefixes|
      invariant forall k :: 0 <= k < i ==> !HasPrefix(str, prefixes[k])
    {
      var prefix := prefixes[i];
      if |str| >= |prefix| && str[..|prefix|] == prefix {
        return true;
      }
    }
    return false;
  }

  /** `endsWith(str, suffixes)`. */
  method EndsWith(str: string, suffixes: seq<string>) returns (b: bool)
    ensures b == AnySuffix(str, suffixes)
  {
    for i := 0 to |suffixes|
      invariant forall k :: 0 <= k < i ==> !HasSuffix(str, suffixes[k])
    {
      var suffix := suffixes[i];
      if |str| >= |suffix| && str[|str| - |suffix|..] == suffix {
        return true;
      }
    }
    return false;
  }

  /** The header's matchers agree with those of src/strings.cpp except on the empty
      string, which they match exactly when the list holds an empty pattern. */
  lemma {:induction false} MatchersAgree(str: string, patterns: seq<string>)
    ensures StartsWithAny(str, patterns) <==> str != [] && AnyPrefix(str, patterns)
    ensures EndsWithAny(str, patterns) <==> str != [] && AnySuffix(str, patterns)
    ensures AnyPrefix([], patterns) <==> [] in patterns
    ensures AnySuffix([], patterns) <==> [] in patterns
  {
    if [] in patterns {
      var i :| 0 <= i < |patterns| && patterns[i] == [];
      assert HasPrefix([], patterns[i]) && HasSuffix([], patterns[i]);
    }
  }

  // ---------------------------------------------------------------------------
  // remove_quotes
  // ---------------------------------------------------------------------------

  predicate Quoted(t: string) {
    |t| >= 2 && t[0] == '"' && t[|t| - 1] == '"'
  }

  /** `remove_quotes`: trim, then drop one surrounding pair of double quotes. */
  function RemoveQuotes(s: string): (r: string)
    ensures forall c :: c in r ==> c in s
    ensures Quoted(Trimmed(s)) ==> Trimmed(s) == ['"'] + r + ['"']
    ensures !Quoted(Trimmed(s)) ==> r == Trimmed(s)
  {
    var t := Trimmed(s);
    if Quoted(t) then t[1..|t| - 1] else t
  }

  /** Quoting any text and removing the quotes gives the text back. */
  lemma {:induction false} QuoteRoundTrip(x: string)
    ensures RemoveQuotes(['"'] + x + ['"']) == x
  {
    var q := ['"'] + x + ['"'];
    TrimmedPlain(q);
    assert q[1..|q| - 1] == x;
  }

  /** Surrounding whitespace makes no difference. */
  lemma {:induction false} RemoveQuotesIgnoresTrim(s: string)
    ensures RemoveQuotes(Trimmed(s)) == RemoveQuotes(s)
  {
    TrimIdempotent(s);
  }

  // ---------------------------------------------------------------------------
  // try_parse<bool>, try_parse<std::string>, to_string<bool>
  // ---------------------------------------------------------------------------

  /** A `std::string` holds bytes. */
  predicate IsByteText(s: string) {
    forall i :: 0 <= i < |s| ==> s[i] as int < 256
  }

  /** Removing quotes keeps a byte text a byte text. */
  lemma {:induction false} RemoveQuotesBytes(s: string)
    requires IsByteText(s)
    ensures IsByteText(RemoveQuotes(s))
  {
    var r := RemoveQuotes(s);
    forall i | 0 <= i < |r|
      ensures r[i] as int < 256
    {
      assert r[i] in r;
      var j :| 0 <= j < |s| && s[j] == r[i];
    }
  }

  /** The byte a character of a byte text is stored as. */
  function ByteOf(c: char): (b: byte)
    requires c as int < 256
    ensures b as char == c
  {
    c as byte
  }

  function Bytes(s: string): (b: seq<byte>)
    requires IsByteText(s)
    ensures |b| == |s| && forall i :: 0 <= i < |s| ==> b[i] as char == s[i]
  {
    seq(|s|, i requires 0 <= i < |s| => ByteOf(s[i]))
  }

  function Text(b: seq<byte>): (s: string)
    ensures |s| == |b| && forall i :: 0 <= i < |b| ==> s[i] == b[i] as char
  {
    seq(|b|, i requires 0 <= i < |b| => b[i] as char)
  }

  /** Character-by-character `to_lower`. */
  function LowerText(s: string): (r: string)
    ensures |r| == |s| && forall i :: 0 <= i < |s| ==> r[i] == ToLower(s[i])
  {
    seq(|s|, i requires 0 <= i < |s| => ToLower(s[i]))
  }

  /** The keywords `try_parse<bool>` recognises, already lower-cased. */
  function KeywordValue(w: string): Option<bool> {
    if w == "true" || w == "yes" || w == "on" || w == "1" then Some(true)
    else if w == "false" || w == "no" || w == "off" || w == "0" then Some(false)
    else None
  }

  /** A keyword, or the text the numeric fallback would read. */
  datatype BoolParse = Parsed(value: bool) | NumericFallback(processed: string)

  /** A text after lower-casing its `data()` buffer in place: the characters before the
      first NUL are lowered, the rest, and the length, stay as they were. */
  function LowerUpToNul(s: string): (r: string)
    ensures |r| == |s|
    ensures forall i :: 0 <= i < |s| ==> r[i] == if i < StrNLen(s, NUL) then ToLower(s[i]) else s[i]
  {
    seq(|s|, i requires 0 <= i < |s| => if i < StrNLen(s, NUL) then ToLower(s[i]) else s[i])
  }

  /** What `try_parse<bool>` decides: the quote-free text, cut at its first NUL (the
      lower-cased buffer is read back as a C string) and lower-cased, against the keywords.
      The numeric fallback reads the quote-free text as the in-place lowering left it. */
  function ParseBool(str: string): BoolParse {
    var processed := RemoveQuotes(str);
    var found := KeywordValue(LowerText(UpToNul(processed, NUL)));
    if found.Some? then Parsed(found.value) else NumericFallback(LowerUpToNul(processed))
  }

  /** The whole buffer after lowering in place, terminator dropped, is the text lowered
      before its first NUL: what `processed` holds once `data()` has been lowered. */
  lemma {:induction false} LoweredInPlace(p: string)
    requires IsByteText(p)
    ensures Text(CaseUpToNul(Bytes(p) + [NUL_BYTE], true)[..|p|]) == LowerUpToNul(p)
  {
    var b := Bytes(p) + [NUL_BYTE];
    var c := CaseUpToNul(b, true);
    var k := StrNLen(p, NUL);
    assert forall i :: 0 <= i < k ==> b[i] != NUL_BYTE by {
      forall i | 0 <= i < k ensures b[i] != NUL_BYTE {
        assert b[i] as char == p[i];
      }
    }
    assert k < |p| ==> b[k] == NUL_BYTE by {
      if k < |p| {
        assert b[k] as char == p[k];
      }
    }
    StrNLenUnique(b, NUL_BYTE, k);
    forall i | 0 <= i < |p|
      ensures Text(c[..|p|])[i] == LowerUpToNul(p)[i]
    {
      assert b[i] as char == p[i];
    }
  }

  /** Lower-casing through the C buffer and reading it back as a C string is the
      character-level lower-casing of the text before its first NUL. */
  lemma {:induction false} LowerThroughBuffer(p: string)
    requires IsByteText(p)
    ensures Text(UpToNul(CaseUpToNul(Bytes(p) + [NUL_BYTE], true), NUL_BYTE)) == LowerText(UpToNul(p, NUL))
  {
    var b := Bytes(p) + [NUL_BYTE];
    var c := CaseUpToNul(b, true);
    var k := StrNLen(p, NUL);
    assert forall i :: 0 <= i < k ==> b[i] != NUL_BYTE by {
      forall i | 0 <= i < k ensures b[i] != NUL_BYTE {
        assert b[i] as char == p[i];
      }
    }
    assert k < |p| ==> b[k] == NUL_BYTE by {
      if k < |p| {
        assert b[k] as char == p[k];
      }
    }
    StrNLenUnique(b, NUL_BYTE, k);
    StrNLenUnique(c, NUL_BYTE, k);
    assert Text(c[..k]) == LowerText(p[..k]);
  }

  /** `try_parse<bool>`: the keyword part. The quote-free text is copied into a buffer,
      lower-cased in place and read back up to its first NUL. */
  method TryParseBool(str: string) returns (r: BoolParse)
    requires IsByteText(str)
    ensures r == ParseBool(str)
  {
    var processed := RemoveQuotes(str);
    RemoveQuotesBytes(str);
    var buf := CBuffer(Bytes(processed));
    var _ := StrToLcBranchless(buf);
    var lower := Text(UpToNul(buf[..], NUL_BYTE));
    LowerThroughBuffer(processed);
    LoweredInPlace(processed);
    if lower == "true" || lower == "yes" || lower == "on" || lower == "1" {
      r := Parsed(true);
    } else if lower == "false" || lower == "no" || lower == "off" || lower == "0" {
      r := Parsed(false);
    } else {
      r := NumericFallback(Text(buf[..|processed|]));
    }
  }

  /** `to_string<bool>`. */
  function BoolText(value: bool): (s: string)
    ensures IsByteText(s) && NUL !in s
  {
    if value then "true" else "false"
  }

  /** `try_parse<bool>` reads back what `to_string<bool>` writes. */
  lemma {:induction false} BoolTextRoundTrip(value: bool)
    ensures ParseBool(BoolText(value)) == Parsed(value)
  {
    var s := BoolText(value);
    TrimmedPlain(s);
    FromWhole(s);
    assert s[..|s|] == s;
    assert LowerText(s) == s;
  }

  /** `try_parse<std::string>`: always succeeds and hands the input back unchanged. */
  function TryParseText(str: string): (r: (bool, string))
    ensures r.0 && r.1 == str
  {
    (true, str)
  }

  /** Keywords are matched without regard to case and inside quotes. */
  lemma {:induction false} ParseQuotedUpper(s: string)
    requires s == "\"TRUE\""
    ensures ParseBool(s) == Parsed(true)
  {
    var w := "TRUE";
    QuoteRoundTrip(w);
    assert ['"'] + w + ['"'] == s;
    StrNLenUnique(w, NUL, 4);
    assert w[..4] == w;
    assert LowerText(w) == "true";
  }

  /** Surrounding whitespace is trimmed away before the keywords are compared. */
  lemma {:induction false} ParsePadded(s: string)
    requires s == " Off "
    ensures ParseBool(s) == Parsed(false)
  {
    TrimBoundsUnique(s, 1, 4);
    var w := s[1..4];
    assert w == "Off";
    StrNLenUnique(w, NUL, 3);
    assert w[..3] == w;
    assert LowerText(w) == "off";
  }

  /** Only the text before an embedded NUL is compared. */
  lemma {:induction false} ParseCutAtNul(s: string)
    requires s == "on" + [NUL] + "x"
    ensures ParseBool(s) == Parsed(true)
  {
    TrimmedPlain(s);
    StrNLenUnique(s, NUL, 2);
    assert s[..2] == "on";
    assert LowerText("on") == "on";
  }

  /** A text that is no keyword is left to the numeric fallback, quote-free. */
  lemma {:induction false} ParseNumeric(s: string)
    requires s == "2"
    ensures ParseBool(s) == NumericFallback(s)
  {
    TrimmedPlain(s);
    StrNLenUnique(s, NUL, 1);
    assert s[..1] == s;
    assert LowerText(s) == s;
  }

  /** The numeric fallback reads the lowered text: the buffer was lowered in place. */
  lemma {:induction false} ParseFallbackLowered(s: string)
    requires s == "\"1X\""
    ensures ParseBool(s) == NumericFallback("1x")
  {
    var w := "1X";
    QuoteRoundTrip(w);
    assert ['"'] + w + ['"'] == s;
    StrNLenUnique(w, NUL, 2);
    assert w[..2] == w;
    assert LowerText(w) == "1x";
    assert LowerUpToNul(w) == "1x";
  }
}
