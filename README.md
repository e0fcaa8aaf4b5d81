# quant1x std core, modelled in Dafny

This project models six sequential components of the quant1x `std` C++ library (and its Go
counterpart of the timestamp type) and proves properties of them:

- **NUMA-aware CPU allocation** (src/affinity.cpp). The allocation policy is stated on
  values in module `AffinityPolicy`. It covers:
  - the reverse round-robin fallback and the least-loaded node;
  - the ordinary choice among the non-isolated CPUs of a node, taken modulo that node's counter;
  - the isolated-CPU scans, the isolation table the constructor builds, and counter reset.

  Module `Affinity` holds `NumaAwareCpuAllocator` as a class. Its methods update the node
  counters and the totals in place, and each method is proved to be the matching step
  function of the policy. The CPU count, the topology and the node a memory hint resolves to
  are inputs. The function-local static round-robin counter is one shared
  `RoundRobinCounter` object.
- **`BinaryStream`** (src/buffer.h), in module `Buffer`. It is a class with a byte buffer and
  a cursor. Its members are:
  - little-endian integer push/get, proved to round-trip for all eight integral types;
  - raw byte arrays, and length-prefixed and NUL-truncated strings;
  - the hand-rolled signed varint decoder, proved against an encoder it inverts;
  - `seek`, `skip` and `clear`.
- **String utilities of src/strings.cpp** (modules `Strings` and `StringCase`):
  - the ASCII character helpers and `trim`;
  - `split` on a character and on a string;
  - `unique`, `bytesToHex`/`hexToBytes` and `replace_all`;
  - the `string_iter` walker and the camel, snake and kebab case converters;
  - `starts_with`/`ends_with`.

  Every loop in the source is a Dafny method proved against a specification function, and
  the properties are lemmas about those functions.
- **String helpers of src/strings.h** (module `StringsH`):
  - `from` and `join`;
  - the four in-place case converters over a NUL-terminated `char` buffer, as an `array`;
  - `startsWith`/`endsWith` and `remove_quotes`;
  - the keyword part of `try_parse<bool>`, and `try_parse<std::string>`.
- **The millisecond timestamp**, in three variants that all wrap one `int64` count:
  - src/timestamp.cpp (module `ExchangeTimestamp`), with C++ truncating `%`/`/`, where signed
    overflow is undefined and so excluded by preconditions;
  - api/timestamp.go (module `ApiTimestamp`), with the same truncating operators but 64-bit
    wrap-around written out;
  - src/timestamp_backup.cpp (module `BackupTimestamp`), which floors and ceils to whole
    seconds, parses by separator positions and prints fixed texts for the zero timestamp.
    Its `empty` and comparison operators (src/timestamp_backup.cpp:145-147, 241-263) are
    those of src/timestamp.cpp, so the module reuses `ExchangeTimestamp.Timestamp` with its
    `Empty` and comparison functions.

Shared vocabulary:
- `Ints`: 32- and 64-bit wrap-around, and truncating division and remainder.
- `Wrappers`: `Option` and `Result`, where a `Result` error stands for a thrown exception or
  a returned `std::errc`.
- `CStrings`: `strnlen`.
- `Seqs`: join and slicing lemmas.
- `TimeUnits`: the millisecond constants.

## Model

| member | source | states |
|---|---|---|
| Ints.Wrap32 | src/affinity.cpp:128 | `unsigned` arithmetic: the stored value is congruent to the exact one modulo 2^32, and equal to it when it is in range |
| Ints.Wrap64 | api/timestamp.go:193-200 | Go `int64` arithmetic: the result is congruent to the exact value modulo 2^64, and equal to it when it is in range |
| Ints.TDiv | src/timestamp.cpp:235-239 | C++/Go `/` by a positive divisor: the quotient rounded toward zero, so `b * q` lies within one divisor of `a` on the side of zero |
| Ints.TMod | src/timestamp.cpp:103-105 | C++/Go `%`: `a == b * TDiv(a, b) + r`, and the remainder has the sign of the dividend and is smaller than the divisor in magnitude |
| Ints.TruncateToMultiple | src/timestamp.cpp:148-154 | `a - a % b` (truncating) is a multiple of `b` lying between 0 and `a` |
| CStrings.StrNLen | src/strings.h:14-17 | `strnlen`: no NUL before the result, and a NUL at it when it is inside the sequence |
| CStrings.UpToNul | src/buffer.h:215-225 | a NUL-free prefix of the input, cut only at a NUL |
| Seqs.JoinLength | src/strings.h:60-82 | the length of a join is the sum of the token lengths plus one separator between each pair of neighbours |
| AffinityPolicy.CpuCountFromProbe | src/affinity.cpp:45-59 | a non-positive probe gives 0; a probe in range is kept; otherwise it is truncated modulo 2^32 |
| AffinityPolicy.GetCpuCount | src/affinity.cpp:61-66 | `no_such_device` exactly when the count is 0, otherwise the count |
| AffinityPolicy.SetAffinity | src/affinity.cpp:71-79 | the count error first; `invalid_argument` whenever the index is at least the count; success exactly when the index is in range and the platform call does not fail; otherwise the system error code |
| AffinityPolicy.RoundRobinIndex | src/affinity.cpp:128 | `cpu_count - 1 - ticket % cpu_count` is always below the CPU count |
| AffinityPolicy.RoundRobinStartsAtLast | src/affinity.cpp:128 | the first ticket gets the last CPU |
| AffinityPolicy.RoundRobinCountsDown | src/affinity.cpp:494-495 | successive tickets give K-1, K-2, ..., 0 and then K-1 again |
| AffinityPolicy.RoundRobinRepeatsAtWrap | src/affinity.cpp:494-495 | when the 32-bit counter wraps and K does not divide 2^32 the cycle breaks: with 3 CPUs, tickets 2^32-1 and 0 both get CPU 2 |
| AffinityPolicy.CpuRange | src/affinity.cpp:277-280 | the list 0, 1, ..., n-1 |
| AffinityPolicy.FallbackTopologyIsConsistent | src/affinity.cpp:267-281 | the single-node topology has one node; every CPU maps to node 0 and appears in that node's list; NUMA is not available |
| AffinityPolicy.ReserveLastCpus | src/affinity.cpp:390-400 | the isolation table has one flag per entry of the CPU-to-node map |
| AffinityPolicy.ReserveLastCpusFlagsExactlyLast | src/affinity.cpp:390-400 | a CPU is flagged exactly when it is the last CPU of some non-empty node list |
| AffinityPolicy.ReservedCpusOfNode | src/affinity.cpp:390-400 | in a consistent topology, a node's last CPU is flagged and no other CPU of that node is |
| AffinityPolicy.Available | src/affinity.cpp:445-450 | a CPU is available exactly when it is in the node's list, in the table's range and not flagged; no longer than the list |
| AffinityPolicy.OnNodeChoice | src/affinity.cpp:452-456 | the choice is a CPU of the node, and it is non-isolated exactly when the node has a non-isolated CPU |
| AffinityPolicy.LastIsolated | src/affinity.cpp:459-470 | nothing exactly when no CPU of the list is flagged; otherwise the flagged CPU with no flagged CPU after it |
| AffinityPolicy.ReservationSeparatesChoices | src/affinity.cpp:390-470 | with the constructor's table, a node's isolated scan finds its last CPU, and a node of two or more CPUs never hands that CPU out as an ordinary choice |
| AffinityPolicy.ArgMinFrom | src/affinity.cpp:475-485 | the first index of a minimum: no counter is smaller, and every earlier counter is strictly larger |
| AffinityPolicy.LeastLoaded | src/affinity.cpp:472-486 | node 0 for at most one node, otherwise the lowest-indexed node with the smallest counter |
| AffinityPolicy.SimpleStep | src/affinity.cpp:488-496 | 0 without a CPU count and no change; otherwise an index below the count, and the shared counter advanced by one modulo 2^32 |
| AffinityPolicy.OnNodeStep | src/affinity.cpp:436-457 | a bad or empty node falls back to round robin; otherwise the CPU is in the node's list, only that node's counter rises by one, and the CPU is non-isolated whenever the node has one |
| AffinityPolicy.OptimalStep | src/affinity.cpp:404-434 | the total rises by exactly one; the isolated count is unchanged or rises by one, and only for a critical-path or high-frequency request served an isolated CPU |
| AffinityPolicy.OrdinaryRequestsAvoidIsolatedCpus | src/affinity.cpp:404-457 | on a NUMA topology whose nodes all have two or more CPUs, a request not asking for isolation and without a memory hint never gets an isolated CPU |
| AffinityPolicy.OrdinaryRequestsKeepNodesBalanced | src/affinity.cpp:404-486 | without hints, ordinary requests keep every node counter within one of every other |
| AffinityPolicy.IsolatedScan | src/affinity.cpp:524-533 | nothing exactly when no node from n on, apart from the skipped one, has a flagged CPU; otherwise the CPU that one of those nodes offers |
| AffinityPolicy.IsolatedPick | src/affinity.cpp:515-537 | nothing exactly when no node has a flagged CPU; otherwise a flagged CPU of some node |
| AffinityPolicy.IsolatedPickSucceeds | src/affinity.cpp:515-537 | with the constructor's table, an isolated CPU is found whenever some node has a CPU |
| Affinity.RoundRobinCounter.FetchAdd | src/affinity.cpp:494-495 | `fetch_add(1)`: the old value, with the counter advanced modulo 2^32 |
| Affinity.GetNextCpuIndex | src/affinity.cpp:111-129 | `no_such_device` and no change without a CPU count; otherwise the reverse round-robin index of the old counter, and the counter advanced |
| Affinity.GetFallbackTopology | src/affinity.cpp:267-281 | the single-node topology of every CPU, or one empty node and `no_such_device` when the count is 0 |
| Affinity.NumaAwareCpuAllocator.constructor | src/affinity.cpp:381-402 | totals 0; with a successful discovery and at least one node, every node counter is 0 and the table is `ReserveLastCpus`; otherwise no counters and no table |
| Affinity.NumaAwareCpuAllocator.NextCpuIndexSimple | src/affinity.cpp:488-496 | the CPU and the new state are `SimpleStep` of the old state |
| Affinity.NumaAwareCpuAllocator.AllocateCpuOnNode | src/affinity.cpp:436-457 | the CPU and the new state are `OnNodeStep` of the old state |
| Affinity.NumaAwareCpuAllocator.AvailableCpus | src/affinity.cpp:445-450 | the filter loop yields exactly `Available` of the node's list |
| Affinity.NumaAwareCpuAllocator.TryAllocateIsolatedCpuOnNode | src/affinity.cpp:459-470 | the last flagged CPU of the node, or nothing for a bad node or none flagged; no state changes |
| Affinity.NumaAwareCpuAllocator.LeastLoadedNode | src/affinity.cpp:472-486 | the running-minimum loop yields `LeastLoaded` of the counters |
| Affinity.NumaAwareCpuAllocator.AllocateOptimalCpu | src/affinity.cpp:404-434 | the CPU and the new state are `OptimalStep` of the old state |
| Affinity.NumaAwareCpuAllocator.AllocateIsolatedCpu | src/affinity.cpp:515-537 | the least-loaded node first, then the others by index; the CPU and one more isolated allocation, or `resource_unavailable_try_again` and no change; the node counters and the total are untouched |
| Affinity.NumaAwareCpuAllocator.ScanOtherNodes | src/affinity.cpp:524-533 | the retry loop yields `IsolatedScan` from node 0, skipping the node already tried |
| Affinity.NumaAwareCpuAllocator.GetAllocationStats | src/affinity.cpp:543-554 | a snapshot of both totals and of every node counter |
| Affinity.NumaAwareCpuAllocator.ResetAllocationCounters | src/affinity.cpp:556-562 | both totals and every node counter become 0; the number of counters and the shared round-robin counter stay |
| Buffer.Unsigned | src/buffer.h:19-26 | the two's-complement bit pattern: below 2^bits, and equal to the value or the value plus 2^bits |
| Buffer.Reinterpret | src/buffer.h:28-38 | the value of the type whose pattern is `u`: in the type's range, and equal to `u` or `u - 2^bits` |
| Buffer.LeBytes | src/buffer.h:19-26 | byte `i` is `(v >> 8i) & 0xFF` |
| Buffer.FromLeOfLeBytes | src/buffer.h:19-38 | reading back the `n` low bytes gives the value modulo 256^n |
| Buffer.LeBytesOfFromLe | src/buffer.h:19-38 | writing back what bytes denote gives the same bytes |
| Buffer.Encode | src/buffer.h:68-79 | the bytes written for a value have the size of its type |
| Buffer.Decode | src/buffer.h:82-94 | the value read from `sizeof(T)` bytes is in the range of `T` |
| Buffer.LeRoundTrip | src/buffer.h:68-94 | reading the bytes written for a value gives the value, for all eight integral types |
| Buffer.DecodeRoundTrip | src/buffer.h:68-94 | writing the value read from bytes gives the same bytes |
| Buffer.Grow | src/buffer.h:40-44 | the buffer grows to exactly `required` when shorter, never shrinks, keeps its bytes, and only adds zeros |
| Buffer.Write | src/buffer.h:133-137 | the data sits at the offset; every other byte is as before or a zero of the growth |
| Buffer.WriteKeeps | src/buffer.h:133-137 | a write leaves any range before or after it alone |
| Buffer.WriteAppend | src/buffer.h:191-194 | two adjacent writes are one write of the concatenation |
| Buffer.VarintLength | src/buffer.h:227-242 | the varint runs up to and including the first byte without bit 0x80; 0 when the buffer ends first |
| Buffer.Groups7 | src/buffer.h:235-239 | seven-bit groups with the continuation bit on all but the last |
| Buffer.VarintEncode | src/buffer.h:227-242 | the encoding is terminated: the continuation bit is set on every byte but the last |
| Buffer.VarintRoundTrip | src/buffer.h:227-242 | every 64-bit value encodes in at most ten bytes, and the decoder's arithmetic gives it back |
| Buffer.EncodedFirstByte | src/buffer.h:230-231 | bit 0x40 of the first byte is the sign |
| Buffer.VarintLengthOfWritten | src/buffer.h:227-242 | a terminated varint placed in a buffer is found to have exactly its own length |
| Buffer.BinaryStream.constructor | src/buffer.h:53 | an empty buffer with the cursor at 0 |
| Buffer.BinaryStream.FromBytes | src/buffer.h:54-58 | a copy of the bytes with the cursor at 0 |
| Buffer.BinaryStream.EnsureCapacity | src/buffer.h:40-44 | the buffer becomes `Grow` of the old buffer; the cursor stays |
| Buffer.BinaryStream.CheckAvailable | src/buffer.h:46-50 | success exactly when `required` bytes follow the cursor, otherwise `out_of_range` |
| Buffer.BinaryStream.PushLe | src/buffer.h:19-26 | the little-endian bytes of the pattern are written at the cursor, and the cursor moves past them |
| Buffer.BinaryStream.GetLe | src/buffer.h:28-38 | the pattern the next bytes form, cursor advanced; `out_of_range` with the cursor unchanged when too few bytes are left |
| Buffer.BinaryStream.PushArithmetic | src/buffer.h:68-79 | the two's-complement bytes of the value are written at the cursor; the cursor advances by `sizeof(T)` |
| Buffer.BinaryStream.GetArithmetic | src/buffer.h:82-94 | the value of the next `sizeof(T)` bytes, cursor advanced; `out_of_range` with the cursor unchanged when too few bytes are left |
| Buffer.BinaryStream.PushByteArray | src/buffer.h:121-137 | the bytes occupy `[offset, offset + n)`, every other byte is unchanged, and the cursor advances by `n` |
| Buffer.BinaryStream.GetByteArray | src/buffer.h:155-173 | the next `n` bytes, cursor advanced; `out_of_range` with the cursor unchanged when too few bytes are left |
| Buffer.BinaryStream.PushLengthPrefixedString | src/buffer.h:191-194 | a 4-byte little-endian length (cast to 32 bits), then the bytes |
| Buffer.BinaryStream.GetLengthPrefixedString | src/buffer.h:196-202 | the bytes after the length; when they are not all there, `out_of_range` after the cursor has passed the length |
| Buffer.BinaryStream.PushString | src/buffer.h:205-207 | the raw bytes at the cursor, with no length |
| Buffer.BinaryStream.GetString | src/buffer.h:215-225 | the bytes before the first NUL among the next `len`, the cursor always advancing by `len`; `out_of_range` with the cursor unchanged when too few bytes are left |
| Buffer.BinaryStream.VarintDecode | src/buffer.h:227-242 | the cursor passes exactly the varint and the result is the value it denotes |
| Buffer.BinaryStream.Seek | src/buffer.h:248-250 | the cursor is set exactly; the bytes stay |
| Buffer.BinaryStream.Skip | src/buffer.h:252-254 | the cursor moves on by the amount; the bytes stay |
| Buffer.BinaryStream.Clear | src/buffer.h:259-262 | an empty buffer with the cursor at 0 |
| Buffer.IntegerRoundTrip | src/buffer.h:68-94 | an integer pushed anywhere in any buffer reads back unchanged once the cursor is moved back |
| Buffer.StringRoundTrip | src/buffer.h:191-202 | a length-prefixed string shorter than 2^32 bytes reads back unchanged, and the cursor ends just after it |
| Buffer.VarintStreamRoundTrip | src/buffer.h:227-242 | the varint encoding of any value, pushed into a stream, decodes to the value |
| Buffer.PrefixedLayout | src/buffer.h:191-194 | a length-prefixed write leaves the length, read little-endian, followed by the bytes |
| Strings.ToLower | src/strings.cpp:212-217 | only 'A'..'Z' change, each to the letter 32 above it; no result is upper case |
| Strings.ToUpper | src/strings.cpp:219-224 | only 'a'..'z' change, each to the letter 32 below it; no result is lower case |
| Strings.CaseRoundTrip | src/strings.cpp:212-224 | the case maps undo each other on letters and are idempotent |
| Strings.CaseKeepsNonDelimiter | src/strings.cpp:230-232 | case conversion never turns a non-delimiter into a delimiter |
| Strings.TrimBounds | src/strings.cpp:36-45 | everything cut is whitespace, and what is kept starts and ends with a non-whitespace character |
| Strings.TrimBoundsUnique | src/strings.cpp:36-45 | those bounds are the only ones so described: `trim` removes exactly the maximal whitespace prefix and suffix |
| Strings.TrimIdempotent | src/strings.cpp:36-45 | trimming twice is trimming once |
| Strings.Trim | src/strings.cpp:36-45 | the two skip loops yield `Trimmed` |
| Strings.IsEmptyIff | src/strings.cpp:452-454 | `is_empty` holds exactly when every character is whitespace |
| Strings.Find | src/strings.cpp:69 | the first position at or after `from` holding the character, or none |
| Strings.SplitChar | src/strings.cpp:58-85 | the cursor loop yields `SplitByChar` |
| Strings.FieldsJoin | src/strings.cpp:58-85 | the raw fields joined with the delimiter give the input back |
| Strings.FieldsAvoidDelimiter | src/strings.cpp:58-85 | no field contains the delimiter |
| Strings.FieldsCount | src/strings.cpp:58-85 | one field more than there are delimiters |
| Strings.SplitByCharShape | src/strings.cpp:58-85 | no tokens for empty input; otherwise `count(delimiter) + 1` trimmed tokens; with `ignoreEmpty`, no token is empty |
| Strings.FindSub | src/strings.cpp:104 | the first occurrence at or after `from`, or none |
| Strings.PiecesJoin | src/strings.cpp:87-122 | the pieces joined with the separator give the input back |
| Strings.PiecesAvoidSeparator | src/strings.cpp:87-122 | no piece contains the separator |
| Strings.SplitString | src/strings.cpp:87-122 | the find loop yields `SplitByString` |
| Strings.SplitByStringShape | src/strings.cpp:87-122 | an empty delimiter gives the whole input; otherwise interior pieces are trimmed, the last is kept as it is, and the raw pieces join back to the input |
| Strings.ReplaceIsSplitJoin | src/strings.cpp:187-197 | replacing is splitting at the occurrences and joining with the replacement |
| Strings.ReplaceIdentities | src/strings.cpp:187-197 | replacing a pattern by itself changes nothing, and neither does replacing a pattern that does not occur |
| Strings.ReplaceRange | src/strings.cpp:193 | `std::string::replace`: the prefix, the insertion, then the text after the replaced range |
| Strings.ReplaceAllInPlace | src/strings.cpp:187-197 | the in-place loop yields `ReplaceAll` of the original text |
| Strings.ReplaceAllGuarded | src/strings.cpp:187-197 | corrected `replace_all`: ends for every input, replaces every occurrence of a non-empty `from`, leaves the text alone for an empty one |
| Strings.ReplaceTurn | src/strings.cpp:192-195 | one turn of the loop as written: it stops exactly when `find` fails, and the text changes length by `to_size - from_size` |
| Strings.ReplaceEmptyNeverStops | src/strings.cpp:192-195 | with an empty `from` the loop as written makes every number of turns, so it never ends |
| Strings.ReplaceNoRescan | src/strings.cpp:192-195 | replacement text is never rescanned: "aa" with "a" replaced by "ba" gives "baba" |
| Strings.LexTotal | src/strings.cpp:124-129 | the string order is total |
| Strings.LexTransitive | src/strings.cpp:124-129 | the string order is transitive |
| Strings.AscendingUnique | src/strings.cpp:124-129 | two strictly ascending sequences with the same elements are equal, so `Unique`'s contract determines its result |
| Strings.InsertAscending | src/strings.cpp:124-129 | inserting keeps the sequence strictly ascending and adds exactly the new element |
| Strings.Unique | src/strings.cpp:124-129 | the result is sorted without duplicates and holds exactly the elements of the input |
| Strings.Hex | src/strings.cpp:141-154 | the output has two digits per byte |
| Strings.BytesToHex | src/strings.cpp:141-154 | the loop yields `Hex` |
| Strings.HexUsesCase | src/strings.cpp:141-154 | every output character is a decimal digit or a letter a-f of the chosen case |
| Strings.HexValue | src/strings.cpp:172-178 | every hex digit has a value below 16 |
| Strings.HexToBytes | src/strings.cpp:156-185 | odd length throws first, then any non-hex character; otherwise two digits per byte, high digit first |
| Strings.HexRoundTrip | src/strings.cpp:141-185 | `hexToBytes` inverts `bytesToHex`, in either case |
| Strings.HexDecodeEncode | src/strings.cpp:141-185 | decoding and re-encoding in upper case gives the input with its letters upper-cased |
| Strings.StartsWith | src/strings.cpp:422-435 | the loop yields `StartsWithAny`, which is false for an empty string or an empty list |
| Strings.EndsWith | src/strings.cpp:437-450 | the loop yields `EndsWithAny`, which is false for an empty string or an empty list |
| Strings.EmptyPatternMatches | src/strings.cpp:422-450 | an empty pattern in the list matches every non-empty string |
| Strings.PrefixSuffixDual | src/strings.cpp:422-450 | a prefix matches exactly when reversing both strings makes it a suffix |
| Strings.MatchExamples | tests/test_go_strings_port.cpp:95-104 | the matching examples of the test suite |
| StringCase.StringIter | src/strings.cpp:235-259 | the recorded callbacks are `IterCalls` |
| StringCase.IterCallsPlain | src/strings.cpp:235-259 | without NUL, one callback per character, in order, with the character before it as `prev` and the one two positions on as `next` |
| StringCase.IterCallsFirst | src/strings.cpp:235-259 | the first callback is for the first character, with NUL as `prev` |
| StringCase.CamelEmit | src/strings.cpp:315-326 | the callback appends nothing for a delimiter and one non-delimiter otherwise |
| StringCase.CamelCaseImpl | src/strings.cpp:308-328 | the callback run yields `CamelCase` |
| StringCase.CamelCaseShape | src/strings.cpp:308-328 | camel case removes every delimiter and never lengthens the trimmed input |
| StringCase.CamelCaseFirst | src/strings.cpp:308-328 | a trimmed input starting with a word character starts the output, upper-cased for upper camel case and lower-cased for lower |
| StringCase.UpperCamelExample | tests/test_go_strings_port.cpp:56 | `upper_camel_case("hello_world") == "HelloWorld"` |
| StringCase.LowerCamelExample | tests/test_go_strings_port.cpp:59 | `lower_camel_case("HELLO-WORLD") == "helloWorld"` |
| StringCase.Adjust | src/strings.cpp:337 | the result is in the requested case and is a non-delimiter when the input is |
| StringCase.DelimiterCaseImpl | src/strings.cpp:330-370 | the loop and the code after it yield `DelimiterCase` |
| StringCase.DelimiterCaseSeparated | src/strings.cpp:330-370 | the output never doubles the delimiter and never starts with it |
| StringCase.DelimiterCaseClean | src/strings.cpp:330-370 | the output holds only the delimiter and non-delimiters of the requested case |
| StringCase.SnakeExample | tests/test_go_strings_port.cpp:70 | `snake_case("XMLHttpRequest") == "xml_http_request"` |
| StringCase.UpperSnakeExample | tests/test_go_strings_port.cpp:73 | `upper_snake_case("helloWorld") == "HELLO_WORLD"` |
| StringCase.KebabExample | tests/test_go_strings_port.cpp:83 | `kebab_case("Hello World") == "hello-world"` |
| StringCase.ToCamelCase | src/strings.cpp:374-393 | the loop yields `ToCamel` |
| StringCase.ToCamelPlain | src/strings.cpp:374-393 | an input without '-' or '_' comes back unchanged |
| StringCase.ToCamelDropsSeparators | src/strings.cpp:374-393 | without two separators in a row, every '-' and '_' is dropped |
| StringCase.ToCamelWord | src/strings.cpp:374-393 | a separator followed by a word gives the word capitalised |
| StringCase.ToCamelExample | tests/test_go_strings_port.cpp:51 | `to_camel_case("hello_world") == "helloWorld"` |
| StringsH.From | src/strings.h:14-17 | the characters before the first NUL within `len`: a NUL-free prefix, cut only at a NUL |
| StringsH.FromTerminated | src/strings.h:14-29 | a NUL-free text followed by a terminator comes back unchanged |
| StringsH.JoinString | src/strings.h:60-82 | the tokens in order separated by the delimiter; "" for no tokens; the length is the token lengths plus `|delimiter| * (n - 1)` |
| StringsH.JoinChar | src/strings.h:110-133 | the same with a character delimiter: the length is the token lengths plus `n - 1` |
| StringsH.SplitJoinRoundTrip | src/strings.h:110-133 | splitting a join of delimiter-free tokens gives the tokens back |
| StringsH.CaseByte | src/strings.h:220-262 | a converted byte is the character-level `to_lower`/`to_upper` of it |
| StringsH.BranchlessLower | src/strings.h:220-229 | the mask step sets bit 0x20 exactly on 'A'..'Z' |
| StringsH.BranchlessUpper | src/strings.h:231-240 | the mask step clears bit 0x20 exactly on 'a'..'z' |
| StringsH.BranchyCase | src/strings.h:243-262 | the branching steps compute the same byte as the branchless ones |
| StringsH.CaseUpToNulBits | src/strings.h:220-240 | only bit 0x20 of letters of the other case before the first NUL changes; every other byte is left |
| StringsH.StrToLcBranchless | src/strings.h:220-229 | the buffer becomes its contents lower-cased up to the first NUL; null comes back as null |
| StringsH.StrToUcBranchless | src/strings.h:231-240 | the buffer becomes its contents upper-cased up to the first NUL; null comes back as null |
| StringsH.StrToLc | src/strings.h:243-251 | the same effect as the branchless lower-case form |
| StringsH.StrToUc | src/strings.h:254-262 | the same effect as the branchless upper-case form |
| StringsH.ToLowerText | src/strings.h:286-292 | a copy converted through its `data()` buffer: lower-cased up to an embedded NUL, full length kept |
| StringsH.ToUpperText | src/strings.h:294-300 | a copy converted through its `data()` buffer: upper-cased up to an embedded NUL, full length kept |
| StringsH.CaseWithoutNul | src/strings.h:286-300 | without an embedded NUL every byte is converted |
| StringsH.CaseIdempotent | src/strings.h:220-262 | converting twice is converting once |
| StringsH.StartsWith | src/strings.h:325-332 | true exactly when some listed prefix matches |
| StringsH.EndsWith | src/strings.h:350-357 | true exactly when some listed suffix matches |
| StringsH.MatchersAgree | src/strings.h:325-357 | the header's matchers agree with `starts_with`/`ends_with` except on the empty string, which they match exactly when the list holds an empty pattern |
| StringsH.RemoveQuotes | src/strings.h:360-366 | trims, then strips one surrounding pair of `"` exactly when the trimmed text is quoted |
| StringsH.QuoteRoundTrip | src/strings.h:360-366 | quoting any text and removing the quotes gives the text back |
| StringsH.RemoveQuotesIgnoresTrim | src/strings.h:360-366 | surrounding whitespace makes no difference |
| StringsH.LowerThroughBuffer | src/strings.h:414-424 | lower-casing through the C buffer and reading it back as a C string is lower-casing the text before its first NUL |
| StringsH.TryParseBool | src/strings.h:414-434 | the keyword decision `ParseBool`: quotes removed, cut at NUL, lower-cased, against true/yes/on/1 and false/no/off/0; otherwise the text the numeric fallback reads, which is the quote-free text after its buffer was lowered in place |
| StringsH.LoweredInPlace | src/strings.h:415-416 | after `strtolc_inplace_branchless(processed.data())`, `processed` is lowered before its first NUL and unchanged from there on, at its full length |
| StringsH.ParseFallbackLowered | src/strings.h:416-426 | `"1X"` in quotes reaches the numeric fallback as `1x`, since the stream is built from the lowered `processed` |
| StringsH.BoolTextRoundTrip | src/strings.h:478-481 | `try_parse<bool>` reads back what `to_string<bool>` writes |
| StringsH.ParseQuotedUpper | src/strings.h:414-424 | keywords match without regard to case and inside quotes |
| StringsH.ParsePadded | src/strings.h:414-424 | surrounding whitespace is trimmed away before the comparison |
| StringsH.ParseNumeric | src/strings.h:426-433 | a non-keyword goes to the numeric fallback |
| ExchangeTimestamp.AddClock | src/timestamp.cpp:113-120 | the accumulated offset is exactly `h*3600000 + m*60000 + s*1000 + x` |
| ExchangeTimestamp.StartOfDay | src/timestamp.cpp:103-105 | a multiple of a day; for `ms >= 0` at most `ms` and within a day of it; for negative `ms` rounded up toward zero |
| ExchangeTimestamp.Today | src/timestamp.cpp:113-120 | start of day plus the clock offset; a clock time inside one day stays on the same date |
| ExchangeTimestamp.Since | src/timestamp.cpp:122-129 | the same as `today` |
| ExchangeTimestamp.Offset | src/timestamp.cpp:131-139 | the timestamp moves by exactly the summed milliseconds |
| ExchangeTimestamp.PreMarketTime | src/timestamp.cpp:143-145 | `since(9, 0, 0, 0)`: nine hours after the start of day, on the same date |
| ExchangeTimestamp.Floor | src/timestamp.cpp:148-154 | a whole minute; for `ms >= 0` at most `ms` and within a minute of it |
| ExchangeTimestamp.Ceil | src/timestamp.cpp:157-164 | floor plus 59999, at least `ms` when `ms >= 0` |
| ExchangeTimestamp.FloorCeilBracket | src/timestamp.cpp:148-164 | for `ms >= 0`, floor <= ms <= ceil, they differ by 59999, and ceil lies in the same minute |
| ExchangeTimestamp.Empty | src/timestamp.cpp:230-232 | empty exactly when the count is 0 |
| ExchangeTimestamp.IsSameDate | src/timestamp.cpp:235-239 | exactly when the truncated day numbers are equal |
| ExchangeTimestamp.IsSameDateIsEquivalence | src/timestamp.cpp:235-239 | reflexive, symmetric and transitive; on non-negative counts, the same as sharing the start of day |
| ExchangeTimestamp.ComparisonsAreTotalOrder | src/timestamp.cpp:246-268 | the six operators are the integer order on the count: exactly one of <, ==, > holds |
| ApiTimestamp.SinceZero | api/timestamp.go:95-101 | in [0, day) for every `int64`, and congruent to the count modulo a day |
| ApiTimestamp.ZeroHour | api/timestamp.go:104-108 | without wrap-around, a multiple of a day with `ZeroHour(m) <= m < ZeroHour(m) + day` |
| ApiTimestamp.ZeroHourIdempotent | api/timestamp.go:104-108 | without wrap-around, applying it twice is applying it once |
| ApiTimestamp.ZeroHourWrapsAtMinimum | api/timestamp.go:104-108 | at the most negative `int64` the subtraction wraps to a large positive count |
| ApiTimestamp.StartOfDay | api/timestamp.go:167-169 | truncating: a multiple of a day, below the count for `ms >= 0` and above it for negative counts |
| ApiTimestamp.StartOfDayVersusZeroHour | api/timestamp.go:95-169 | equal to `ZeroHour` for `ms >= 0`, and a whole day above it for a negative count that is not a whole number of days |
| ApiTimestamp.AddClock | api/timestamp.go:178-185 | the wrapped sum of the base and the clock offset |
| ApiTimestamp.Today | api/timestamp.go:178-185 | start of day plus the clock offset, wrapped; exact when in range |
| ApiTimestamp.Since | api/timestamp.go:188-190 | the same as `Today` |
| ApiTimestamp.Offset | api/timestamp.go:193-200 | moved by exactly the summed milliseconds when in range, wrapped otherwise |
| ApiTimestamp.PreMarketTime | api/timestamp.go:203-205 | `Since(9, 0, 0, 0)`, nine hours after the start of day when in range |
| ApiTimestamp.OffsetTwoHoursThirty | api/timestamp_test.go:88-96 | `Offset(2, 30, 0, 0)` moves by exactly 2h30m |
| ApiTimestamp.Floor | api/timestamp.go:208-212 | a whole minute; for `ms >= 0` at most `ms` and within a minute of it |
| ApiTimestamp.Ceil | api/timestamp.go:215-219 | floor plus 59999, wrapped; when that sum is in range, the two differ by exactly 59999 and bracket any `ms >= 0` |
| ApiTimestamp.IsEmpty | api/timestamp.go:283-285 | empty exactly when the count is 0 |
| ApiTimestamp.IsSameDate | api/timestamp.go:288-292 | exactly when the truncated day numbers are equal |
| ApiTimestamp.IsSameDateIsEquivalence | api/timestamp.go:288-292 | reflexive, symmetric and transitive |
| ApiTimestamp.ComparisonsMatchIntegerOrder | api/timestamp.go:358-385 | the comparison methods are the integer order on the count |
| ApiTimestamp.AsFromTimestampRoundTrip | api/timestamp.go:399-406 | converting to `int64` and back is the identity, both ways round |
| BackupTimestamp.Floor | src/timestamp_backup.cpp:155-157 | a whole second toward zero; for `ms >= 0` at most `ms` and within a second of it |
| BackupTimestamp.Ceil | src/timestamp_backup.cpp:159-162 | a whole second; for `ms >= 0` at least `ms` and less than a second above it |
| BackupTimestamp.CeilOvershootsNegative | src/timestamp_backup.cpp:159-162 | -1000 and -1500 are both moved to 0 |
| BackupTimestamp.CeilToSecond | src/timestamp_backup.cpp:159-162 | the least whole second at or above the count, for every count; equal to `ceil` when `ms >= 0` |
| BackupTimestamp.Offset | src/timestamp_backup.cpp:130-136 | moved by exactly the summed milliseconds |
| BackupTimestamp.Parse | src/timestamp_backup.cpp:66-90 | the empty-string error exactly for "", success exactly for the date layout, the date-time branch exactly for the date-time layout, and the format error otherwise |
| BackupTimestamp.ParseTime | src/timestamp_backup.cpp:92-106 | success exactly when the length is at least 8 with ':' at 2 and 5, the format error otherwise |
| BackupTimestamp.ParseRejectsInvalidDate | tests/test_timestamp.cpp:125 | "invalid-date" is rejected |
| BackupTimestamp.Pad | src/timestamp_backup.cpp:174-180 | `setw` with fill '0': digits only, at least the width long |
| BackupTimestamp.ToString | src/timestamp_backup.cpp:165-183 | "1970-01-01 00:00:00" for the empty timestamp, otherwise the date, a space and the time |
| BackupTimestamp.EmptyRendersEpoch | src/timestamp_backup.cpp:165-226 | in all four renderings the empty timestamp prints what a timestamp at local time 1970-01-01 00:00:00 would |
| BackupTimestamp.RenderingsAgree | src/timestamp_backup.cpp:165-238 | the date-time text is date, space and time, and the compact date is the date without its dashes |
| BackupTimestamp.FieldWidths | src/timestamp_backup.cpp:174-180 | fields that fit their layout print at exactly their widths |
| BackupTimestamp.ParseInvertsToString | src/timestamp_backup.cpp:66-183 | `parse` cuts back out the fields `toString` prints |
| BackupTimestamp.ParseInvertsOnlyDate | src/timestamp_backup.cpp:66-204 | `parse` cuts back out the fields `only_date` prints |
| BackupTimestamp.ParseTimeInvertsOnlyTime | src/timestamp_backup.cpp:92-221 | `parse_time` cuts back out the fields `only_time` prints |

## Left out

- Operating-system calls in src/affinity.cpp are not modelled: the `sysconf` probe, the thread-affinity calls, NUMA discovery on Windows, Linux and macOS, `get_mempolicy`/`sched_getcpu`, and the memory-policy query behind a memory hint. The CPU count, the topology, the platform call's outcome and the hint's node are inputs.
- Atomics and memory ordering are not modelled. Every counter is a sequential 32-bit unsigned value.
- `NumaAwareAllocator` memory placement is not modelled: its implementation is not among the files modelled.
- AffinityPolicy.LeastLoaded: like `LeastLoadedNode`, `AllocateIsolatedCpu` and `GetAllocationStats`, it requires the node counters to exist when they are read. The source would dereference a null array on an allocator whose construction failed.
- Floating point is not modelled: `push_float`/`push_double`, `get_float`/`get_double`, and the float `toString` overloads.
- `push_array`/`get_array` (src/buffer.h:140-152, 176-188) are not modelled separately: they are loops of `push_arithmetic`/`get_arithmetic`.
- The `position()` and `data()` accessors of src/buffer.h are plain field reads and are left out.
- Buffer.BinaryStream.CheckAvailable: the cursor arithmetic is unbounded, so `offset + required` does not wrap modulo 2^64 as the `size_t` sum at src/buffer.h:47 does. After a seek near 2^64 the source's check can pass and the reads that follow go out of bounds; the model reports `out_of_range` there instead.
- Buffer.BinaryStream.Skip: the cursor is a `nat`, so `offset += skip_offset` (src/buffer.h:253) is not wrapped modulo 2^64 as the `size_t` addition is. Push and read operations likewise move the cursor without wrapping.
- Buffer.BinaryStream.VarintDecode: requires a terminated varint of at most ten bytes at a cursor below 2^31 - 10. The source checks no bounds, steps its cursor through an `int*` that aliases the `size_t` offset, and shifts past 63 bits on longer input.
- ExchangeTimestamp.AddClock: C++ signed overflow is undefined, so `today`, `since`, `offset` and `ceil` require that no intermediate sum leaves the `int64_t` range. BackupTimestamp.Ceil and BackupTimestamp.Offset require the same.
- Clock, time-zone and calendar calls are not modelled: `current`, `now`, `midnight`, `extract`, `toString` and `only_date` of src/timestamp.cpp, and the y/m/d constructor. Also left out: the `localtime`/`mktime`-based `start_of_day`, `today`, `since`, `pre_market_time` (09:25 there) and `extract` of src/timestamp_backup.cpp.
- The broken-down local time the backup renderings print is a parameter, and `std::setw` output is modelled only for non-negative fields.
- BackupTimestamp.Parse: returns the digit fields it would hand to `std::stoi`, whose conversion and range checks are not modelled. Its contract therefore covers the layout checks and the errors, not the time value.
- The generic conversions built on `istringstream` are not modelled: numeric `try_parse`, `from_string`, the `to_string` templates and `to_hex_string`. The numeric fallback of `try_parse<bool>` is returned as `NumericFallback` with the text the stream would read: the quote-free text after the in-place lowering of src/strings.h:416, which lowers it only up to an embedded NUL. Whether `iss >> num` then succeeds is not modelled.
- The `string_view` overloads of `join` and `trim_view` are the same as the modelled `std::string` forms and are not repeated.
- `v1_is_whitespace`/`v2_is_whitespace` (mask variants, not called by the core) and the integer `toString` overloads of src/strings.cpp are left out.
- A C++ `char` is a Dafny `char`. Where the source applies bit operations or copies text into a `char` buffer (`strtolc`, `try_parse<bool>`), the text is required to be byte-valued.
- Strings.Unique: the source sorts in place and erases duplicates. The model builds the result by sorted insertion on values, and the contract (strictly ascending, same elements) determines it, by `AscendingUnique`. In-place aliasing is not modelled.
- Strings.ReplaceAllInPlace: requires `from` to be non-empty, because the source loops forever otherwise (see "## Findings"). The corrected Strings.ReplaceAllGuarded covers every input.
- StringCase.StringIter: the `next` argument of a callback in the loop is the character two positions on, not one. `camel_case_impl` ignores that argument, so no case converter is affected.
- The Go packages other than api/timestamp.go, and all other files outside the core, are not part of this model.

## Findings

| source | as written | input that shows it | evidently intended | confidence | as-written member | corrected member |
|---|---|---|---|---|---|---|
| src/strings.cpp:192-195 | `pos = str.find(from, pos)` then `pos += to_size`, with no check that `from` is non-empty | `replace_all("ab", "", "x")`: the empty `from` is found at `pos` every time, so the loop never ends | an empty `from` leaves the text unchanged and the call returns | not executed | Strings.ReplaceEmptyNeverStops | Strings.ReplaceAllGuarded |
| src/timestamp_backup.cpp:159-162 | `((ms + 999) / 1000) * 1000` with C++ truncating division | ms = -1000, already a whole second, becomes 0; ms = -1500 also becomes 0 instead of -1000 | the least multiple of 1000 at or above `ms` | not executed | BackupTimestamp.CeilOvershootsNegative | BackupTimestamp.CeilToSecond |
