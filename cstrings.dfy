/** C string conventions shared by src/buffer.h and src/strings.h. */
module CStrings {
  /** `strnlen` over a window: the number of elements before the first
      terminator, or the whole window when it holds none. */
  function StrNLen<T(==)>(s: seq<T>, nul: T): (n: nat)
    ensures n <= |s|
    ensures forall i :: 0 <= i < n ==> s[i] != nul
    ensures n < |s| ==> s[n] == nul
  {
    if s == [] || s[0] == nul then 0 else 1 + StrNLen(s[1..], nul)
  }

  /** The characters a C string holds within a window of `len`. */
  function UpToNul<T(==)>(s: seq<T>, nul: T): (r: seq<T>)
    ensures r <= s && nul !in r
    ensures |r| < |s| ==> s[|r|] == nul
  {
    s[..StrNLen(s, nul)]
  }
}
