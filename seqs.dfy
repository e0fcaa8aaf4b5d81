/** Sequence vocabulary shared by the string utilities of src/strings.cpp and src/strings.h. */
module Seqs {

  /** The tokens of `parts` in order with `sep` between neighbours: what `join`
      builds, and what a split undoes. */
  function Join<T>(parts: seq<seq<T>>, sep: seq<T>): seq<T>
    decreases |parts|
  {
    if |parts| == 0 then []
    else if |parts| == 1 then parts[0]
    else parts[0] + sep + Join(parts[1..], sep)
  }

  /** The sum of the lengths of `parts`. */
  function TotalLength<T>(parts: seq<seq<T>>): nat
    decreases |parts|
  {
    if |parts| == 0 then 0 else |parts[0]| + TotalLength(parts[1..])
  }

  lemma {:induction false} TotalLengthSnoc<T>(parts: seq<seq<T>>, p: seq<T>)
    ensures TotalLength(parts + [p]) == TotalLength(parts) + |p|
    decreases |parts|
  {
    if |parts| > 0 {
      assert (parts + [p])[1..] == parts[1..] + [p];
      TotalLengthSnoc(parts[1..], p);
    }
  }

  /** Appending one more token appends the separator and the token. */
  lemma {:induction false} JoinSnoc<T>(parts: seq<seq<T>>, p: seq<T>, sep: seq<T>)
    requires |parts| > 0
    ensures Join(parts + [p], sep) == Join(parts, sep) + sep + p
    decreases |parts|
  {
    if |parts| == 1 {
      assert parts + [p] == [parts[0], p];
      assert [parts[0], p][1..] == [p];
    } else {
      assert (parts + [p])[0] == parts[0];
      assert (parts + [p])[1..] == parts[1..] + [p];
      JoinSnoc(parts[1..], p, sep);
    }
  }

  /** A join that starts with `a`. */
  lemma {:induction false} JoinCons<T>(a: seq<T>, rest: seq<seq<T>>, sep: seq<T>)
    requires |rest| > 0
    ensures Join([a] + rest, sep) == a + sep + Join(rest, sep)
  {
    assert ([a] + rest)[1..] == rest;
  }

  /** The length of a join: every token plus one separator between each pair of neighbours. */
  lemma {:induction false} JoinLength<T>(parts: seq<seq<T>>, sep: seq<T>)
    ensures |Join(parts, sep)| == TotalLength(parts) + (if |parts| == 0 then 0 else |sep| * (|parts| - 1))
    decreases |parts|
  {
    if |parts| == 1 {
      assert parts[1..] == [];
    } else if |parts| > 1 {
      JoinLength(parts[1..], sep);
    }
  }

  /** The front of a three-part concatenation. */
  lemma {:induction false} TakeSplice<T>(a: seq<T>, b: seq<T>, c: seq<T>)
    ensures (a + b + c)[..|a| + |b|] == a + b
  {
  }

  /** The back of a three-part concatenation. */
  lemma {:induction false} DropSplice<T>(a: seq<T>, b: seq<T>, c: seq<T>)
    ensures (a + b + c)[|a| + |b|..] == c
  {
  }

  /** A prefix splits at any point inside it. */
  lemma {:induction false} TakeSplit<T>(s: seq<T>, i: nat, j: nat)
    requires i <= j <= |s|
    ensures s[..j] == s[..i] + s[i..j]
  {
  }

  /** A suffix cut in three around the piece at `k`. */
  lemma {:induction false} Around<T>(s: seq<T>, from: nat, k: nat, n: nat)
    requires from <= k && k + n <= |s|
    ensures s[from..] == s[from..k] + s[k..k + n] + s[k + n..]
  {
  }

  /** Two sequences that agree from `i` and from `j` on agree on matching pieces. */
  lemma {:induction false} AgreeFrom<T>(a: seq<T>, b: seq<T>, i: nat, j: nat, x: nat, y: nat)
    requires i <= x <= |a| && j <= y <= |b| && x - i == y - j && a[i..] == b[j..]
    ensures a[i..x] == b[j..y] && a[x..] == b[y..]
  {
    assert a[i..x] == a[i..][..x - i];
    assert b[j..y] == b[j..][..y - j];
    assert a[x..] == a[i..][x - i..];
    assert b[y..] == b[j..][y - j..];
  }
}
