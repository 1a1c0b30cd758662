/**
 Notions that several parts share: options, bytes, C strings and little-endian numbers, and sequences without
 repetition.
 */
module Basics {

  datatype Option<+T> = None | Some(value: T)

  type Byte = b: int | 0 <= b < 256
  type Bytes = seq<Byte>

  // ---------------------------------------------------------------- C strings

  /** The bytes up to the first zero. */
  function CString(s: Bytes): (r: Bytes)
    ensures |r| <= |s| && 0 !in r
  {
    if s == [] || s[0] == 0 then [] else [s[0]] + CString(s[1..])
  }

  lemma {:induction false} CStringIs(name: Bytes, rest: Bytes)
    requires 0 !in name
    ensures CString(name + [0] + rest) == name
  {
    if name != [] {
      assert (name + [0] + rest)[1..] == name[1..] + [0] + rest;
      CStringIs(name[1..], rest);
    }
  }

  // ---------------------------------------------------------------- little-endian numbers

  const U64 := 0x1_0000_0000_0000_0000

  /** The n low bytes of w, lowest first. */
  function Le(w: nat, n: nat): (s: Bytes)
    ensures |s| == n
  {
    if n == 0 then [] else [w % 256] + Le(w / 256, n - 1)
  }

  function FromLe(s: Bytes): nat
  {
    if s == [] then 0 else s[0] + 256 * FromLe(s[1..])
  }

  function Pow256(n: nat): nat { if n == 0 then 1 else 256 * Pow256(n - 1) }

  lemma {:induction false} LeRoundTrip(w: nat, n: nat)
    requires w < Pow256(n)
    ensures FromLe(Le(w, n)) == w
    decreases n
  {
    if n > 0 {
      assert Le(w, n)[1..] == Le(w / 256, n - 1);
      LeRoundTrip(w / 256, n - 1);
    }
  }

  lemma WordRoundTrip(w: nat)
    requires w < U64
    ensures FromLe(Le(w, 8)) == w
  {
    assert Pow256(4) == 0x1_0000_0000;
    assert Pow256(8) == 256 * 256 * 256 * 256 * Pow256(4);
    LeRoundTrip(w, 8);
  }

  // ---------------------------------------------------------------- distinct elements

  ghost predicate Distinct<T>(s: seq<T>)
  {
    forall i, j | 0 <= i < j < |s| :: s[i] != s[j]
  }

  /** Distinct numbers below n are at most n. */
  lemma {:induction false} Pigeonhole(s: seq<nat>, n: nat)
    requires Distinct(s) && forall i | 0 <= i < |s| :: s[i] < n
    ensures |s| <= n
    decreases n
  {
    if |s| > 0 {
      assert s[0] < n;
      if k :| 0 <= k < |s| && s[k] == n - 1 {
        Pigeonhole(s[..k] + s[k + 1..], n - 1);
      } else {
        Pigeonhole(s, n - 1);
      }
    }
  }

  /** A sequence that holds every number below n has at least n elements. */
  lemma {:induction false} Covering(s: seq<nat>, n: nat)
    requires forall i: nat | i < n :: i in s
    ensures |s| >= n
    decreases n
  {
    if n > 0 {
      assert (n - 1) in s;
      var k :| 0 <= k < |s| && s[k] == n - 1;
      var t := s[..k] + s[k + 1..];
      forall i: nat | i < n - 1
        ensures i in t
      {
        assert i in s;
        var j :| 0 <= j < |s| && s[j] == i;
        assert t[if j < k then j else j - 1] == i;
      }
      Covering(t, n - 1);
    }
  }
}
