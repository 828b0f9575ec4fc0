/** Byte strings and the order of Go's `bytes.Compare`. */
module Bytes {

  /** A Go `byte`: an unsigned 8-bit value. */
  newtype byte = b: int | 0 <= b < 256

  /** `bytes.Compare(a, b)`: -1, 0 or +1 as `a` sorts before, equal to or after `b`.
      The order is lexicographic on the bytes, and a proper prefix sorts first. */
  function Compare(a: seq<byte>, b: seq<byte>): (r: int)
    ensures -1 <= r <= 1
    ensures r == 0 <==> a == b
    decreases |a|
  {
    if |a| == 0 then (if |b| == 0 then 0 else -1)
    else if |b| == 0 then 1
    else if a[0] < b[0] then -1
    else if a[0] > b[0] then 1
    else
      assert a == [a[0]] + a[1..] && b == [b[0]] + b[1..];
      Compare(a[1..], b[1..])
  }

  /** `a` and `b` agree on their first `i` bytes, and position `i` decides that `a` comes
      first: either `a` ends there while `b` goes on, or `a`'s byte there is smaller. */
  ghost predicate DecidedAt(a: seq<byte>, b: seq<byte>, i: nat)
  {
    && i <= |a| && i <= |b|
    && a[..i] == b[..i]
    && ((i == |a| && i < |b|) || (i < |a| && i < |b| && a[i] < b[i]))
  }

  /** Lexicographic "strictly before", stated without recursion. */
  ghost predicate LexLess(a: seq<byte>, b: seq<byte>)
  {
    exists i: nat :: DecidedAt(a, b, i)
  }

  /** `Compare` answers -1 exactly for the pairs that are lexicographically ordered. */
  lemma {:induction false} CompareLessIsLexLess(a: seq<byte>, b: seq<byte>)
    ensures Compare(a, b) == -1 <==> LexLess(a, b)
    decreases |a|
  {
    if |a| == 0 || |b| == 0 {
      if |a| == 0 && |b| > 0 {
        assert DecidedAt(a, b, 0);
      }
    } else if a[0] < b[0] {
      assert DecidedAt(a, b, 0);
    } else if a[0] == b[0] {
      CompareLessIsLexLess(a[1..], b[1..]);
      if LexLess(a[1..], b[1..]) {
        var i: nat :| DecidedAt(a[1..], b[1..], i);
        assert a[..i + 1] == [a[0]] + a[1..][..i];
        assert b[..i + 1] == [b[0]] + b[1..][..i];
        assert DecidedAt(a, b, i + 1);
      }
      if LexLess(a, b) {
        var i: nat :| DecidedAt(a, b, i);
        assert i > 0;
        assert a[1..][..i - 1] == a[..i][1..];
        assert b[1..][..i - 1] == b[..i][1..];
        assert DecidedAt(a[1..], b[1..], i - 1);
      }
    }
  }

  /** Swapping the arguments negates the answer. */
  lemma {:induction false} CompareAntisymmetric(a: seq<byte>, b: seq<byte>)
    ensures Compare(b, a) == -Compare(a, b)
    decreases |a|
  {
    if |a| > 0 && |b| > 0 && a[0] == b[0] {
      CompareAntisymmetric(a[1..], b[1..]);
    }
  }

  /** A proper prefix sorts before the longer string. */
  lemma {:induction false} ComparePrefix(a: seq<byte>, b: seq<byte>)
    requires |a| < |b| && a == b[..|a|]
    ensures Compare(a, b) == -1
    decreases |a|
  {
    if |a| > 0 {
      assert a[0] == b[..|a|][0];
      assert a[1..] == b[1..][..|a| - 1];
      ComparePrefix(a[1..], b[1..]);
    }
  }

  /** When the first `|a|` bytes of a longer `b` differ from `a`, the bytes of `b` beyond
      `|a|` do not matter. */
  lemma {:induction false} CompareBeyondLength(a: seq<byte>, b: seq<byte>)
    requires |a| <= |b| && a != b[..|a|]
    ensures Compare(a, b) == Compare(a, b[..|a|])
    decreases |a|
  {
    if |a| > 0 && a[0] == b[0] {
      assert a == [a[0]] + a[1..];
      assert b[..|a|] == [b[0]] + b[1..][..|a| - 1];
      CompareBeyondLength(a[1..], b[1..]);
      assert b[..|a|][1..] == b[1..][..|a| - 1];
    }
  }

  /** `n` zero bytes. */
  function Zeros(n: nat): (z: seq<byte>)
    ensures |z| == n
    ensures forall k :: 0 <= k < n ==> z[k] == 0
  {
    if n == 0 then [] else [0] + Zeros(n - 1)
  }

  /** The all-zero string sorts first among strings of its length. */
  lemma {:induction false} ZerosSortFirst(a: seq<byte>)
    requires a != Zeros(|a|)
    ensures Compare(a, Zeros(|a|)) == 1
    decreases |a|
  {
    var z := Zeros(|a|);
    if a[0] == 0 {
      assert z[1..] == Zeros(|a| - 1);
      assert a == [a[0]] + a[1..] && z == [z[0]] + z[1..];
      ZerosSortFirst(a[1..]);
    }
  }

  /** On 4-byte strings `Compare` is decided by the first octet that differs. */
  lemma Compare4(a: seq<byte>, b: seq<byte>)
    requires |a| == 4 && |b| == 4
    ensures Compare(a, b) ==
      if a[0] != b[0] then (if a[0] < b[0] then -1 else 1)
      else if a[1] != b[1] then (if a[1] < b[1] then -1 else 1)
      else if a[2] != b[2] then (if a[2] < b[2] then -1 else 1)
      else if a[3] != b[3] then (if a[3] < b[3] then -1 else 1)
      else 0
  {
    var a1, b1 := a[1..], b[1..];
    var a2, b2 := a1[1..], b1[1..];
    var a3, b3 := a2[1..], b2[1..];
    assert a3[1..] == [] && b3[1..] == [];
    assert Compare(a3, b3) == if a[3] != b[3] then (if a[3] < b[3] then -1 else 1) else 0;
    assert Compare(a2, b2) ==
      if a[2] != b[2] then (if a[2] < b[2] then -1 else 1) else Compare(a3, b3);
    assert Compare(a1, b1) ==
      if a[1] != b[1] then (if a[1] < b[1] then -1 else 1) else Compare(a2, b2);
  }
}
