/** Octets, fixed-size octet fields, and the byte order the key-value store sorts by. */
module Bytes {

  type byte = b: int | 0 <= b < 256

  function Zeros(n: nat): (z: seq<byte>)
    ensures |z| == n
    ensures forall i :: 0 <= i < n ==> z[i] == 0
  {
    seq(n, _ => 0)
  }

  /** A SHA-512 digest, a content key or an Ed25519 signature: DIGEST_LENGTH and SIGNATURE_LENGTH are both 64. */
  type Digest = d: seq<byte> | |d| == 64 witness Zeros(64)

  /** An Ed25519 public key. */
  type Key = k: seq<byte> | |k| == 32 witness Zeros(32)

  const ZERO: Digest := Zeros(64)

  datatype Option<+T> = None | Some(value: T)

  /** What a buffer holds after `memcpy(buf, data, |data|)`: the tail keeps its old bytes. */
  function Overlay(buf: seq<byte>, data: seq<byte>): (r: seq<byte>)
    requires |data| <= |buf|
    ensures |r| == |buf|
    ensures |data| == |buf| ==> r == data
  {
    data + buf[|data|..]
  }

  function Reversed(s: seq<byte>): (r: seq<byte>)
    ensures |r| == |s|
    ensures forall i :: 0 <= i < |s| ==> r[i] == s[|s| - 1 - i]
  {
    seq(|s|, i requires 0 <= i < |s| => s[|s| - 1 - i])
  }

  /** Strict lexicographic order on octet strings: `memcmp` on the common length, then the shorter first. */
  predicate Below(a: seq<byte>, b: seq<byte>) {
    b != [] && (a == [] || a[0] < b[0] || (a[0] == b[0] && Below(a[1..], b[1..])))
  }

  lemma {:induction false} BelowIsStrict(a: seq<byte>, b: seq<byte>)
    ensures Below(a, b) ==> a != b && !Below(b, a)
    ensures a != b ==> Below(a, b) || Below(b, a)
  {
    if a != [] && b != [] {
      BelowIsStrict(a[1..], b[1..]);
      assert a == [a[0]] + a[1..] && b == [b[0]] + b[1..];
    }
  }

  lemma {:induction false} BelowIsTransitive(a: seq<byte>, b: seq<byte>, c: seq<byte>)
    requires Below(a, b) && Below(b, c)
    ensures Below(a, c)
  {
    if a != [] && a[0] == b[0] && b[0] == c[0] {
      BelowIsTransitive(a[1..], b[1..], c[1..]);
    }
  }

  /** A common prefix does not matter. */
  lemma {:induction false} BelowAfterPrefix(p: seq<byte>, a: seq<byte>, b: seq<byte>)
    ensures Below(p + a, p + b) <==> Below(a, b)
  {
    if p == [] {
      assert p + a == a && p + b == b;
    } else {
      assert (p + a)[1..] == p[1..] + a && (p + b)[1..] == p[1..] + b;
      BelowAfterPrefix(p[1..], a, b);
    }
  }
}
