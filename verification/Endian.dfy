/** Byte-order and integer-width kernels of liblash (endian.c, strip.c). */
module Endian {
  import opened Bytes

  type int32 = i: int | -0x8000_0000 <= i < 0x8000_0000
  type uint32 = i: int | 0 <= i < 0x1_0000_0000

  /** C's conversion to `unsigned int`. */
  function U32(x: int): uint32 {
    x % 0x1_0000_0000
  }

  /** C's wrap-around `int` arithmetic: the 32-bit value congruent to `x`. */
  function Wrap32(x: int): (r: int32)
    ensures (x - r) % 0x1_0000_0000 == 0
    ensures -0x8000_0000 <= x < 0x8000_0000 ==> r == x
  {
    var u := U32(x);
    if u < 0x8000_0000 then u else u - 0x1_0000_0000
  }

  function Pow256(n: nat): (p: int)
    ensures p > 0
  {
    if n == 0 then 1 else 256 * Pow256(n - 1)
  }

  /** Unsigned value of a big-endian octet string. */
  function BE(s: seq<byte>): (v: nat) {
    if s == [] then 0 else 256 * BE(s[..|s| - 1]) + s[|s| - 1]
  }

  /** Two's complement value of a big-endian octet string (section 8.3.3 of X.690). */
  function Signed(s: seq<byte>): int {
    if s != [] && s[0] >= 128 then BE(s) - Pow256(|s|) else BE(s)
  }

  /** The four octets of a 32-bit word, most significant first. */
  function Word(u: uint32): (s: seq<byte>)
    ensures |s| == 4
  {
    [u / 0x100_0000, u / 0x1_0000 % 256, u / 0x100 % 256, u % 256]
  }

  /** How a host lays the word out in memory. */
  function Memory(littleEndian: bool, u: uint32): (s: seq<byte>)
    ensures |s| == 4
  {
    if littleEndian then Reversed(Word(u)) else Word(u)
  }

  lemma BEOfWord(u: uint32)
    ensures BE(Word(u)) == u
  {
    hide BE;
    BEOfFour(Word(u));
    WordDigits(u);
  }

  lemma WordDigits(u: uint32)
    ensures u == u / 0x100_0000 * 0x100_0000 + u / 0x1_0000 % 256 * 0x1_0000 + u / 0x100 % 256 * 0x100 + u % 256
  {
    var a := u / 0x100;
    var b := u / 0x1_0000;
    assert b == a / 256 && u / 0x100_0000 == b / 256;
  }

  lemma BEOfFour(s: seq<byte>)
    requires |s| == 4
    ensures BE(s) == s[0] as int * 0x100_0000 + s[1] as int * 0x1_0000 + s[2] as int * 0x100 + s[3]
  {
    var a, b, c := s[..3], s[..2], s[..1];
    assert a[..2] == b && b[..1] == c && c[..0] == [];
    assert BE(c) == s[0];
    assert BE(b) == 256 * BE(c) + s[1];
    assert BE(a) == 256 * BE(b) + s[2];
    assert BE(s) == 256 * BE(a) + s[3];
    hide BE;
  }

  /** The value split off at the front: the form an induction over `Below` needs. */
  lemma {:induction false} BEFront(s: seq<byte>)
    requires s != []
    ensures BE(s) == s[0] * Pow256(|s| - 1) + BE(s[1..])
    ensures BE(s) < Pow256(|s|)
  {
    var n := |s|;
    if n == 1 {
      assert s[..0] == [] && s[1..] == [];
    } else {
      var front, p := s[..n - 1], Pow256(n - 2);
      BEFront(front);
      assert front[1..] == s[1..][..n - 2];
      assert BE(s) == 256 * BE(front) + s[n - 1];
      assert BE(s[1..]) == 256 * BE(front[1..]) + s[n - 1];
      assert Pow256(n - 1) == 256 * p && Pow256(n) == 256 * Pow256(n - 1);
      hide BE, Pow256;
      Times256(s[0], p);
    }
  }

  lemma Times256(x: int, p: int)
    ensures x * (256 * p) == 256 * (x * p)
  {
  }

  /** Byte order is numeric order on strings of one length; in particular the value determines the string. */
  lemma {:induction false} OrderIsNumeric(a: seq<byte>, b: seq<byte>)
    requires |a| == |b|
    ensures Below(a, b) <==> BE(a) < BE(b)
    ensures BE(a) == BE(b) ==> a == b
  {
    if a != [] {
      BEFront(a);
      BEFront(b);
      OrderIsNumeric(a[1..], b[1..]);
      var p := Pow256(|a| - 1);
      if |a| == 1 {
        assert BE(a[1..]) == 0 && BE(b[1..]) == 0;
      } else {
        BEFront(a[1..]);
        BEFront(b[1..]);
      }
      if a[0] < b[0] {
        Scale(a[0], b[0], p);
      } else if b[0] < a[0] {
        Scale(b[0], a[0], p);
      } else {
        assert a == [a[0]] + a[1..] && b == [b[0]] + b[1..];
      }
    }
  }

  lemma {:induction false} Scale(x: int, y: int, p: int)
    requires x < y && p > 0
    ensures x * p + p <= y * p
    decreases y - x
  {
    assert (x + 1) * p == x * p + p;
    if x + 1 < y {
      Scale(x + 1, y, p);
    }
  }

  /** The time part of a record key: seconds then nanoseconds, each a big-endian 32-bit word (ledger.c:996-1009). */
  function KeyPart(sec: int, nsec: int): (k: seq<byte>)
    ensures |k| == 8
  {
    Word(U32(sec)) + Word(U32(nsec))
  }

  lemma KeyPartOfWords(sec: uint32, nsec: uint32)
    ensures KeyPart(sec, nsec) == Word(sec) + Word(nsec)
  {
    hide Word;
  }

  /** Records sort by byte order of the key, so this is what makes a scan chronological. */
  lemma KeyPartOrder(sec: int, nsec: int, sec': int, nsec': int)
    ensures Below(KeyPart(sec, nsec), KeyPart(sec', nsec'))
            <==> U32(sec) < U32(sec') || (U32(sec) == U32(sec') && U32(nsec) < U32(nsec'))
    ensures KeyPart(sec, nsec) == KeyPart(sec', nsec') <==> U32(sec) == U32(sec') && U32(nsec) == U32(nsec')
  {
    var a, b, a', b' := Word(U32(sec)), Word(U32(nsec)), Word(U32(sec')), Word(U32(nsec'));
    BEOfWord(U32(sec));
    BEOfWord(U32(nsec));
    BEOfWord(U32(sec'));
    BEOfWord(U32(nsec'));
    OrderIsNumeric(a, a');
    OrderIsNumeric(b, b');
    assert (a + b)[..4] == a && (a + b)[4..] == b && (a' + b')[..4] == a' && (a' + b')[4..] == b';
    if a == a' {
      BelowAfterPrefix(a, b, b');
    } else {
      BelowDecidedEarly(a, a', b, b');
    }
  }

  lemma {:induction false} BelowDecidedEarly(a: seq<byte>, a': seq<byte>, b: seq<byte>, b': seq<byte>)
    requires |a| == |a'| && a != a'
    ensures Below(a + b, a' + b') <==> Below(a, a')
  {
    assert (a + b)[1..] == a[1..] + b && (a' + b')[1..] == a'[1..] + b';
    if a[0] == a'[0] {
      assert a == [a[0]] + a[1..] && a' == [a'[0]] + a'[1..];
      BelowDecidedEarly(a[1..], a'[1..], b, b');
    }
  }

  // ---- endian.c

  /** The outer `i` pairs of the window are swapped, the rest is as it was. */
  ghost predicate Swapping(was: seq<byte>, now: seq<byte>, off: nat, l: nat, i: nat)
    requires off + l <= |was| == |now| && i <= l / 2
  {
    && (forall k :: off <= k < off + i ==> now[k] == was[2 * off + l - 1 - k])
    && (forall k :: off + l - i <= k < off + l ==> now[k] == was[2 * off + l - 1 - k])
    && forall k :: 0 <= k < off || off + i <= k < off + l - i || off + l <= k < |was| ==> now[k] == was[k]
  }

  /** In-place byte swap of the `l` bytes at `off` (endian.c:9-22). */
  method FlipEndian(l: nat, v: array<byte>, off: nat)
    requires off + l <= v.Length
    modifies v
    ensures v[..] == old(v[..off]) + Reversed(old(v[off..off + l])) + old(v[off + l..])
  {
    ghost var was := v[..];
    var i := 0;
    while i < l / 2
      invariant 0 <= i <= l / 2
      invariant Swapping(was, v[..], off, l, i)
    {
      ghost var before := v[..];
      var t := v[off + i];
      v[off + i] := v[off + (l - 1) - i];
      v[off + (l - 1) - i] := t;
      SwapStep(was, before, v[..], off, l, i);
      i := i + 1;
    }
    SwappedAll(l, was, v[..], off, i);
    assert was[..off] == old(v[..off]) && was[off..off + l] == old(v[off..off + l]);
    assert was[off + l..] == old(v[off + l..]);
  }

  lemma SwapStep(was: seq<byte>, before: seq<byte>, now: seq<byte>, off: nat, l: nat, i: nat)
    requires off + l <= |was| == |before| && i < l / 2 && Swapping(was, before, off, l, i)
    requires now == before[off + i := before[off + (l - 1) - i]][off + (l - 1) - i := before[off + i]]
    ensures Swapping(was, now, off, l, i + 1)
  {
    var lo, hi := off + i, off + l - 1 - i;
    assert now[lo] == was[hi] && now[hi] == was[lo];
  }

  lemma SwappedAll(l: nat, was: seq<byte>, now: seq<byte>, off: nat, i: nat)
    requires off + l <= |was| == |now| && i == l / 2 && Swapping(was, now, off, l, i)
    ensures now == was[..off] + Reversed(was[off..off + l]) + was[off + l..]
  {
    var want := was[..off] + Reversed(was[off..off + l]) + was[off + l..];
    forall k | 0 <= k < |was|
      ensures now[k] == want[k]
    {
      if off <= k < off + l {
        assert off + i <= k < off + l - i ==> k == 2 * off + l - 1 - k;
        assert want[k] == was[off..off + l][l - 1 - (k - off)] == was[2 * off + l - 1 - k];
      }
    }
  }

  /** The wanted order as endian.h names it; little-endian is true. */
  const TO_ENDIAN_BIG := false

  /** Bring the `l`-byte integer at `off` into the wanted order (endian.c:24-46). Only widths 1, 2, 4 and 8 are known,
      but an unknown width is reported only when a swap would be needed. */
  method ToEndian(littleEndian: bool, direction: bool, l: nat, n: array<byte>, off: nat) returns (r: int)
    requires off + l <= n.Length
    modifies n
    ensures r == if l == 1 || littleEndian == direction || l in {2, 4, 8} then 0 else 1
    ensures var was := old(n[off..off + l]);
            var now := if r == 0 && littleEndian != direction then Reversed(was) else was;
            n[..] == old(n[..off]) + now + old(n[off + l..])
  {
    assert n[..] == n[..off] + n[off..off + l] + n[off + l..];
    if l == 1 || littleEndian == direction {
      assert l == 1 ==> Reversed(n[off..off + l]) == n[off..off + l];
      return 0;
    }
    if l != 8 && l != 4 && l != 2 {
      return 1;
    }
    FlipEndian(l, n, off);
    return 0;
  }

  /** The key's time part, built in place as the C code does (ledger.c:996-1009): both words are copied from host memory
      and then brought to big-endian, so the result does not depend on the host. */
  method TimespecToKeypart(littleEndian: bool, sec: int, nsec: int) returns (k: seq<byte>)
    ensures k == KeyPart(sec, nsec)
  {
    hide Word, Memory, Reversed;
    var m := Memory(littleEndian, U32(sec)) + Memory(littleEndian, U32(nsec));
    var out := new byte[8](i requires 0 <= i < 8 => m[i]);
    assert out[..] == m;
    Halves(m);
    MemoryToBig(littleEndian, U32(sec));
    var r := ToEndian(littleEndian, TO_ENDIAN_BIG, 4, out, 0);
    ghost var half := out[..];
    assert half == Word(U32(sec)) + Memory(littleEndian, U32(nsec));
    Halves(half);
    MemoryToBig(littleEndian, U32(nsec));
    r := ToEndian(littleEndian, TO_ENDIAN_BIG, 4, out, 4);
    return out[..];
  }

  lemma Halves(m: seq<byte>)
    requires |m| == 8
    ensures m[..0] == [] && m[0..0 + 4] == m[..4] && m[0 + 4..] == m[4..] && m[4..4 + 4] == m[4..] && m[4 + 4..] == []
  {
  }

  lemma MemoryToBig(littleEndian: bool, u: uint32)
    ensures (if littleEndian then Reversed(Memory(littleEndian, u)) else Memory(littleEndian, u)) == Word(u)
  {
    assert Reversed(Reversed(Word(u))) == Word(u);
  }

  // ---- strip.c

  /** Drop leading zero bytes of a big-endian number, keeping at least one (strip.c:3-20). The result is the window
      `value[off .. off + len]`; an empty input makes the C code step one byte before the buffer. */
  method StripBe(value: seq<byte>) returns (off: int, len: nat)
    ensures value == [] ==> off == -1 && len == 1
    ensures value != [] ==> 0 <= off && len >= 1 && off + len == |value|
    ensures value != [] ==> BE(value[off..]) == BE(value)
    ensures value != [] ==> (len == 1 || value[off] != 0)
  {
    var i := 0;
    while i < |value|
      invariant 0 <= i <= |value|
      invariant forall k :: 0 <= k < i ==> value[k] == 0
    {
      if value[i] != 0 {
        break;
      }
      i := i + 1;
    }
    off, len := i, |value| - i;
    if len == 0 {
      len := 1;
      off := off - 1;
    }
    if value != [] {
      LeadingZeros(value, off);
    }
  }

  lemma {:induction false} LeadingZeros(s: seq<byte>, k: nat)
    requires k <= |s| && forall i :: 0 <= i < k ==> s[i] == 0
    ensures BE(s[k..]) == BE(s)
  {
    if k == 0 {
      assert s[0..] == s;
    } else {
      BEFront(s);
      LeadingZeros(s[1..], k - 1);
      assert s[1..][k - 1..] == s[k..];
    }
  }

  /** The byte a sign extension repeats. */
  function Mask(s: seq<byte>): byte
    requires s != []
  {
    if s[0] >= 128 then 255 else 0
  }

  /** Widen a big-endian two's complement number to `outLen` bytes (strip.c:22-50). The fill loop always writes four
      bytes, whatever `outLen` is: the value is kept if and only if every byte between those four and the copied ones
      already held the sign byte. */
  method StrapBe(inp: seq<byte>, out: array<byte>, outLen: nat) returns (r: int)
    requires 4 <= out.Length && outLen <= out.Length
    modifies out
    ensures r == if 0 < |inp| <= outLen then 0 else 1
    ensures r != 0 ==> out[..] == old(out[..])
    ensures r == 0 ==> out[outLen - |inp|..outLen] == inp
    ensures r == 0 ==> forall k :: 0 <= k < out.Length && !(outLen - |inp| <= k < outLen) ==>
              out[k] == if k < 4 then Mask(inp) else old(out[k])
    ensures r == 0 ==>
              (Signed(out[..outLen]) == Signed(inp)
               <==> forall k :: 4 <= k < outLen - |inp| ==> old(out[k]) == Mask(inp))
  {
    if |inp| > outLen {
      return 1;
    }
    if |inp| == 0 {
      return 1;
    }
    var mask: byte := 0;
    if inp[0] >= 128 {
      mask := 255;
    }
    var i := 0;
    while i < 4
      invariant 0 <= i <= 4
      invariant forall k :: 0 <= k < out.Length ==> out[k] == if k < i then mask else old(out[k])
    {
      out[i] := mask;
      i := i + 1;
    }
    var c := outLen - |inp|;
    i := 0;
    while i < |inp|
      invariant 0 <= i <= |inp|
      invariant forall k :: c <= k < c + i ==> out[k] == inp[k - c]
      invariant forall k :: 0 <= k < out.Length && !(c <= k < c + i) ==> out[k] == if k < 4 then mask else old(out[k])
    {
      out[c + i] := inp[i];
      i := i + 1;
    }
    assert forall k :: 0 <= k < |inp| ==> out[c..outLen][k] == out[c + k] == inp[k];
    assert out[..outLen] == out[..c] + inp;
    SignExtension(out[..c], inp);
    assert forall k :: 0 <= k < c ==> out[..c][k] == if k < 4 then mask else old(out[k]);
    return 0;
  }

  /** A sign-extended string and only a sign-extended string keeps the signed value. */
  lemma {:induction false} SignExtension(pad: seq<byte>, s: seq<byte>)
    requires s != []
    ensures Signed(pad + s) == Signed(s) <==> forall k :: 0 <= k < |pad| ==> pad[k] == Mask(s)
  {
    var good := seq(|pad|, _ => Mask(s));
    ExtendByMask(|pad|, s);
    if Signed(pad + s) == Signed(s) {
      SignedInjective(pad + s, good + s);
      assert pad == (pad + s)[..|pad|] == (good + s)[..|pad|] == good;
    } else {
      assert pad != good;
    }
  }

  /** One more sign byte in front. */
  lemma PrependMask(u: seq<byte>)
    requires u != []
    ensures Signed([Mask(u)] + u) == Signed(u)
  {
    var t, p := [Mask(u)] + u, Pow256(|u|);
    BEFront(t);
    assert t[1..] == u && Pow256(|t|) == 256 * p;
    hide BE, Pow256;
    if u[0] >= 128 {
      assert BE(t) == 255 * p + BE(u);
    } else {
      assert BE(t) == 0 * p + BE(u);
    }
  }

  lemma {:induction false} ExtendByMask(n: nat, s: seq<byte>)
    requires s != []
    ensures Signed(seq(n, _ => Mask(s)) + s) == Signed(s)
  {
    hide Signed;
    var t := seq(n, _ => Mask(s)) + s;
    if n == 0 {
      assert t == s;
    } else {
      var u := seq(n - 1, _ => Mask(s)) + s;
      ExtendByMask(n - 1, s);
      PrependMask(u);
      assert t == [Mask(u)] + u;
    }
  }

  lemma SignedInjective(a: seq<byte>, b: seq<byte>)
    requires |a| == |b| && Signed(a) == Signed(b)
    ensures a == b
  {
    if a != [] {
      BEFront(a);
      BEFront(b);
      var p := Pow256(|a| - 1);
      assert Pow256(|a|) == 256 * p;
      OrderIsNumeric(a, b);
    }
  }

  // ---- INTEGER contents

  /** Section 8.3.2 of X.690: the first nine bits are not all equal. */
  predicate IsMinimal(s: seq<byte>) {
    s != [] && (|s| > 1 ==> !(s[0] == 0 && s[1] < 128) && !(s[0] == 255 && s[1] >= 128))
  }

  /** What a DER writer makes of a fixed-width two's complement number. */
  function Minimal(s: seq<byte>): (m: seq<byte>)
    requires s != []
    ensures IsMinimal(m) && |m| <= |s|
  {
    if IsMinimal(s) then s else Minimal(s[1..])
  }

  lemma {:induction false} MinimalKeepsValue(s: seq<byte>)
    requires s != []
    ensures Signed(Minimal(s)) == Signed(s)
  {
    if !IsMinimal(s) {
      MinimalKeepsValue(s[1..]);
      assert s == [s[0]] + s[1..];
      SignExtension([s[0]], s[1..]);
    }
  }

  /** INTEGER contents of a C `int` (ledger.c:729-748: to big-endian, length 4, minimised by the encoder). */
  function IntOctets(v: int32): (s: seq<byte>)
    ensures IsMinimal(s) && |s| <= 4
  {
    Minimal(Word(U32(v)))
  }

  /** What `strap_be` and the flip to host order make of INTEGER contents of at most four bytes (ledger.c:409-429). */
  function IntOf(s: seq<byte>): int32
    requires 0 < |s| <= 4
  {
    SignedBounds(s);
    Signed(s)
  }

  lemma SignedBounds(s: seq<byte>)
    requires 0 < |s| <= 4
    ensures -0x8000_0000 <= Signed(s) < 0x8000_0000
  {
    ExtendByMask(4 - |s|, s);
    var t := seq(4 - |s|, _ => Mask(s)) + s;
    BEOfFour(t);
    Pow256Four();
  }

  lemma Pow256Four()
    ensures Pow256(4) == 0x1_0000_0000
  {
    assert Pow256(1) == 256 && Pow256(2) == 0x1_0000 && Pow256(3) == 0x100_0000;
  }

  /** Every 32-bit signed value survives the trip through the wire form. */
  lemma IntRoundTrip(v: int32)
    ensures Signed(IntOctets(v)) == v && IntOf(IntOctets(v)) == v
  {
    var w := Word(U32(v));
    MinimalKeepsValue(w);
    BEOfWord(U32(v));
    Pow256Four();
  }

  lemma WordOfBE(s: seq<byte>)
    requires |s| == 4
    ensures 0 <= BE(s) < 0x1_0000_0000 && Word(BE(s)) == s
  {
    BEFront(s);
    Pow256Four();
    BEOfWord(BE(s));
    OrderIsNumeric(s, Word(BE(s)));
  }

  lemma {:induction false} MinimalOfExtended(n: nat, s: seq<byte>)
    requires IsMinimal(s)
    ensures Minimal(seq(n, _ => Mask(s)) + s) == s
  {
    var t := seq(n, _ => Mask(s)) + s;
    if n == 0 {
      assert t == s;
    } else {
      var u := seq(n - 1, _ => Mask(s)) + s;
      MinimalOfExtended(n - 1, s);
      assert t[1..] == u && t[0] == Mask(s) == Mask(u) && u != [] && t[1] == u[0];
      assert !IsMinimal(t);
      hide IsMinimal;
    }
  }

  /** The other way round: minimal contents of at most four octets are what their value is written as. */
  lemma IntOctetsOfIntOf(s: seq<byte>)
    requires IsMinimal(s) && |s| <= 4
    ensures IntOctets(IntOf(s)) == s
  {
    var n := 4 - |s|;
    var t := seq(n, _ => Mask(s)) + s;
    ExtendByMask(n, s);
    MinimalOfExtended(n, s);
    IntOfIs(s);
    SignedWord(IntOf(s));
    hide Signed, IntOf, Word, Minimal;
    SignedInjective(t, Word(U32(IntOf(s))));
  }

  lemma SignedWord(v: int32)
    ensures Signed(Word(U32(v))) == v
  {
    BEOfWord(U32(v));
    Pow256Four();
    hide BE;
  }

  /** What a little-endian host reads from a buffer that was flipped. */
  lemma SignedOfFlipped(s: seq<byte>, t: seq<byte>)
    requires |s| == 4 && t == Reversed(s)
    ensures var u := t[3] as int * 0x100_0000 + t[2] as int * 0x1_0000 + t[1] as int * 0x100 + t[0];
            Signed(s) == if u < 0x8000_0000 then u else u - 0x1_0000_0000
  {
    BEOfFour(s);
    Pow256Four();
    hide BE, Pow256;
  }

  lemma IntOfIs(s: seq<byte>)
    requires 0 < |s| <= 4
    ensures IntOf(s) == Signed(s)
  {
  }

  /** The reader's own steps on the value buffer: `strap_be` into four bytes, then read as a host `int`. */
  method ReadInt(inp: seq<byte>) returns (v: int32)
    requires 0 < |inp| <= 4
    ensures v == IntOf(inp)
  {
    hide BE, Pow256, Signed, IntOf, Mask, Reversed;
    var out := new byte[4];
    var r := StrapBe(inp, out, 4);
    ghost var s := out[..];
    assert s == out[..4] && Signed(s) == Signed(inp);
    assert s[..0] == [] && s[0..0 + 4] == s && s[0 + 4..] == [];
    FlipEndian(4, out, 0);
    IntOfIs(inp);
    SignedOfFlipped(s, out[..]);
    // a little-endian host reads the flipped buffer back to front
    var u := out[3] as int * 0x100_0000 + out[2] as int * 0x1_0000 + out[1] as int * 0x100 + out[0];
    v := if u < 0x8000_0000 then u else u - 0x1_0000_0000;
  }
}
