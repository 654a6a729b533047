/** Base64 text as the transport layer writes and reads it (section 4 of RFC 4648; the reader skips every octet outside
    the alphabet, as section 3.3 allows). The writer breaks lines of 72 characters. */
module Base64 {
  import opened Bytes

  type sextet = i: int | 0 <= i < 64

  const NEWLINE: byte := 0x0a
  const PAD: byte := 0x3d
  const LINE_GROUPS := 18

  function Letter(v: sextet): byte {
    if v < 26 then v + 65
    else if v < 52 then v + 71
    else if v < 62 then v - 4
    else if v == 62 then 43
    else 47
  }

  function Value(c: byte): Option<sextet> {
    if 65 <= c <= 90 then Some(c - 65)
    else if 97 <= c <= 122 then Some(c - 71)
    else if 48 <= c <= 57 then Some(c + 4)
    else if c == 43 then Some(62)
    else if c == 47 then Some(63)
    else None
  }

  /** Octets regrouped by six bits, the last group filled with zero bits. */
  function Split(data: seq<byte>): seq<sextet> {
    if |data| == 0 then []
    else if |data| == 1 then [data[0] / 4, data[0] % 4 * 16]
    else if |data| == 2 then [data[0] / 4, data[0] % 4 * 16 + data[1] / 16, data[1] % 16 * 4]
    else
      [data[0] / 4, data[0] % 4 * 16 + data[1] / 16, data[1] % 16 * 4 + data[2] / 64, data[2] % 64] + Split(data[3..])
  }

  /** The reader's regrouping: a last group of two or three sextets gives one or two octets. */
  function Join(s: seq<sextet>): seq<byte> {
    if |s| <= 1 then []
    else if |s| == 2 then [First(s)]
    else if |s| == 3 then [First(s), Second(s)]
    else [First(s), Second(s), Third(s)] + Join(s[4..])
  }

  function First(s: seq<sextet>): byte
    requires |s| >= 2
  {
    s[0] as int * 4 + s[1] / 16
  }

  function Second(s: seq<sextet>): byte
    requires |s| >= 3
  {
    s[1] as int % 16 * 16 + s[2] / 4
  }

  function Third(s: seq<sextet>): byte
    requires |s| >= 4
  {
    s[2] as int % 4 * 64 + s[3]
  }

  function Letters(s: seq<sextet>): (t: seq<byte>)
    ensures |t| == |s|
  {
    seq(|s|, i requires 0 <= i < |s| => Letter(s[i]))
  }

  function Pads(n: nat): (p: seq<byte>)
    ensures |p| == n && forall i :: 0 <= i < n ==> p[i] == PAD
  {
    seq(n, _ => PAD)
  }

  /** The writer, `groups` full groups into the current line; the text always ends with a line break. */
  function EncodeFrom(data: seq<byte>, groups: nat): (t: seq<byte>)
    ensures t != [] && t[|t| - 1] == NEWLINE
  {
    if |data| == 0 then [NEWLINE]
    else if |data| < 3 then Letters(Split(data)) + Pads(3 - |data|) + [NEWLINE]
    else Letters(Split(data[..3])) + (if groups + 1 == LINE_GROUPS then [NEWLINE] else [])
         + EncodeFrom(data[3..], if groups + 1 == LINE_GROUPS then 0 else groups + 1)
  }

  function Encode(data: seq<byte>): (t: seq<byte>)
    ensures t != [] && t[|t| - 1] == NEWLINE
  {
    EncodeFrom(data, 0)
  }

  /** The sextets of a text, everything outside the alphabet skipped. */
  function Sextets(t: seq<byte>): seq<sextet> {
    if t == [] then []
    else (if Value(t[0]).Some? then [Value(t[0]).value] else []) + Sextets(t[1..])
  }

  function Decode(t: seq<byte>): seq<byte> {
    Join(Sextets(t))
  }

  lemma {:induction false} SextetsConcat(a: seq<byte>, b: seq<byte>)
    ensures Sextets(a + b) == Sextets(a) + Sextets(b)
  {
    hide Value;
    if a == [] {
      assert a + b == b;
    } else {
      assert (a + b)[0] == a[0] && (a + b)[1..] == a[1..] + b;
      SextetsConcat(a[1..], b);
      var front := if Value(a[0]).Some? then [Value(a[0]).value] else [];
      assert front + (Sextets(a[1..]) + Sextets(b)) == (front + Sextets(a[1..])) + Sextets(b);
    }
  }

  lemma {:induction false} SextetsOfLetters(s: seq<sextet>)
    ensures Sextets(Letters(s)) == s
  {
    if s != [] {
      assert Letters(s)[1..] == Letters(s[1..]);
      SextetsOfLetters(s[1..]);
      assert Value(Letter(s[0])) == Some(s[0]);
    }
  }

  /** Padding, line breaks and the zero bytes of a buffer carry no sextets. */
  lemma {:induction false} SextetsOfOthers(t: seq<byte>)
    requires forall i :: 0 <= i < |t| ==> Value(t[i]) == None
    ensures Sextets(t) == []
  {
    if t != [] {
      SextetsOfOthers(t[1..]);
    }
  }

  lemma {:induction false} SplitThree(data: seq<byte>)
    requires |data| >= 3
    ensures Split(data) == Split(data[..3]) + Split(data[3..])
  {
    assert data[..3][3..] == [];
    assert Split(data[..3])
        == [data[0] / 4, data[0] % 4 * 16 + data[1] / 16, data[1] % 16 * 4 + data[2] / 64, data[2] % 64];
  }

  /** One written chunk: its letters, then bytes that carry nothing, then the rest of the text. */
  lemma ChunkSextets(front: seq<sextet>, others: seq<byte>, rest: seq<byte>)
    requires forall i :: 0 <= i < |others| ==> Value(others[i]) == None
    ensures Sextets(Letters(front) + others + rest) == front + Sextets(rest)
  {
    hide *;
    SextetsOfLetters(front);
    SextetsOfOthers(others);
    SextetsConcat(Letters(front), others);
    SextetsConcat(Letters(front) + others, rest);
    assert front + [] == front;
  }

  lemma PadsCarryNothing(n: nat)
    ensures forall i :: 0 <= i < n ==> Value(Pads(n)[i]) == None
    ensures Value(NEWLINE) == None && Sextets([NEWLINE]) == [] && Split([]) == []
  {
    SextetsOfOthers([NEWLINE]);
  }

  lemma {:induction false} EncodedSextets(data: seq<byte>, groups: nat)
    ensures Sextets(EncodeFrom(data, groups)) == Split(data)
    decreases |data|
  {
    PadsCarryNothing(if |data| < 3 then 3 - |data| else 0);
    hide Sextets, Letters, Value, Split;
    if |data| == 0 {
      assert data == [];
    } else if |data| < 3 {
      ChunkSextets(Split(data), Pads(3 - |data|), [NEWLINE]);
      assert Split(data) + [] == Split(data);
    } else {
      var full := groups + 1 == LINE_GROUPS;
      var next := if full then 0 else groups + 1;
      EncodedSextets(data[3..], next);
      ChunkSextets(Split(data[..3]), if full then [NEWLINE] else [], EncodeFrom(data[3..], next));
      SplitThree(data);
    }
  }

  lemma Regrouped(a: byte, b: byte, c: byte)
    ensures a / 4 * 4 + (a % 4 * 16 + b / 16) / 16 == a
    ensures (a % 4 * 16 + b / 16) % 16 * 16 + (b % 16 * 4 + c / 64) / 4 == b
    ensures (b % 16 * 4 + c / 64) % 4 * 64 + c % 64 == c
  {
  }

  lemma SplitOfThree(data: seq<byte>)
    requires |data| == 3
    ensures Split(data)
            == [data[0] / 4, data[0] % 4 * 16 + data[1] / 16, data[1] % 16 * 4 + data[2] / 64, data[2] % 64]
  {
    assert data[3..] == [];
    assert Split([]) == [];
  }

  lemma OctetsOf(data: seq<byte>)
    requires |data| == 3
    ensures var s := Split(data);
            && |s| == 4 && First(s) == data[0] && Second(s) == data[1] && Third(s) == data[2]
  {
    SplitOfThree(data);
    hide Split;
    Regrouped(data[0], data[1], data[2]);
  }

  lemma JoinFour(s: seq<sextet>, rest: seq<sextet>)
    requires |s| == 4
    ensures Join(s + rest) == [First(s), Second(s), Third(s)] + Join(rest)
  {
    assert (s + rest)[4..] == rest;
    assert First(s + rest) == First(s) && Second(s + rest) == Second(s) && Third(s + rest) == Third(s);
    hide First, Second, Third;
  }

  /** Four sextets of three octets give them back. */
  lemma JoinThree(data: seq<byte>, rest: seq<sextet>)
    requires |data| == 3
    ensures Join(Split(data) + rest) == data + Join(rest)
  {
    hide *;
    OctetsOf(data);
    JoinFour(Split(data), rest);
    assert data == [data[0], data[1], data[2]];
  }

  lemma {:induction false} JoinOfSplit(data: seq<byte>)
    ensures Join(Split(data)) == data
  {
    if |data| >= 3 {
      hide Join, Split;
      JoinOfSplit(data[3..]);
      SplitThree(data);
      JoinThree(data[..3], Split(data[3..]));
      assert data == data[..3] + data[3..];
    }
  }

  /** Reading back a written text, its final line break cut off and any bytes outside the alphabet after it. */
  lemma DecodeOfEncode(data: seq<byte>, tail: seq<byte>)
    requires forall i :: 0 <= i < |tail| ==> Value(tail[i]) == None
    ensures var t := Encode(data); Decode(t[..|t| - 1] + tail) == data
  {
    var t := Encode(data);
    assert t == t[..|t| - 1] + [NEWLINE];
    SextetsConcat(t[..|t| - 1], [NEWLINE]);
    SextetsOfOthers([NEWLINE]);
    SextetsConcat(t[..|t| - 1], tail);
    SextetsOfOthers(tail);
    EncodedSextets(data, 0);
    JoinOfSplit(data);
  }

  /** How long a text gets: four letters for each three octets begun, a break after each full line, one at the end. */
  lemma {:induction false} EncodedLength(data: seq<byte>, groups: nat)
    requires groups < LINE_GROUPS
    ensures |EncodeFrom(data, groups)| == 4 * ((|data| + 2) / 3) + (|data| / 3 + groups) / LINE_GROUPS + 1
    decreases |data|
  {
    if 0 < |data| < 3 {
      assert |Split(data)| == |data| + 1;
    } else if |data| >= 3 {
      assert |Split(data[..3])| == 4 by { SplitThree(data); assert data[..3][3..] == []; }
      var n := |data[3..]|;
      assert |data| / 3 == n / 3 + 1 && (|data| + 2) / 3 == (n + 2) / 3 + 1;
      EncodedLength(data[3..], if groups + 1 == LINE_GROUPS then 0 else groups + 1);
    }
  }

  // ---- against the standard

  /** Table 1 of RFC 4648, both ways. */
  lemma AlphabetIsTable1(v: sextet)
    ensures v < 26 ==> Letter(v) == 'A' as int + v
    ensures 26 <= v < 52 ==> Letter(v) == 'a' as int + (v - 26)
    ensures 52 <= v < 62 ==> Letter(v) == '0' as int + (v - 52)
    ensures v == 62 ==> Letter(v) == '+' as int
    ensures v == 63 ==> Letter(v) == '/' as int
    ensures Value(Letter(v)) == Some(v)
  {
  }

  /** Every octet outside the table is skipped. */
  lemma OthersAreSkipped(c: byte)
    ensures Value(c).Some? ==> Letter(Value(c).value) == c
    ensures PAD == '=' as int && Value(PAD) == None && NEWLINE == '\n' as int && Value(NEWLINE) == None
  {
  }

  /** Section 4 of RFC 4648 on one group: 24 bits, cut into four. */
  lemma GroupIs24Bits(data: seq<byte>)
    requires |data| == 3
    ensures var s := Split(data);
            && |s| == 4
            && s[0] as int * 0x4_0000 + s[1] as int * 0x1000 + s[2] as int * 0x40 + s[3]
               == data[0] as int * 0x1_0000 + data[1] as int * 0x100 + data[2]
  {
    SplitOfThree(data);
    hide Split;
  }

  /** ... and on the last, filled with zero bits and padded with `=`. */
  lemma LastGroupPadded(data: seq<byte>, groups: nat)
    requires 0 < |data| < 3
    ensures var s := Split(data + Zeros(3 - |data|));
            var pads := if |data| == 1 then [PAD, PAD] else [PAD];
            EncodeFrom(data, groups) == Letters(s[..|data| + 1]) + pads + [NEWLINE]
  {
    var full := data + Zeros(3 - |data|);
    SplitOfThree(full);
    hide Letters;
    assert Split(data) == Split(full)[..|data| + 1];
    assert Pads(3 - |data|) == if |data| == 1 then [PAD, PAD] else [PAD];
  }

  /** A full line is 54 octets in 72 letters and a break, and the next line starts over. */
  lemma FullLine(data: seq<byte>)
    requires |data| >= 54
    ensures Encode(data) == Letters(Split(data[..54])) + [NEWLINE] + Encode(data[54..])
  {
    LineFrom(data, 0);
    hide EncodeFrom, Split;
  }

  lemma {:induction false} LineFrom(data: seq<byte>, groups: nat)
    requires groups < LINE_GROUPS && |data| >= 3 * (LINE_GROUPS - groups)
    ensures var n := 3 * (LINE_GROUPS - groups);
            EncodeFrom(data, groups) == Letters(Split(data[..n])) + [NEWLINE] + EncodeFrom(data[n..], 0)
    decreases LINE_GROUPS - groups
  {
    var n := 3 * (LINE_GROUPS - groups);
    EncodeUnfolds(data, groups);
    hide EncodeFrom, Split, Letters;
    if groups + 1 < LINE_GROUPS {
      LineFrom(data[3..], groups + 1);
      SplitThree(data[..n]);
      assert data[..n][..3] == data[..3] && data[..n][3..] == data[3..][..n - 3] && data[3..][n - 3..] == data[n..];
      var a, b := Split(data[..3]), Split(data[3..][..n - 3]);
      LettersAppend(a, b);
      Regroup(Letters(a), Letters(b), [NEWLINE], EncodeFrom(data[n..], 0));
    }
  }

  lemma Regroup(a: seq<byte>, b: seq<byte>, brk: seq<byte>, rest: seq<byte>)
    ensures a + [] + (b + brk + rest) == (a + b) + brk + rest
  {
  }

  lemma EncodeUnfolds(data: seq<byte>, groups: nat)
    requires |data| >= 3
    ensures EncodeFrom(data, groups)
            == Letters(Split(data[..3])) + (if groups + 1 == LINE_GROUPS then [NEWLINE] else [])
               + EncodeFrom(data[3..], if groups + 1 == LINE_GROUPS then 0 else groups + 1)
  {
    hide Split, Letters;
  }

  lemma LettersAppend(a: seq<sextet>, b: seq<sextet>)
    ensures Letters(a + b) == Letters(a) + Letters(b)
  {
    hide Letter;
  }
}
