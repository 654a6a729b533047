/** The DER subset behind schema_entry.txt: definite lengths (X.690 sections 8.1.3 and 10.1), BOOLEAN (8.2, 11.1),
    INTEGER (8.3), OCTET STRING and UTF8String (8.7, 8.23), SEQUENCE and SEQUENCE OF (8.9, 8.10). A reader is driven by
    the list of tags the schema names, as libtasn1 is by its compiled table. */
module Der {
  import opened Bytes
  import opened Endian

  const BOOLEAN: byte := 0x01
  const INTEGER: byte := 0x02
  const OCTETS: byte := 0x04
  const UTF8: byte := 0x0c
  const SEQUENCE: byte := 0x30

  /** Lengths are C `int`s in the library. */
  const INT_MAX := 0x7fff_ffff

  /** Shortest definite form. A length beyond INT_MAX has none here and gets the octet no DER reader takes. */
  function EncodeLength(n: nat): (s: seq<byte>)
    ensures 1 <= |s| <= 5
  {
    if n < 0x80 then [n]
    else if n < 0x100 then [0x81, n]
    else if n < 0x1_0000 then [0x82, n / 0x100, n % 0x100]
    else if n < 0x100_0000 then [0x83, n / 0x1_0000, n / 0x100 % 0x100, n % 0x100]
    else if n <= INT_MAX then [0x84] + Word(n)
    else [0x80]
  }

  datatype Read<+T> = Bad | Got(value: T, rest: seq<byte>)

  function DecodeLength(s: seq<byte>): Read<nat> {
    if s == [] then Bad
    else if s[0] < 0x80 then Got(s[0], s[1..])
    else
      var k := s[0] - 0x80;
      if !(1 <= k <= 4) || |s| < 1 + k then Bad
      else
        var n := BE(s[1..1 + k]);
        if n <= INT_MAX && EncodeLength(n) == s[..1 + k] then Got(n, s[1 + k..]) else Bad
  }

  lemma LengthReads(n: nat, rest: seq<byte>)
    requires n <= INT_MAX
    ensures DecodeLength(EncodeLength(n) + rest) == Got(n, rest)
  {
    var e := EncodeLength(n);
    var s := e + rest;
    assert s[..|e|] == e && s[|e|..] == rest;
    if n >= 0x80 {
      assert s[1..|e|] == e[1..];
      LongLength(n);
    }
  }

  lemma LongLength(n: nat)
    requires 0x80 <= n <= INT_MAX
    ensures var e := EncodeLength(n); e[0] == 0x80 + |e| - 1 && BE(e[1..]) == n
  {
    hide BE;
    var d := EncodeLength(n)[1..];
    if n < 0x100_0000 {
      BEOfShort(d);
      ThreeDigits(n);
    } else {
      BEOfWord(n);
      assert d == Word(n);
    }
  }

  lemma ThreeDigits(n: nat)
    requires n < 0x100_0000
    ensures n == n / 0x1_0000 * 0x1_0000 + n / 0x100 % 0x100 * 0x100 + n % 0x100
    ensures n < 0x1_0000 ==> n == n / 0x100 * 0x100 + n % 0x100
  {
    var a := n / 0x100;
    assert n / 0x1_0000 == a / 0x100;
  }

  lemma BEOfShort(d: seq<byte>)
    requires 1 <= |d| <= 3
    ensures |d| == 1 ==> BE(d) == d[0]
    ensures |d| == 2 ==> BE(d) == d[0] as int * 0x100 + d[1]
    ensures |d| == 3 ==> BE(d) == d[0] as int * 0x1_0000 + d[1] as int * 0x100 + d[2]
  {
    assert d[..1][..0] == [] && BE(d[..1]) == d[0];
    if |d| == 1 {
      assert d[..1] == d;
    } else {
      assert d[..2][..1] == d[..1] && BE(d[..2]) == 256 * BE(d[..1]) + d[1];
      assert |d| == 2 ==> d[..2] == d;
    }
  }

  lemma LengthWrites(s: seq<byte>)
    requires DecodeLength(s).Got?
    ensures var g := DecodeLength(s); g.value <= INT_MAX && s == EncodeLength(g.value) + g.rest
  {
  }

  lemma {:induction false} PowerGrows(m: nat, n: nat)
    requires m <= n
    ensures Pow256(m) <= Pow256(n)
  {
    if m < n {
      PowerGrows(m, n - 1);
    }
  }

  /** Section 10.1 of X.690: one octet exactly below 128; otherwise the count of the length octets, the first of which
      is not zero, and no octet string with that value is shorter. */
  lemma ShortestForm(n: nat)
    requires n <= INT_MAX
    ensures var e := EncodeLength(n);
            && (|e| == 1 <==> n < 0x80) && (n < 0x80 ==> e == [n])
            && (n >= 0x80 ==> e[0] == 0x80 + |e| - 1 && e[1] != 0 && BE(e[1..]) == n)
            && (n >= 0x80 ==> forall d: seq<byte> :: BE(d) == n ==> |d| >= |e| - 1)
  {
    if n >= 0x80 {
      LongLength(n);
      var octets := EncodeLength(n)[1..];
      assert octets[0] != 0 by { FirstOctet(n); }
      forall d: seq<byte> | BE(d) == n
        ensures |d| >= |octets|
      {
        NoShorter(octets, d);
      }
    }
  }

  lemma FirstOctet(n: nat)
    requires 0x80 <= n <= INT_MAX
    ensures EncodeLength(n)[1] != 0
  {
  }

  lemma NoShorter(octets: seq<byte>, d: seq<byte>)
    requires octets != [] && octets[0] != 0 && BE(d) == BE(octets)
    ensures |d| >= |octets|
  {
    if |d| < |octets| {
      ShorterIsLess(octets, d);
    }
  }

  lemma ShorterIsLess(octets: seq<byte>, d: seq<byte>)
    requires octets != [] && octets[0] != 0 && |d| < |octets|
    ensures BE(d) < BE(octets)
  {
    BEFront(octets);
    AtLeastOnce(octets[0], Pow256(|octets| - 1));
    if d != [] {
      BEFront(d);
    }
    PowerGrows(|d|, |octets| - 1);
  }

  lemma AtLeastOnce(x: int, p: int)
    requires x >= 1 && p > 0
    ensures x * p >= p
  {
    assert x * p == (x - 1) * p + p && (x - 1) * p >= 0;
  }

  /** What a reader makes of a first length octet of 0x80 + k: it takes one to four octets, in the shortest form and
      up to INT_MAX, and nothing else. */
  lemma LongFormAccepted(s: seq<byte>)
    requires s != [] && s[0] >= 0x80
    ensures var k := s[0] as int - 0x80;
            && (DecodeLength(s).Got?
                <==> 1 <= k <= 4 && |s| >= 1 + k && s[1] != 0 && 0x80 <= BE(s[1..1 + k]) <= 0x7fff_ffff)
            && (DecodeLength(s).Got? ==> DecodeLength(s) == Got(BE(s[1..1 + k]), s[1 + k..]))
  {
    var k := s[0] as int - 0x80;
    if 1 <= k <= 4 && |s| >= 1 + k && BE(s[1..1 + k]) <= INT_MAX {
      ShortestIs(s[..1 + k]);
      hide EncodeLength;
      assert s[..1 + k][1..] == s[1..1 + k];
    }
  }

  /** A count octet and its octets are the shortest form of their value just when the first is not zero and the value
      needs them. */
  lemma ShortestIs(t: seq<byte>)
    requires 2 <= |t| <= 5 && t[0] == 0x80 + |t| - 1 && BE(t[1..]) <= INT_MAX
    ensures EncodeLength(BE(t[1..])) == t <==> t[1] != 0 && BE(t[1..]) >= 0x80
  {
    var d := t[1..];
    var n := BE(d);
    ShortestForm(n);
    var e := EncodeLength(n);
    hide EncodeLength;
    if n >= 0x80 && t[1] != 0 {
      NoShorter(d, e[1..]);
      OrderIsNumeric(d, e[1..]);
      hide BE;
      assert e == [e[0]] + e[1..] && t == [t[0]] + d;
    }
  }

  // ---- one element

  function Tlv(tag: byte, content: seq<byte>): (s: seq<byte>)
    ensures |content| + 2 <= |s| <= |content| + 6
  {
    [tag] + EncodeLength(|content|) + content
  }

  function ReadTlv(tag: byte, s: seq<byte>): (g: Read<seq<byte>>)
    ensures g.Got? ==> |g.rest| < |s|
  {
    if s == [] || s[0] != tag then Bad
    else match DecodeLength(s[1..])
      case Bad => Bad
      case Got(n, rest) => if n > |rest| then Bad else LengthWrites(s[1..]); Got(rest[..n], rest[n..])
  }

  lemma TlvReads(tag: byte, content: seq<byte>, rest: seq<byte>)
    requires |content| <= INT_MAX
    ensures ReadTlv(tag, Tlv(tag, content) + rest) == Got(content, rest)
  {
    hide EncodeLength, DecodeLength;
    var s := Tlv(tag, content) + rest;
    assert s[1..] == EncodeLength(|content|) + (content + rest);
    LengthReads(|content|, content + rest);
  }

  lemma TlvWrites(tag: byte, s: seq<byte>)
    requires ReadTlv(tag, s).Got?
    ensures var g := ReadTlv(tag, s); |g.value| <= INT_MAX && s == Tlv(tag, g.value) + g.rest
  {
    hide EncodeLength, DecodeLength;
    LengthWrites(s[1..]);
    var n, rest := DecodeLength(s[1..]).value, DecodeLength(s[1..]).rest;
    SplitHeader(s, EncodeLength(n), rest, n);
  }

  lemma SplitHeader(s: seq<byte>, e: seq<byte>, rest: seq<byte>, n: nat)
    requires s != [] && s[1..] == e + rest && n <= |rest|
    ensures s == [s[0]] + e + rest[..n] + rest[n..]
  {
    assert s == [s[0]] + s[1..];
    assert rest == rest[..n] + rest[n..];
  }

  // ---- a SEQUENCE with a fixed list of components

  /** The contents octets a primitive type allows. */
  predicate Allowed(tag: byte, content: seq<byte>) {
    && |content| <= INT_MAX
    && (tag == INTEGER ==> IsMinimal(content))
    && (tag == BOOLEAN ==> content == [0x00] || content == [0xff])
  }

  ghost predicate AllAllowed(tags: seq<byte>, contents: seq<seq<byte>>) {
    |tags| == |contents| && forall i :: 0 <= i < |tags| ==> Allowed(tags[i], contents[i])
  }

  function WriteFields(tags: seq<byte>, contents: seq<seq<byte>>): seq<byte>
    requires |tags| == |contents|
  {
    if tags == [] then [] else Tlv(tags[0], contents[0]) + WriteFields(tags[1..], contents[1..])
  }

  /** All components in order and nothing after them. */
  function ReadFields(tags: seq<byte>, s: seq<byte>): (r: Option<seq<seq<byte>>>)
    ensures r.Some? ==> |r.value| == |tags|
  {
    if tags == [] then if s == [] then Some([]) else None
    else match ReadTlv(tags[0], s)
      case Bad => None
      case Got(content, rest) =>
        if !Allowed(tags[0], content) then None
        else match ReadFields(tags[1..], rest)
          case None => None
          case Some(more) => Some([content] + more)
  }

  lemma {:induction false} FieldsRead(tags: seq<byte>, contents: seq<seq<byte>>)
    requires AllAllowed(tags, contents)
    ensures ReadFields(tags, WriteFields(tags, contents)) == Some(contents)
  {
    hide Tlv, ReadTlv;
    if tags != [] {
      TlvReads(tags[0], contents[0], WriteFields(tags[1..], contents[1..]));
      FieldsRead(tags[1..], contents[1..]);
      assert contents == [contents[0]] + contents[1..];
    }
  }

  lemma {:induction false} FieldsWrite(tags: seq<byte>, s: seq<byte>)
    requires ReadFields(tags, s).Some?
    ensures var c := ReadFields(tags, s).value; AllAllowed(tags, c) && WriteFields(tags, c) == s
  {
    hide Tlv, ReadTlv;
    if tags != [] {
      TlvWrites(tags[0], s);
      var g := ReadTlv(tags[0], s);
      FieldsWrite(tags[1..], g.rest);
      var c := ReadFields(tags, s).value;
      assert c[1..] == ReadFields(tags[1..], g.rest).value;
    }
  }

  function WriteSequence(tags: seq<byte>, contents: seq<seq<byte>>): seq<byte>
    requires |tags| == |contents|
  {
    Tlv(SEQUENCE, WriteFields(tags, contents))
  }

  function ReadSequence(tags: seq<byte>, s: seq<byte>): (r: Option<seq<seq<byte>>>)
    ensures r.Some? ==> |r.value| == |tags|
  {
    match ReadTlv(SEQUENCE, s)
    case Bad => None
    case Got(content, rest) => if rest == [] then ReadFields(tags, content) else None
  }

  /** Reading undoes writing, for any component list. */
  lemma SequenceReads(tags: seq<byte>, contents: seq<seq<byte>>)
    requires AllAllowed(tags, contents) && |WriteFields(tags, contents)| <= INT_MAX
    ensures ReadSequence(tags, WriteSequence(tags, contents)) == Some(contents)
  {
    var body := WriteFields(tags, contents);
    TlvReads(SEQUENCE, body, []);
    assert Tlv(SEQUENCE, body) + [] == Tlv(SEQUENCE, body);
    FieldsRead(tags, contents);
  }

  /** Writing undoes reading: no two octet strings read alike, the point of "distinguished" rules. */
  lemma SequenceWrites(tags: seq<byte>, s: seq<byte>)
    requires ReadSequence(tags, s).Some?
    ensures var c := ReadSequence(tags, s).value;
            AllAllowed(tags, c) && |WriteFields(tags, c)| <= INT_MAX && WriteSequence(tags, c) == s
  {
    TlvWrites(SEQUENCE, s);
    FieldsWrite(tags, ReadTlv(SEQUENCE, s).value);
  }

  // ---- SEQUENCE OF ANY

  /** One element of any type with a single-octet tag, returned whole. */
  function ReadAny(s: seq<byte>): (g: Read<seq<byte>>)
    ensures g.Got? ==> |g.rest| < |s|
  {
    if s == [] || s[0] % 32 == 31 then Bad
    else match ReadTlv(s[0], s)
      case Bad => Bad
      case Got(content, rest) => Got(s[..|s| - |rest|], rest)
  }

  function ReadAnys(s: seq<byte>): Option<seq<seq<byte>>> {
    if s == [] then Some([])
    else match ReadAny(s)
      case Bad => None
      case Got(element, rest) =>
        match ReadAnys(rest)
        case None => None
        case Some(more) => Some([element] + more)
  }

  function ReadSequenceOf(s: seq<byte>): Option<seq<seq<byte>>> {
    match ReadTlv(SEQUENCE, s)
    case Bad => None
    case Got(content, rest) => if rest == [] then ReadAnys(content) else None
  }

  lemma AnyReads(tag: byte, content: seq<byte>, rest: seq<byte>)
    requires |content| <= INT_MAX && tag % 32 != 31
    ensures ReadAny(Tlv(tag, content) + rest) == Got(Tlv(tag, content), rest)
  {
    TlvReads(tag, content, rest);
    var s := Tlv(tag, content) + rest;
    assert s[..|s| - |rest|] == Tlv(tag, content);
  }

  /** A two-element bundle reads back as its two elements. */
  lemma PairReads(a: seq<byte>, b: seq<byte>)
    requires |a| + |b| <= INT_MAX - 12
    ensures ReadSequenceOf(Tlv(SEQUENCE, Tlv(SEQUENCE, a) + Tlv(SEQUENCE, b)))
            == Some([Tlv(SEQUENCE, a), Tlv(SEQUENCE, b)])
  {
    var x, y := Tlv(SEQUENCE, a), Tlv(SEQUENCE, b);
    TlvReads(SEQUENCE, x + y, []);
    assert Tlv(SEQUENCE, x + y) + [] == Tlv(SEQUENCE, x + y);
    AnyReads(SEQUENCE, a, y);
    AnyReads(SEQUENCE, b, []);
    assert y + [] == y;
    assert ReadAnys([]) == Some([]);
    assert [y] + [] == [y] && [x] + [y] == [x, y];
    assert ReadAnys(y) == Some([y]);
  }

  function Joined(parts: seq<seq<byte>>): seq<byte> {
    if parts == [] then [] else parts[0] + Joined(parts[1..])
  }

  /** The elements of a bundle are all of its octets, in order; each is one element on its own. */
  lemma {:induction false} AnysWrite(s: seq<byte>)
    requires ReadAnys(s).Some?
    ensures Joined(ReadAnys(s).value) == s
    ensures forall i :: 0 <= i < |ReadAnys(s).value| ==> ReadAnys(s).value[i] != []
    decreases |s|
  {
    hide ReadTlv;
    if s != [] {
      var g := ReadAny(s);
      AnyWrites(s);
      AnysWrite(g.rest);
      var more := ReadAnys(g.rest).value;
      hide ReadAny, ReadAnys;
      assert ([g.value] + more)[1..] == more;
    }
  }

  lemma AnyWrites(s: seq<byte>)
    requires ReadAny(s).Got?
    ensures ReadAny(s).value != [] && s == ReadAny(s).value + ReadAny(s).rest
  {
    TlvWrites(s[0], s);
    var g := ReadTlv(s[0], s);
    hide ReadTlv, Tlv;
    var t := Tlv(s[0], g.value);
    assert s == t + g.rest && |t| == |s| - |g.rest|;
    assert s[..|t|] == t;
  }

  /** A bundle has no octets outside its elements. */
  lemma SequenceOfWrites(s: seq<byte>)
    requires ReadSequenceOf(s).Some?
    ensures s == Tlv(SEQUENCE, Joined(ReadSequenceOf(s).value))
  {
    TlvWrites(SEQUENCE, s);
    AnysWrite(ReadTlv(SEQUENCE, s).value);
    hide ReadTlv, ReadAnys, Tlv;
  }
}
