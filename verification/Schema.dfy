/** KeeEntryHead, KeeEntry and KeeTransport of schema_entry.txt as value trees, with their wire forms. */
module Schema {
  import opened Bytes
  import opened Endian
  import opened Der

  /** A decoded KeeEntry. The two INTEGERs keep their contents octets, as the library's tree does. */
  datatype Entry = Entry(
    parent: seq<byte>, timestamp: seq<byte>, creditDelta: seq<byte>, collateralDelta: seq<byte>, body: seq<byte>,
    signatureRequest: seq<byte>, response: bool, signatureResponse: seq<byte>)

  const ENTRY_TAGS: seq<byte> := [OCTETS, OCTETS, INTEGER, INTEGER, OCTETS, OCTETS, BOOLEAN, OCTETS]

  function EntryFields(e: Entry): (f: seq<seq<byte>>)
    ensures |f| == 8
  {
    [e.parent, e.timestamp, e.creditDelta, e.collateralDelta, e.body, e.signatureRequest,
     [if e.response then 0xff else 0x00], e.signatureResponse]
  }

  function EntryOfFields(f: seq<seq<byte>>): Entry
    requires |f| == 8
  {
    Entry(f[0], f[1], f[2], f[3], f[4], f[5], f[6] == [0xff], f[7])
  }

  function EncodeEntry(e: Entry): seq<byte> {
    WriteSequence(ENTRY_TAGS, EntryFields(e))
  }

  function DecodeEntry(s: seq<byte>): Option<Entry> {
    match ReadSequence(ENTRY_TAGS, s)
    case None => None
    case Some(f) => Some(EntryOfFields(f))
  }

  /** A tree the encoder writes without a size error and the decoder takes back. */
  predicate Encodable(e: Entry) {
    IsMinimal(e.creditDelta) && IsMinimal(e.collateralDelta) && |EncodeEntry(e)| <= INT_MAX
  }

  lemma EntryReads(e: Entry)
    requires Encodable(e)
    ensures DecodeEntry(EncodeEntry(e)) == Some(e)
  {
    var f := EntryFields(e);
    FieldsFit(ENTRY_TAGS, f, INT_MAX);
    SequenceReads(ENTRY_TAGS, f);
  }

  lemma EntryWrites(s: seq<byte>)
    requires DecodeEntry(s).Some?
    ensures var e := DecodeEntry(s).value;
            EncodeEntry(e) == s && IsMinimal(e.creditDelta) && IsMinimal(e.collateralDelta)
  {
    SequenceWrites(ENTRY_TAGS, s);
    var f := ReadSequence(ENTRY_TAGS, s).value;
    assert Allowed(ENTRY_TAGS[2], f[2]) && Allowed(ENTRY_TAGS[3], f[3]) && Allowed(ENTRY_TAGS[6], f[6]);
    assert EntryFields(EntryOfFields(f)) == f;
  }

  /** Two trees with the same octets are the same tree. */
  lemma EntryInjective(a: Entry, b: Entry)
    requires Encodable(a) && Encodable(b) && EncodeEntry(a) == EncodeEntry(b)
    ensures a == b
  {
    EntryReads(a);
    EntryReads(b);
  }

  datatype HeadEntry = HeadEntry(
    uoa: seq<byte>, uoaDecimals: seq<byte>, alicePubKey: seq<byte>, bobPubKey: seq<byte>, body: seq<byte>)

  const HEAD_TAGS: seq<byte> := [UTF8, INTEGER, OCTETS, OCTETS, OCTETS]

  function HeadFields(h: HeadEntry): (f: seq<seq<byte>>)
    ensures |f| == 5
  {
    [h.uoa, h.uoaDecimals, h.alicePubKey, h.bobPubKey, h.body]
  }

  function EncodeHead(h: HeadEntry): seq<byte> {
    WriteSequence(HEAD_TAGS, HeadFields(h))
  }

  function DecodeHead(s: seq<byte>): Option<HeadEntry> {
    match ReadSequence(HEAD_TAGS, s)
    case None => None
    case Some(f) => Some(HeadEntry(f[0], f[1], f[2], f[3], f[4]))
  }

  lemma HeadReads(h: HeadEntry)
    requires IsMinimal(h.uoaDecimals) && |EncodeHead(h)| <= INT_MAX
    ensures DecodeHead(EncodeHead(h)) == Some(h)
  {
    var f := HeadFields(h);
    FieldsFit(HEAD_TAGS, f, INT_MAX);
    SequenceReads(HEAD_TAGS, f);
  }

  lemma HeadWrites(s: seq<byte>)
    requires DecodeHead(s).Some?
    ensures EncodeHead(DecodeHead(s).value) == s
  {
    SequenceWrites(HEAD_TAGS, s);
    var f := ReadSequence(HEAD_TAGS, s).value;
    assert HeadFields(DecodeHead(s).value) == f;
  }

  /** KeeTransport with a head and one entry. */
  function EncodeBundle(head: seq<byte>, entry: seq<byte>): seq<byte> {
    Tlv(SEQUENCE, head + entry)
  }

  function DecodeBundle(s: seq<byte>): Option<seq<seq<byte>>> {
    ReadSequenceOf(s)
  }

  lemma BundleReads(h: HeadEntry, e: Entry)
    requires |EncodeHead(h)| + |EncodeEntry(e)| <= INT_MAX - 12
    ensures DecodeBundle(EncodeBundle(EncodeHead(h), EncodeEntry(e))) == Some([EncodeHead(h), EncodeEntry(e)])
  {
    PairReads(WriteFields(HEAD_TAGS, HeadFields(h)), WriteFields(ENTRY_TAGS, EntryFields(e)));
  }

  // ---- sizes

  function Total(contents: seq<seq<byte>>): nat {
    if contents == [] then 0 else |contents[0]| + Total(contents[1..])
  }

  lemma {:induction false} FieldsSize(tags: seq<byte>, contents: seq<seq<byte>>)
    requires |tags| == |contents|
    ensures Total(contents) + 2 * |tags| <= |WriteFields(tags, contents)| <= Total(contents) + 6 * |tags|
  {
    if tags != [] {
      FieldsSize(tags[1..], contents[1..]);
    }
  }

  lemma {:induction false} EachFieldFits(tags: seq<byte>, contents: seq<seq<byte>>, i: nat)
    requires |tags| == |contents| && i < |tags|
    ensures |contents[i]| <= |WriteFields(tags, contents)|
  {
    if i > 0 {
      EachFieldFits(tags[1..], contents[1..], i - 1);
    }
  }

  lemma FieldsFit(tags: seq<byte>, contents: seq<seq<byte>>, limit: nat)
    requires |tags| == |contents| && |WriteSequence(tags, contents)| <= limit
    ensures |WriteFields(tags, contents)| <= limit
    ensures forall i :: 0 <= i < |contents| ==> |contents[i]| <= limit
  {
    forall i | 0 <= i < |contents|
      ensures |contents[i]| <= limit
    {
      EachFieldFits(tags, contents, i);
    }
  }

  lemma EntrySize(e: Entry)
    ensures |EncodeEntry(e)| <= |e.parent| + |e.timestamp| + |e.creditDelta| + |e.collateralDelta| + |e.body|
                                + |e.signatureRequest| + |e.signatureResponse| + 55
  {
    var f := EntryFields(e);
    FieldsSize(ENTRY_TAGS, f);
    TotalOfEight(f);
  }

  lemma TotalOfEight(f: seq<seq<byte>>)
    requires |f| == 8
    ensures Total(f) == |f[0]| + |f[1]| + |f[2]| + |f[3]| + |f[4]| + |f[5]| + |f[6]| + |f[7]|
  {
    TotalOfFour(f[4..]);
    assert Total(f) == |f[0]| + Total(f[1..]);
    assert Total(f[1..]) == |f[1]| + Total(f[2..]) by { assert f[1..][1..] == f[2..]; }
    assert Total(f[2..]) == |f[2]| + Total(f[3..]) by { assert f[2..][1..] == f[3..]; }
    assert Total(f[3..]) == |f[3]| + Total(f[4..]) by { assert f[3..][1..] == f[4..]; }
  }

  lemma TotalOfFour(f: seq<seq<byte>>)
    requires |f| == 4
    ensures Total(f) == |f[0]| + |f[1]| + |f[2]| + |f[3]|
  {
    assert Total(f[1..]) == |f[1]| + Total(f[2..]) by { assert f[1..][1..] == f[2..]; }
    assert Total(f[2..]) == |f[2]| + Total(f[3..]) by { assert f[2..][1..] == f[3..]; }
    assert Total(f[3..]) == |f[3]| + Total([]) by { assert f[3..][1..] == []; }
  }

  lemma HeadSize(h: HeadEntry)
    ensures |EncodeHead(h)| <= |h.uoa| + |h.uoaDecimals| + |h.alicePubKey| + |h.bobPubKey| + |h.body| + 36
  {
    var f := HeadFields(h);
    FieldsSize(HEAD_TAGS, f);
    TotalOfFour(f[1..]);
  }
}
