/** The octets on the wire, written out: what any other reader or writer of the format has to agree with. */
module Layout {
  import opened Bytes
  import opened Endian
  import opened Der
  import opened Schema
  import opened LedgerValues
  import opened LedgerOperations

  /** A short OCTET STRING: tag 4, one length octet, contents. */
  function Octets(s: seq<byte>): seq<byte>
    requires |s| < 0x80
  {
    [0x04, |s|] + s
  }

  /** The component octets of an item, in the order of the schema. */
  function ItemBody(parent: Digest, it: Item, stage: Stage): seq<byte> {
    var bob := it.initiator == BOB;
    var credit := IntOctets(if bob then it.bobCredit else it.aliceCredit);
    var collateral := IntOctets(if bob then it.bobCollateral else it.aliceCollateral);
    var request := if bob then it.bobSignature else it.aliceSignature;
    var response := if bob then it.aliceSignature else it.bobSignature;
    Octets(parent) + (Octets(Word(U32(it.sec)) + Word(U32(it.nsec)))
    + ([0x02, |credit|] + credit + ([0x02, |collateral|] + collateral + (Octets(it.body)
    + (Octets(if stage == REQUEST then [] else request)
    + ([0x01, 0x01, if it.response && stage != REQUEST then 0xff else 0x00]
    + Octets(if stage == FINAL then response else [])))))))
  }

  lemma ShortTlv(tag: byte, content: seq<byte>)
    requires |content| < 0x80
    ensures Tlv(tag, content) == [tag, |content|] + content
  {
  }

  lemma EightFields(f: seq<seq<byte>>)
    requires |f| == 8
    ensures WriteFields(ENTRY_TAGS, f)
            == Tlv(0x04, f[0]) + (Tlv(0x04, f[1]) + (Tlv(0x02, f[2]) + (Tlv(0x02, f[3]) + (Tlv(0x04, f[4])
               + (Tlv(0x04, f[5]) + (Tlv(0x01, f[6]) + Tlv(0x04, f[7])))))))
  {
    hide Tlv;
    FourFields(ENTRY_TAGS, f);
    FourFields(ENTRY_TAGS[4..], f[4..]);
    assert WriteFields(ENTRY_TAGS[4..][4..], f[4..][4..]) == [];
  }

  lemma FourFields(tags: seq<byte>, f: seq<seq<byte>>)
    requires |tags| == |f| >= 4
    ensures WriteFields(tags, f)
            == Tlv(tags[0], f[0]) + (Tlv(tags[1], f[1]) + (Tlv(tags[2], f[2]) + (Tlv(tags[3], f[3])
               + WriteFields(tags[4..], f[4..]))))
  {
    hide Tlv;
    assert tags[1..][1..] == tags[2..] && f[1..][1..] == f[2..];
    assert tags[2..][1..] == tags[3..] && f[2..][1..] == f[3..];
    assert tags[3..][1..] == tags[4..] && f[3..][1..] == f[4..];
    assert WriteFields(tags[3..], f[3..]) == Tlv(tags[3], f[3]) + WriteFields(tags[4..], f[4..]);
    assert WriteFields(tags[2..], f[2..]) == Tlv(tags[2], f[2]) + WriteFields(tags[3..], f[3..]);
    assert WriteFields(tags[1..], f[1..]) == Tlv(tags[1], f[1]) + WriteFields(tags[2..], f[2..]);
  }

  predicate Short(e: Entry) {
    && |e.parent| < 0x80 && |e.timestamp| < 0x80 && |e.creditDelta| < 0x80 && |e.collateralDelta| < 0x80
    && |e.body| < 0x80 && |e.signatureRequest| < 0x80 && |e.signatureResponse| < 0x80
  }

  /** The components of any entry with short fields. */
  function EntryBody(e: Entry): seq<byte>
    requires Short(e)
  {
    Octets(e.parent) + (Octets(e.timestamp)
    + ([0x02, |e.creditDelta|] + e.creditDelta + ([0x02, |e.collateralDelta|] + e.collateralDelta + (Octets(e.body)
    + (Octets(e.signatureRequest) + ([0x01, 0x01, if e.response then 0xff else 0x00]
    + Octets(e.signatureResponse)))))))
  }

  lemma EntryLayout(e: Entry)
    requires Short(e)
    ensures EncodeEntry(e) == [0x30] + EncodeLength(|EntryBody(e)|) + EntryBody(e)
  {
    hide Tlv, WriteFields, EncodeLength;
    EightFields(EntryFields(e));
    ShortTlv(0x04, e.parent);
    ShortTlv(0x04, e.timestamp);
    ShortTlv(0x02, e.creditDelta);
    ShortTlv(0x02, e.collateralDelta);
    ShortTlv(0x04, e.body);
    ShortTlv(0x04, e.signatureRequest);
    ShortTlv(0x01, EntryFields(e)[6]);
    ShortTlv(0x04, e.signatureResponse);
    FlagTlv(e.response);
    SequenceTlv(WriteFields(ENTRY_TAGS, EntryFields(e)));
  }

  lemma FlagTlv(flag: bool)
    ensures var c: seq<byte> := [if flag then 0xff else 0x00];
            [0x01, |c|] + c == [0x01, 0x01, if flag then 0xff else 0x00]
  {
  }

  /** An item at any stage, octet by octet. */
  lemma ItemLayout(env: Env, prev: Option<Item>, it: Item, stage: Stage)
    ensures var body := ItemBody(if prev.None? then ZERO else env.parentRef(prev.value), it, stage);
            SerializeItem(env, prev, it, stage) == [0x30] + EncodeLength(|body|) + body
  {
    var e := EntryOf(env, prev, it, stage);
    ItemIsShort(env, prev, it, stage);
    hide EncodeEntry, EncodeLength, EntryOf, EntryBody, Short, ItemBody;
    EntryLayout(e);
  }

  lemma ItemIsShort(env: Env, prev: Option<Item>, it: Item, stage: Stage)
    ensures var e := EntryOf(env, prev, it, stage);
            Short(e) && EntryBody(e) == ItemBody(if prev.None? then ZERO else env.parentRef(prev.value), it, stage)
  {
    hide Octets, IntOctets, Word;
  }

  lemma SequenceTlv(body: seq<byte>)
    ensures Tlv(SEQUENCE, body) == [0x30] + EncodeLength(|body|) + body
  {
  }

  /** A head, octet by octet; `h.uoa` counts up to its NUL. */
  lemma HeadLayout(h: Head)
    ensures var unit := CStr(h.uoa);
            var body := [0x0c, |unit|] + unit
                        + ([0x02, 0x01, h.decimals] + (Octets(h.alice) + (Octets(h.bob) + Octets(h.body))));
            SerializeHead(h) == [0x30] + EncodeLength(|body|) + body
  {
    var f := HeadFields(HeadEntryOf(h));
    hide Tlv, CStr, EncodeLength;
    FourFields(HEAD_TAGS, f);
    assert WriteFields(HEAD_TAGS[4..], f[4..]) == Tlv(0x04, f[4]) + WriteFields([], []) == Tlv(0x04, f[4]);
    ShortTlv(0x0c, f[0]);
    ShortTlv(0x02, f[1]);
    ShortTlv(0x04, f[2]);
    ShortTlv(0x04, f[3]);
    ShortTlv(0x04, f[4]);
    SequenceTlv(WriteFields(HEAD_TAGS, f));
  }

  /** A bundle is a SEQUENCE of the two. */
  lemma BundleLayout(env: Env, l: LedgerState, stage: Stage)
    requires l.items != []
    ensures var n := |l.items| - 1;
            var body := SerializeHead(l.head) + SerializeItem(env, l.Prev(n), l.items[n], stage);
            SerializeOpen(env, l, stage) == [0x30] + EncodeLength(|body|) + body
  {
    hide SerializeHead, SerializeItem, EncodeLength;
  }

  // ---- reading any octets

  /** When the item reader accepts: well-formed octets, a good response signature if there is one, and no field longer
      than its buffer. */
  lemma ReadAccepts(env: Env, p: Party, data: seq<byte>, who: Initiator, st: Stack)
    ensures ReadItem(env, p, data, who, st).ok
            <==> && DecodeEntry(data).Some?
                 && var e := DecodeEntry(data).value;
                 && ResponseVerifies(env, if who == BOB then p.alice else p.bob, p.digest, e, st.sig)
                 && |e.creditDelta| <= 4 && |e.collateralDelta| <= 4 && |e.timestamp| <= 8 && |e.body| <= 64
                 && |e.signatureRequest| <= 64
  {
    hide IntOf, BE, DecodeEntry, ResponseVerifies, EncodeEntry;
    if DecodeEntry(data).Some? {
      EntryWrites(data);
      ResponseFits(env, p.ResponseKey(who), p.digest, DecodeEntry(data).value, st.sig);
    }
  }

  lemma ResponseFits(env: Env, key: Key, digest: Digest, e: Entry, sig: Digest)
    ensures ResponseVerifies(env, key, digest, e, sig) ==> |e.signatureResponse| <= 64
  {
  }

  /** Full-size fields, with this parent, as a writer at `stage` leaves them. */
  predicate FullSize(e: Entry, parent: Digest, stage: Stage) {
    && e.parent == parent && |e.timestamp| == 8 && |e.body| == 64
    && |e.creditDelta| <= 4 && |e.collateralDelta| <= 4
    && (if stage == REQUEST then e.signatureRequest == [] && !e.response else |e.signatureRequest| == 64)
    && (if stage == FINAL then |e.signatureResponse| == 64 else e.signatureResponse == [])
  }

  /** Octets that are accepted and have full-size fields are exactly what the item they become is written as. */
  lemma ReadThenWrite(
      env: Env, p: Party, data: seq<byte>, who: Initiator, st: Stack, prev: Option<Item>, stage: Stage)
    requires ReadItem(env, p, data, who, st).ok && DecodeEntry(data).Some?
    requires FullSize(DecodeEntry(data).value, if prev.None? then ZERO else env.parentRef(prev.value), stage)
    ensures SerializeItem(env, prev, ReadItem(env, p, data, who, st).item, stage) == data
  {
    hide EncodeEntry, DecodeEntry, ReadItem, EntryOf;
    EntryWrites(data);
    var e := DecodeEntry(data).value;
    AcceptedIsFilled(env, p, data, who, st);
    FilledWrites(env, prev, e, who, st.tmp, stage);
  }

  lemma AcceptedIsFilled(env: Env, p: Party, data: seq<byte>, who: Initiator, st: Stack)
    requires ReadItem(env, p, data, who, st).ok
    ensures DecodeEntry(data).Some? && IsMinimal(DecodeEntry(data).value.creditDelta)
            && IsMinimal(DecodeEntry(data).value.collateralDelta)
    ensures FillItem(DecodeEntry(data).value, BLANK.(initiator := who.Acting()), st.tmp)
            == ReadItem(env, p, data, who, st)
  {
    hide FillItem, ResponseVerifies, DecodeEntry, EncodeEntry;
    if DecodeEntry(data).Some? {
      EntryWrites(data);
    }
  }

  lemma DeltasFill(e: Entry, it: Item)
    requires 0 < |e.creditDelta| <= 4 && 0 < |e.collateralDelta| <= 4
    ensures FillDeltas(e, it)
            == Parsed(true, it.WithCredit(IntOf(e.creditDelta)).WithCollateral(IntOf(e.collateralDelta)))
  {
    hide IntOf;
  }

  lemma TimeFills(e: Entry, it: Item, tmp: Digest)
    requires |e.timestamp| == 8 && |e.body| == 64
    ensures FillTimeAndBody(e, it, tmp)
            == Parsed(true, it.(response := e.response || it.response, sec := BE(e.timestamp[..4]),
                                nsec := BE(e.timestamp[4..]), body := e.body))
  {
    var t := TimeBuffer(e, tmp);
    assert t[..4] == e.timestamp[..4] && t[4..8] == e.timestamp[4..];
    hide BE, Flipped;
  }

  function Slot(signature: seq<byte>): Digest
    requires |signature| == 64 || signature == []
  {
    if signature == [] then ZERO else signature
  }

  lemma SignaturesFill(e: Entry, it: Item)
    requires |e.signatureRequest| == 64 || e.signatureRequest == []
    requires |e.signatureResponse| == 64 || e.signatureResponse == []
    requires it.RequestSignature() == ZERO == it.ResponseSignature()
    ensures FillSignatures(e, it)
            == Parsed(true, it.WithRequest(Slot(e.signatureRequest)).WithResponse(Slot(e.signatureResponse)))
  {
    assert Overlay(ZERO, []) == ZERO;
  }

  lemma TimestampOf(ts: seq<byte>)
    requires |ts| == 8
    ensures KeyPart(BE(ts[..4]), BE(ts[4..])) == ts
  {
    hide Word, BE, KeyPart;
    var a, b := ts[..4], ts[4..];
    WordOfBE(a);
    WordOfBE(b);
    KeyPartOfWords(BE(a), BE(b));
    assert ts == a + b;
  }

  lemma FilledWrites(env: Env, prev: Option<Item>, e: Entry, who: Initiator, tmp: Digest, stage: Stage)
    requires IsMinimal(e.creditDelta) && IsMinimal(e.collateralDelta)
    requires FullSize(e, if prev.None? then ZERO else env.parentRef(prev.value), stage)
    ensures var r := FillItem(e, BLANK.(initiator := who.Acting()), tmp);
            r.ok && EntryOf(env, prev, r.item, stage) == e
  {
    var blank := BLANK.(initiator := who.Acting());
    var it1 := blank.WithCredit(IntOf(e.creditDelta)).WithCollateral(IntOf(e.collateralDelta));
    var it2 := it1.(response := e.response || it1.response, sec := BE(e.timestamp[..4]), nsec := BE(e.timestamp[4..]),
                    body := e.body);
    DeltasFill(e, blank);
    TimeFills(e, it1, tmp);
    SignaturesFill(e, it2);
    IntOctetsOfIntOf(e.creditDelta);
    IntOctetsOfIntOf(e.collateralDelta);
    TimestampOf(e.timestamp);
    hide IntOctets, IntOf, BE, KeyPart, FillDeltas, FillTimeAndBody, FillSignatures;
  }

  /** The response check, in full: nothing to check, or at most 1024 octets with the response signature taken out,
      signed after the head digest; a short signature is completed by what the buffer held. */
  lemma ResponseCheckExactly(env: Env, key: Key, digest: Digest, e: Entry, sig: Digest)
    ensures var der := EncodeEntry(e.(signatureResponse := []));
            ResponseVerifies(env, key, digest, e, sig)
            <==> || e.signatureResponse == []
                 || (&& |e.signatureResponse| <= 64 && |der| <= 1024
                     && env.verifies(key, env.hash(digest + der), e.signatureResponse + sig[|e.signatureResponse|..]))
  {
    hide EncodeEntry;
  }

  /** With no timestamp octets the time is read from the flag's text, still in the buffer: "TRUE", "FALS". */
  lemma StaleTime(e: Entry, it: Item, tmp: Digest)
    requires e.timestamp == [] && FillTimeAndBody(e, it, tmp).ok
    ensures FillTimeAndBody(e, it, tmp).item.sec == if e.response then 0x5452_5545 else 0x4641_4c53
  {
    var t := TimeBuffer(e, tmp);
    assert t[..4] == if e.response then [0x54, 0x52, 0x55, 0x45] else [0x46, 0x41, 0x4c, 0x53];
    BEOfFour(t[..4]);
    hide BE, Flipped;
  }

  /** When the head reader accepts: a unit and keys no longer than their buffers, exactly one octet of decimals. The
      fields it takes replace the front of what the struct held, and the digest is that of the result; refused octets
      leave digest and content key alone. */
  lemma HeadAccepts(env: Env, was: Head, digest: Digest, data: seq<byte>, junk: Digest)
    ensures var r := ReadHead(env, was, digest, data, junk);
            && (r.ok <==> && DecodeHead(data).Some?
                          && var t := DecodeHead(data).value;
                          && |t.uoa| <= 64 && |t.uoaDecimals| == 1 && |t.alicePubKey| <= 32 && |t.bobPubKey| <= 32
                          && |t.body| <= 64)
            && (!r.ok ==> r.digest == digest && r.head.body == was.body)
            && (r.ok ==>
                  var t := DecodeHead(data).value;
                  && r.head.uoa == t.uoa + was.uoa[|t.uoa|..] && r.head.decimals == t.uoaDecimals[0]
                  && r.head.alice == t.alicePubKey + was.alice[|t.alicePubKey|..]
                  && r.head.bob == t.bobPubKey + was.bob[|t.bobPubKey|..]
                  && r.head.body == t.body + junk[|t.body|..] && r.digest == env.hash(SerializeHead(r.head)))
  {
    hide DecodeHead, SerializeHead;
  }

  /** A refused head leaves behind the fields before the first bad one. */
  lemma HeadRefused(env: Env, was: Head, digest: Digest, data: seq<byte>, junk: Digest)
    requires DecodeHead(data).Some? && !ReadHead(env, was, digest, data, junk).ok
    ensures var t, h := DecodeHead(data).value, ReadHead(env, was, digest, data, junk).head;
            && (h.uoa == was.uoa || (|t.uoa| <= 64 && h.uoa == t.uoa + was.uoa[|t.uoa|..]))
            && (h.decimals != was.decimals ==> |t.uoa| <= 64 && [h.decimals] == t.uoaDecimals)
            && (h.alice != was.alice ==>
                  |t.alicePubKey| <= 32 && h.alice == t.alicePubKey + was.alice[|t.alicePubKey|..])
            && (h.bob != was.bob ==>
                  |t.bobPubKey| <= 32 < 64 < |t.body| && h.bob == t.bobPubKey + was.bob[|t.bobPubKey|..])
  {
    hide DecodeHead, SerializeHead;
  }

  /** Octets that are accepted, with full keys and content key and a unit without NUL, are exactly what the head they
      become in an empty struct is written as. */
  lemma HeadReadThenWrite(env: Env, data: seq<byte>, junk: Digest)
    requires ReadHead(env, NO_HEAD, ZERO, data, junk).ok && DecodeHead(data).Some?
    requires var t := DecodeHead(data).value;
             |t.alicePubKey| == 32 && |t.bobPubKey| == 32 && |t.body| == 64 && 0 !in t.uoa
    ensures SerializeHead(ReadHead(env, NO_HEAD, ZERO, data, junk).head) == data
  {
    hide ReadHead, DecodeHead, EncodeHead, HeadEntryOf, SerializeHead;
    HeadWrites(data);
    HeadAccepts(env, NO_HEAD, ZERO, data, junk);
    var h, t := ReadHead(env, NO_HEAD, ZERO, data, junk).head, DecodeHead(data).value;
    assert NO_HEAD.uoa[|t.uoa|..] == Zeros(64 - |t.uoa|);
    HeadFromTree(h, t);
  }

  lemma HeadFromTree(h: Head, t: HeadEntry)
    requires |t.uoa| <= 64 && 0 !in t.uoa && h.uoa == t.uoa + Zeros(64 - |t.uoa|)
    requires [h.decimals] == t.uoaDecimals && h.alice == t.alicePubKey && h.bob == t.bobPubKey && h.body == t.body
    ensures HeadEntryOf(h) == t && SerializeHead(h) == EncodeHead(t)
  {
    CStrOfPadded(t.uoa, 64 - |t.uoa|);
    hide CStr, EncodeHead;
  }

  /** Who a receiver takes the initiator to be: Alice when the head's first key is its own, nobody when it is not and
      the second key is all zeros, Bob otherwise. */
  lemma InitiatorIsLocal(h: Head, me: Key)
    ensures LocalInitiator(h, me) == ALICE <==> h.alice == me
    ensures LocalInitiator(h, me) == NOONE <==> h.alice != me && forall i :: 0 <= i < 32 ==> h.bob[i] == 0
  {
    if forall i :: 0 <= i < 32 ==> h.bob[i] == 0 {
      assert h.bob == Zeros(32);
    }
  }

  /** When a bundle is accepted: two elements or more, neither of the first two over 1024 octets, the first a head, the
      second an item the reader takes under that head. */
  lemma OpenAccepts(env: Env, me: Key, data: seq<byte>, junk: Digest, st: Stack)
    ensures ParseOpen(env, me, data, junk, st).ok
            <==> && DecodeBundle(data).Some?
                 && var parts := DecodeBundle(data).value;
                 && |parts| >= 2 && |parts[0]| <= 1024 && |parts[1]| <= 1024
                 && var r := ReadHead(env, NO_HEAD, ZERO, parts[0], junk);
                 && r.ok
                 && var keys := Party(r.digest, r.head.alice, r.head.bob);
                 && ReadItem(env, keys, parts[1], LocalInitiator(r.head, me), st).ok
    ensures !ParseOpen(env, me, data, junk, st).ok ==>
              |ParseOpen(env, me, data, junk, st).ledger.items| <= 1
  {
    hide DecodeBundle, ReadHead, ReadItem, LocalInitiator;
  }

  /** A bundle of a head alone is refused with the head taken; an empty one, or one whose head is too long, with
      nothing. */
  lemma OpenHeadOnly(env: Env, me: Key, data: seq<byte>, junk: Digest, st: Stack)
    requires DecodeBundle(data).Some?
    ensures var parts, l := DecodeBundle(data).value, ParseOpen(env, me, data, junk, st).ledger;
            && (|parts| == 0 || |parts[0]| > 1024 ==> l == LedgerState(NO_HEAD, ZERO, [], None))
            && (|parts| >= 1 && |parts[0]| <= 1024 ==>
                  var r := ReadHead(env, NO_HEAD, ZERO, parts[0], junk); l.head == r.head && l.digest == r.digest)
  {
    hide DecodeBundle, ReadHead, ReadItem, LocalInitiator;
  }

  /** Octets that do not decode, or whose response signature is bad, leave an item of zeros that knows its initiator. */
  lemma RefusedIsBlank(env: Env, p: Party, data: seq<byte>, who: Initiator, st: Stack)
    requires DecodeEntry(data).None?
             || !ResponseVerifies(env, p.ResponseKey(who), p.digest, DecodeEntry(data).value, st.sig)
    ensures ReadItem(env, p, data, who, st)
            == Parsed(false, Item(0, 0, 0, 0, 0, 0, if who == BOB then BOB else ALICE, false, ZERO, ZERO, ZERO))
  {
    hide DecodeEntry, ResponseVerifies;
  }

  /** A stored item ends in 1 when Bob is its initiator, in 0 otherwise. */
  lemma StoredFlag(env: Env, prev: Option<Item>, it: Item)
    ensures SerializeItemDb(env, prev, it)
            == SerializeItem(env, prev, it, FINAL) + [if it.initiator == BOB then 1 else 0]
  {
    hide SerializeItem;
  }
}
