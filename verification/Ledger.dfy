/** Values of src/ledger.c: heads, items, their serialisations, the parser and the messages that get signed. The
    stateful ledger object of LedgerObject.dfy is proved against these functions. */
module LedgerValues {
  import opened Bytes
  import opened Endian
  import opened Schema

  datatype Initiator = NOONE | ALICE | BOB {
    /** The parser's and serialiser's reading: whoever is not BOB acts as ALICE. */
    function Acting(): Initiator {
      if BOB? then BOB else ALICE
    }

    function Other(): Initiator {
      match this
      case NOONE => NOONE
      case ALICE => BOB
      case BOB => ALICE
    }
  }

  datatype Stage = REQUEST | RESPONSE | FINAL {
    function Rank(): nat {
      match this
      case REQUEST => 0
      case RESPONSE => 1
      case FINAL => 2
    }
  }

  /** struct kee_ledger_item_t without its link. A signature of zero bytes means "not signed". */
  datatype Item = Item(
    aliceCredit: int32, bobCredit: int32, aliceCollateral: int32, bobCollateral: int32, sec: int, nsec: int,
    initiator: Initiator, response: bool, aliceSignature: Digest, bobSignature: Digest, body: Digest)
  {
    function Credit(): int32 { if initiator.BOB? then bobCredit else aliceCredit }
    function Collateral(): int32 { if initiator.BOB? then bobCollateral else aliceCollateral }
    function RequestSignature(): Digest { if initiator.BOB? then bobSignature else aliceSignature }
    function ResponseSignature(): Digest { if initiator.BOB? then aliceSignature else bobSignature }

    function WithCredit(v: int32): Item { if initiator.BOB? then this.(bobCredit := v) else this.(aliceCredit := v) }
    function WithCollateral(v: int32): Item {
      if initiator.BOB? then this.(bobCollateral := v) else this.(aliceCollateral := v)
    }
    function WithRequest(s: Digest): Item {
      if initiator.BOB? then this.(bobSignature := s) else this.(aliceSignature := s)
    }
    function WithResponse(s: Digest): Item {
      if initiator.BOB? then this.(aliceSignature := s) else this.(bobSignature := s)
    }

    /** kee_ledger_item_state (ledger.c:1394-1418). */
    function State(): Stage {
      if RequestSignature() == ZERO then REQUEST
      else if ResponseSignature() == ZERO then RESPONSE
      else FINAL
    }

    /** The same item seen from the other side of the table. */
    function Mirror(): Item {
      Item(bobCredit, aliceCredit, bobCollateral, aliceCollateral, sec, nsec, initiator.Other(), response, bobSignature,
           aliceSignature, body)
    }
  }

  const BLANK := Item(0, 0, 0, 0, 0, 0, NOONE, false, ZERO, ZERO, ZERO)

  type Uoa = u: seq<byte> | |u| == 64 witness Zeros(64)

  /** The serialised fields of struct kee_ledger_t; `uoa` is the whole char[64]. */
  datatype Head = Head(uoa: Uoa, decimals: byte, alice: Key, bob: Key, body: Digest)

  const NO_HEAD := Head(Zeros(64), 0, Zeros(32), Zeros(32), ZERO)

  /** SHA-512, the EdDSA check, and the 64 bytes an item writes for its predecessor (ledger.c:684-688). */
  datatype Env = Env(hash: seq<byte> -> Digest, verifies: (Key, Digest, Digest) -> bool, parentRef: Item -> Digest)

  ghost predicate Collides(env: Env, a: seq<byte>, b: seq<byte>) {
    a != b && env.hash(a) == env.hash(b)
  }

  /** What the C stack buffers `tmp` and `sig_data` happened to hold before a read shorter than the buffer. */
  datatype Stack = Stack(tmp: Digest, sig: Digest)

  // ---- heads

  /** A C string: up to the first NUL, or the whole buffer (the struct's next byte is zero padding). */
  function CStr(s: seq<byte>): (r: seq<byte>)
    ensures |r| <= |s| && r == s[..|r|] && 0 !in r && (|r| < |s| ==> s[|r|] == 0)
  {
    if s == [] || s[0] == 0 then [] else [s[0]] + CStr(s[1..])
  }

  function HeadEntryOf(h: Head): HeadEntry {
    HeadEntry(CStr(h.uoa), [h.decimals], h.alice, h.bob, h.body)
  }

  /** kee_ledger_serialize (ledger.c:609-660). */
  function SerializeHead(h: Head): seq<byte> {
    EncodeHead(HeadEntryOf(h))
  }

  function HeadDigest(env: Env, h: Head): Digest {
    env.hash(SerializeHead(h))
  }

  datatype HeadRead = HeadRead(ok: bool, head: Head, digest: Digest)

  /** kee_ledger_parse (ledger.c:527-596) over a struct that held `was`; `junk` is the stack buffer for the content key.
      A field longer than its buffer is an error, a shorter one leaves the buffer's tail alone. */
  function ReadHead(env: Env, was: Head, digest: Digest, data: seq<byte>, junk: Digest): HeadRead {
    match DecodeHead(data)
    case None => HeadRead(false, was, digest)
    case Some(t) =>
      if |t.uoa| > 64 then HeadRead(false, was, digest) else
      var h1 := was.(uoa := Overlay(was.uoa, t.uoa));
      if |t.uoaDecimals| != 1 then HeadRead(false, h1, digest) else
      var h2 := h1.(decimals := t.uoaDecimals[0]);
      if |t.alicePubKey| > 32 then HeadRead(false, h2, digest) else
      var h3 := h2.(alice := Overlay(was.alice, t.alicePubKey));
      if |t.bobPubKey| > 32 then HeadRead(false, h3, digest) else
      var h4 := h3.(bob := Overlay(was.bob, t.bobPubKey));
      if |t.body| > 64 then HeadRead(false, h4, digest) else
      var h5 := h4.(body := Overlay(junk, t.body));
      HeadRead(true, h5, HeadDigest(env, h5))
  }

  /** The unit of account cut at its NUL and zero-filled: all the wire form keeps of a head. */
  function Canonical(h: Head): Head {
    h.(uoa := Overlay(Zeros(64), CStr(h.uoa)))
  }

  lemma HeadFits(h: Head)
    ensures |SerializeHead(h)| <= 265
  {
    HeadSize(HeadEntryOf(h));
  }

  lemma {:induction false} CStrOfPadded(s: seq<byte>, n: nat)
    requires 0 !in s
    ensures CStr(s + Zeros(n)) == s
  {
    var t := s + Zeros(n);
    if s != [] {
      assert t[1..] == s[1..] + Zeros(n);
      CStrOfPadded(s[1..], n);
    }
  }

  lemma CanonicalSerializesAlike(h: Head)
    ensures SerializeHead(Canonical(h)) == SerializeHead(h)
    ensures Canonical(Canonical(h)) == Canonical(h) && Canonical(h).alice == h.alice && Canonical(h).bob == h.bob
  {
    var u := CStr(h.uoa);
    assert Overlay(Zeros(64), u) == u + Zeros(64 - |u|);
    CStrOfPadded(u, 64 - |u|);
  }

  /** A head survives the wire up to what follows the NUL of its unit string, and its digest with it. */
  lemma HeadRoundTrip(env: Env, h: Head, digest: Digest, junk: Digest)
    ensures ReadHead(env, NO_HEAD, digest, SerializeHead(h), junk) == HeadRead(true, Canonical(h), HeadDigest(env, h))
  {
    HeadFits(h);
    HeadReads(HeadEntryOf(h));
    CanonicalSerializesAlike(h);
  }

  lemma HeadInjective(a: Head, b: Head)
    requires SerializeHead(a) == SerializeHead(b)
    ensures Canonical(a) == Canonical(b)
  {
    HeadFits(a);
    HeadFits(b);
    HeadReads(HeadEntryOf(a));
    HeadReads(HeadEntryOf(b));
  }

  // ---- items to bytes

  /** kee_ledger_item_serialize (ledger.c:662-796) up to the encoder call. */
  function EntryOf(env: Env, prev: Option<Item>, it: Item, stage: Stage): Entry {
    Entry(
      if prev.None? then ZERO else env.parentRef(prev.value),
      KeyPart(it.sec, it.nsec),
      IntOctets(it.Credit()),
      IntOctets(it.Collateral()),
      it.body,
      if stage.REQUEST? then [] else it.RequestSignature(),
      it.response && stage.Rank() > REQUEST.Rank(),
      if stage.FINAL? then it.ResponseSignature() else [])
  }

  function SerializeItem(env: Env, prev: Option<Item>, it: Item, stage: Stage): seq<byte> {
    EncodeEntry(EntryOf(env, prev, it, stage))
  }

  /** The bytes kee_ledger_sign and verify_item hash: head digest, then the struct's own serialisation. */
  function Message(env: Env, h: Head, prev: Option<Item>, it: Item, stage: Stage): seq<byte> {
    HeadDigest(env, h) + SerializeItem(env, prev, it, stage)
  }

  /** get_message_asn (ledger.c:31-130): the decoded tree with the signatures later than `stage` cleared. */
  function Cleared(e: Entry, stage: Stage): Entry {
    var e1 := if stage.FINAL? then e else e.(signatureResponse := []);
    if stage.REQUEST? then e1.(signatureRequest := []) else e1
  }

  function MessageAsn(digest: Digest, e: Entry, stage: Stage): Option<seq<byte>> {
    var der := EncodeEntry(Cleared(e, stage));
    if |der| > 1024 then None else Some(digest + der)
  }

  /** Every serialised item fits the 960 and 1024 byte buffers its callers offer. */
  lemma ItemFits(env: Env, prev: Option<Item>, it: Item, stage: Stage)
    ensures |SerializeItem(env, prev, it, stage)| <= 327
    ensures Encodable(EntryOf(env, prev, it, stage))
    ensures DecodeEntry(SerializeItem(env, prev, it, stage)) == Some(EntryOf(env, prev, it, stage))
  {
    var e := EntryOf(env, prev, it, stage);
    EntrySize(e);
    EntryReads(e);
  }

  /** The two routes to the signed bytes. From a stored or received FINAL encoding the tree route rebuilds exactly what
      the struct route signs, for the response always; for the request only when the response flag is unset, because
      the struct route blanks the flag and the tree route copies it. */
  lemma RoutesAgree(env: Env, h: Head, prev: Option<Item>, it: Item)
    ensures DecodeEntry(SerializeItem(env, prev, it, FINAL)).Some?
    ensures var e := DecodeEntry(SerializeItem(env, prev, it, FINAL)).value;
            && MessageAsn(HeadDigest(env, h), e, RESPONSE) == Some(Message(env, h, prev, it, RESPONSE))
            && (MessageAsn(HeadDigest(env, h), e, REQUEST) == Some(Message(env, h, prev, it, REQUEST))
                <==> !it.response)
  {
    hide EncodeEntry, EntryOf, Cleared, Encodable, HeadDigest;
    ItemFits(env, prev, it, FINAL);
    ItemFits(env, prev, it, RESPONSE);
    ItemFits(env, prev, it, REQUEST);
    ClearedTrees(env, prev, it);
    var c, d := Cleared(EntryOf(env, prev, it, FINAL), REQUEST), HeadDigest(env, h);
    var r := EntryOf(env, prev, it, REQUEST);
    if d + EncodeEntry(c) == d + EncodeEntry(r) {
      MessageInjective(d, c, d, r);
    }
  }

  lemma ClearedTrees(env: Env, prev: Option<Item>, it: Item)
    ensures var e := EntryOf(env, prev, it, FINAL);
            && Cleared(e, RESPONSE) == EntryOf(env, prev, it, RESPONSE)
            && (Cleared(e, REQUEST) == EntryOf(env, prev, it, REQUEST) <==> !it.response)
            && Encodable(Cleared(e, REQUEST)) && |EncodeEntry(Cleared(e, REQUEST))| <= 1024
  {
    EntrySize(Cleared(EntryOf(env, prev, it, FINAL), REQUEST));
    hide EncodeEntry;
  }

  /** Messages are equal only for equal head digests and entries: a fixed 64-byte prefix and an injective codec. */
  lemma MessageInjective(d: Digest, e: Entry, d': Digest, e': Entry)
    requires Encodable(e) && Encodable(e')
    requires d + EncodeEntry(e) == d' + EncodeEntry(e')
    ensures d == d' && e == e'
  {
    assert d == (d + EncodeEntry(e))[..64] && d' == (d' + EncodeEntry(e'))[..64];
    assert EncodeEntry(e) == (d + EncodeEntry(e))[64..] && EncodeEntry(e') == (d' + EncodeEntry(e'))[64..];
    EntryInjective(e, e');
  }

  /** Both sides of the table serialise an item to the same bytes. */
  lemma MirrorSerializesAlike(env: Env, prev: Option<Item>, it: Item, stage: Stage)
    requires it.initiator != NOONE
    ensures SerializeItem(env, prev, it.Mirror(), stage) == SerializeItem(env, prev, it, stage)
    ensures it.Mirror().Mirror() == it && it.Mirror().State() == it.State()
  {
    assert EntryOf(env, prev, it.Mirror(), stage) == EntryOf(env, prev, it, stage);
  }

  // ---- bytes to items

  datatype Party = Party(digest: Digest, alice: Key, bob: Key) {
    function RequestKey(who: Initiator): Key { if who.BOB? then bob else alice }
    function ResponseKey(who: Initiator): Key { if who.BOB? then alice else bob }
  }

  /** verify_item_asn (ledger.c:227-255): only a response signature is looked at, and only when it is not empty. */
  predicate ResponseVerifies(env: Env, key: Key, digest: Digest, e: Entry, sigData: Digest) {
    && |e.signatureResponse| <= 64
    && (e.signatureResponse != [] ==>
          && MessageAsn(digest, e, RESPONSE).Some?
          && env.verifies(key, env.hash(MessageAsn(digest, e, RESPONSE).value), Overlay(sigData, e.signatureResponse)))
  }

  datatype Parsed = Parsed(ok: bool, item: Item)

  /** kee_ledger_parse_item (ledger.c:352-486). On failure `item` is what the linked struct is left holding. */
  function ReadItem(env: Env, p: Party, data: seq<byte>, who: Initiator, st: Stack): Parsed {
    var it := BLANK.(initiator := who.Acting());
    match DecodeEntry(data)
    case None => Parsed(false, it)
    case Some(e) =>
      if !ResponseVerifies(env, p.ResponseKey(who), p.digest, e, st.sig) then Parsed(false, it)
      else EntryWrites(data); FillItem(e, it, st.tmp)
  }

  const TRUE_TEXT: seq<byte> := [0x54, 0x52, 0x55, 0x45, 0x00]
  const FALSE_TEXT: seq<byte> := [0x46, 0x41, 0x4c, 0x53, 0x45, 0x00]

  /** The 64-byte `tmp` buffer after the flag and the timestamp were read into it. */
  function TimeBuffer(e: Entry, tmp: Digest): Digest
    requires |e.timestamp| <= 8
  {
    Overlay(Overlay(tmp, if e.response then TRUE_TEXT else FALSE_TEXT), e.timestamp)
  }

  /** ... and after the two words in it were flipped to host order. */
  function Flipped(t: Digest): Digest {
    Reversed(t[..4]) + Reversed(t[4..8]) + t[8..]
  }

  function FillDeltas(e: Entry, it: Item): Parsed
    requires e.creditDelta != [] && e.collateralDelta != []
  {
    if |e.creditDelta| > 4 then Parsed(false, it) else
    var it1 := it.WithCredit(IntOf(e.creditDelta));
    if |e.collateralDelta| > 4 then Parsed(false, it1) else
    Parsed(true, it1.WithCollateral(IntOf(e.collateralDelta)))
  }

  function FillTimeAndBody(e: Entry, it: Item, tmp: Digest): Parsed {
    var it1 := it.(response := e.response || it.response);
    if |e.timestamp| > 8 then Parsed(false, it1) else
    var t := TimeBuffer(e, tmp);
    var it2 := it1.(sec := BE(t[..4]), nsec := BE(t[4..8]));
    if |e.body| > 64 then Parsed(false, it2) else
    Parsed(true, it2.(body := Overlay(Flipped(t), e.body)))
  }

  function FillSignatures(e: Entry, it: Item): Parsed {
    if |e.signatureRequest| > 64 then Parsed(false, it) else
    var it1 := it.WithRequest(Overlay(it.RequestSignature(), e.signatureRequest));
    if |e.signatureResponse| > 64 then Parsed(false, it1) else
    Parsed(true, it1.WithResponse(Overlay(it1.ResponseSignature(), e.signatureResponse)))
  }

  function FillItem(e: Entry, it: Item, tmp: Digest): Parsed
    requires e.creditDelta != [] && e.collateralDelta != []
  {
    var p := FillDeltas(e, it);
    if !p.ok then p else
    var q := FillTimeAndBody(e, p.item, tmp);
    if !q.ok then q else
    FillSignatures(e, q.item)
  }

  /** What a reader who files the entry under `who` gets from an item sent at `stage`. */
  function Received(it: Item, who: Initiator, stage: Stage): Item {
    BLANK.(initiator := who.Acting(), sec := U32(it.sec), nsec := U32(it.nsec), body := it.body,
           response := it.response && stage.Rank() > REQUEST.Rank())
      .WithCredit(it.Credit()).WithCollateral(it.Collateral())
      .WithRequest(if stage.REQUEST? then ZERO else it.RequestSignature())
      .WithResponse(if stage.FINAL? then it.ResponseSignature() else ZERO)
  }

  /** An item the wire form can hold in full: a known initiator, 32-bit times, deltas of its own role only. */
  predicate WireForm(it: Item) {
    && it.initiator != NOONE && 0 <= it.sec < 0x1_0000_0000 && 0 <= it.nsec < 0x1_0000_0000
    && if it.initiator.BOB? then it.aliceCredit == 0 == it.aliceCollateral else it.bobCredit == 0 == it.bobCollateral
  }

  /** A reader gets the very item that was sent if and only if it is in wire form and filed under its own initiator. */
  lemma WireKeeps(it: Item, who: Initiator)
    ensures Received(it, who, FINAL) == it <==> WireForm(it) && it.initiator == who.Acting()
  {
  }

  /** The state a reader sees is the stage the writer meant, for an item signed by both; without a request signature
      it is REQUEST whatever else is there. */
  lemma StageIsState(it: Item, who: Initiator, stage: Stage)
    ensures it.RequestSignature() != ZERO && it.ResponseSignature() != ZERO ==>
              Received(it, who, stage).State() == stage
    ensures it.RequestSignature() == ZERO ==> Received(it, who, stage).State() == REQUEST
  {
  }

  lemma DeltasReceived(env: Env, prev: Option<Item>, it: Item, stage: Stage, blank: Item)
    ensures FillDeltas(EntryOf(env, prev, it, stage), blank)
            == Parsed(true, blank.WithCredit(it.Credit()).WithCollateral(it.Collateral()))
  {
    hide IntOf, IntOctets;
    IntRoundTrip(it.Credit());
    IntRoundTrip(it.Collateral());
  }

  lemma TimeReceived(env: Env, prev: Option<Item>, it: Item, stage: Stage, blank: Item, tmp: Digest)
    ensures FillTimeAndBody(EntryOf(env, prev, it, stage), blank, tmp)
            == Parsed(true, blank.(sec := U32(it.sec), nsec := U32(it.nsec), body := it.body,
                                   response := (it.response && stage.Rank() > REQUEST.Rank()) || blank.response))
  {
    BEOfWord(U32(it.sec));
    BEOfWord(U32(it.nsec));
    hide BE, Word, IntOctets, Flipped;
    var t := TimeBuffer(EntryOf(env, prev, it, stage), tmp);
    assert t[..4] == Word(U32(it.sec)) && t[4..8] == Word(U32(it.nsec));
  }

  lemma SignaturesReceived(env: Env, prev: Option<Item>, it: Item, stage: Stage, filled: Item)
    requires filled.RequestSignature() == ZERO == filled.ResponseSignature()
    ensures FillSignatures(EntryOf(env, prev, it, stage), filled)
            == Parsed(true, filled.WithRequest(if stage.REQUEST? then ZERO else it.RequestSignature())
                            .WithResponse(if stage.FINAL? then it.ResponseSignature() else ZERO))
  {
    hide IntOctets, KeyPart;
    assert Overlay(ZERO, []) == ZERO;
  }

  lemma FillReceived(env: Env, prev: Option<Item>, it: Item, stage: Stage, who: Initiator, tmp: Digest)
    ensures var e := EntryOf(env, prev, it, stage);
            FillItem(e, BLANK.(initiator := who.Acting()), tmp) == Parsed(true, Received(it, who, stage))
  {
    var blank := BLANK.(initiator := who.Acting());
    DeltasReceived(env, prev, it, stage, blank);
    var it1 := blank.WithCredit(it.Credit()).WithCollateral(it.Collateral());
    TimeReceived(env, prev, it, stage, it1, tmp);
    hide FillDeltas, FillTimeAndBody, FillSignatures, EntryOf;
    SignaturesReceived(env, prev, it, stage, it1.(sec := U32(it.sec), nsec := U32(it.nsec), body := it.body,
                       response := it.response && stage.Rank() > REQUEST.Rank()));
  }

  lemma ReceivedVerifies(env: Env, key: Key, digest: Digest, prev: Option<Item>, it: Item, stage: Stage, sig: Digest)
    ensures ResponseVerifies(env, key, digest, EntryOf(env, prev, it, stage), sig)
            <==> (stage.FINAL? ==>
                    env.verifies(key, env.hash(digest + SerializeItem(env, prev, it, RESPONSE)),
                                 it.ResponseSignature()))
  {
    var e := EntryOf(env, prev, it, stage);
    ItemFits(env, prev, it, RESPONSE);
    if stage.FINAL? {
      assert Cleared(e, RESPONSE) == EntryOf(env, prev, it, RESPONSE);
      assert Overlay(sig, e.signatureResponse) == it.ResponseSignature();
    }
  }

  /** Round trip: whatever is sent arrives, for every item, stage and reader. A FINAL item is taken exactly when its
      response signature verifies; a refused one leaves a blank item that only knows its initiator. */
  lemma ItemRoundTrip(env: Env, p: Party, prev: Option<Item>, it: Item, stage: Stage, who: Initiator, st: Stack)
    ensures var r := ReadItem(env, p, SerializeItem(env, prev, it, stage), who, st);
            && (r.ok <==> stage.FINAL? ==>
                  env.verifies(p.ResponseKey(who), env.hash(p.digest + SerializeItem(env, prev, it, RESPONSE)),
                               it.ResponseSignature()))
            && r.item == if r.ok then Received(it, who, stage) else BLANK.(initiator := who.Acting())
  {
    ItemFits(env, prev, it, stage);
    ReceivedVerifies(env, p.ResponseKey(who), p.digest, prev, it, stage, st.sig);
    FillReceived(env, prev, it, stage, who, st.tmp);
  }

  /** Nothing of an item that its stage covers is lost or merged on the wire. */
  lemma ItemInjective(env: Env, prev: Option<Item>, a: Item, prev': Option<Item>, b: Item, stage: Stage, stage': Stage)
    requires SerializeItem(env, prev, a, stage) == SerializeItem(env, prev', b, stage')
    ensures EntryOf(env, prev, a, stage) == EntryOf(env, prev', b, stage')
    ensures stage == stage' && Received(a, ALICE, stage) == Received(b, ALICE, stage)
  {
    ItemFits(env, prev, a, stage);
    ItemFits(env, prev', b, stage');
    var e := EntryOf(env, prev, a, stage);
    assert stage.REQUEST? <==> e.signatureRequest == [];
    assert stage.FINAL? <==> e.signatureResponse != [];
    FillReceived(env, prev, a, stage, ALICE, ZERO);
    FillReceived(env, prev', b, stage, ALICE, ZERO);
  }
}
