/** The two-party signing protocol: one honest exchange, agreement over every run with an arbitrary network, and the
    life of one item's signatures. */
module Protocol {
  import opened Bytes
  import opened Endian
  import opened Schema
  import opened LedgerValues
  import opened LedgerOperations
  import Transport

  // ---- the full exchange

  /** A key holder whose signatures verify and are never the all-zero "absent" value. */
  ghost predicate Honest(env: Env, gpg: Signer) {
    forall d: Digest :: gpg.sign(d).Some? && gpg.sign(d).value != ZERO && env.verifies(gpg.key, d, gpg.sign(d).value)
  }

  function SignLast(env: Env, l: LedgerState, gpg: Signer): (r: LedgerState)
    requires l.items != []
    ensures |r.items| == |l.items|
  {
    var n := |l.items| - 1;
    l.(items := l.items[n := Sign(env, l.head, l.Prev(n), l.items[n], gpg).item])
  }

  function AcceptLast(l: LedgerState, accept: bool): (r: LedgerState)
    requires l.items != []
    ensures |r.items| == |l.items|
  {
    var n := |l.items| - 1;
    l.(items := l.items[n := l.items[n].(response := l.items[n].response || accept)])
  }

  /** The newest item, and what precedes it. */
  function Draft(l: LedgerState): Item
    requires l.items != []
  {
    l.items[|l.items| - 1]
  }

  function BeforeDraft(l: LedgerState): Option<Item>
    requires l.items != []
  {
    l.Prev(|l.items| - 1)
  }

  function SignedDraft(env: Env, l: LedgerState, gpg: Signer): Item
    requires l.items != []
  {
    Sign(env, l.head, BeforeDraft(l), Draft(l), gpg).item
  }

  /** Alice opens the exchange with a ledger of any length whose newest item is hers and unsigned. */
  ghost predicate Opening(l: LedgerState, a: Signer, b: Signer) {
    && l.head.alice == a.key && l.head.bob == b.key && a.key != b.key && b.key != Zeros(32)
    && l.items != []
    && Draft(l).initiator == ALICE && Draft(l).aliceSignature == ZERO && Draft(l).bobSignature == ZERO
  }

  /** Alice signs and sends; Bob's copy is the item filed under BOB with Alice's signature in the other slot. */
  lemma RequestArrives(env: Env, l: LedgerState, a: Signer, b: Signer, junk: Digest, st: Stack)
    requires Opening(l, a, b) && Honest(env, a)
    ensures var bob := ParseOpen(env, b.key, SerializeOpen(env, SignLast(env, l, a), RESPONSE), junk, st);
            && Sign(env, l.head, BeforeDraft(l), Draft(l), a).code == OK
            && bob == Outcome(true, BobsCopy(env, l, a)) && bob.ledger.items[0].State() == RESPONSE
  {
    hide *;
    OpeningFacts(env, l, a, b);
    SignedIsResponse(env, l, a, b);
    var alice, h := SignLast(env, l, a), Canonical(l.head);
    var cleared := LedgerState(h, HeadDigest(env, h), [], None);
    OpenReads(env, alice, RESPONSE, b.key, junk, st);
    ParseItemReceives(env, cleared, BeforeDraft(l), SignedDraft(env, l, a), RESPONSE, BOB, st);
    ResponseIsTaken(env, cleared.Keys(), BeforeDraft(l), SignedDraft(env, l, a));
  }

  function BobsCopy(env: Env, l: LedgerState, a: Signer): (r: LedgerState)
    requires l.items != []
    ensures |r.items| == 1
  {
    LedgerState(Canonical(l.head), HeadDigest(env, l.head), [Received(SignedDraft(env, l, a), BOB, RESPONSE)], None)
  }

  lemma ResponseIsTaken(env: Env, p: Party, prev: Option<Item>, it: Item)
    ensures Taken(env, p, prev, it, RESPONSE, BOB)
  {
  }

  lemma OpeningFacts(env: Env, l: LedgerState, a: Signer, b: Signer)
    requires Opening(l, a, b)
    ensures var alice, h, it := SignLast(env, l, a), Canonical(l.head), Received(SignedDraft(env, l, a), BOB, RESPONSE);
            && l.items != [] && alice.items != [] && |alice.items| == |l.items| && alice.head == l.head
            && alice.Prev(|l.items| - 1) == BeforeDraft(l) && alice.items[|l.items| - 1] == SignedDraft(env, l, a)
            && LocalInitiator(h, b.key) == BOB && HeadDigest(env, h) == HeadDigest(env, l.head)
            && ApplyCache(None, it) == None && BOB.Acting() == BOB
            && BobsCopy(env, l, a) == LedgerState(h, HeadDigest(env, h), [it], None)
  {
    hide Sign, Received, SerializeHead;
    CanonicalSerializesAlike(l.head);
  }

  lemma SignedIsResponse(env: Env, l: LedgerState, a: Signer, b: Signer)
    requires Opening(l, a, b) && Honest(env, a)
    ensures Sign(env, l.head, BeforeDraft(l), Draft(l), a).code == OK
    ensures BobsCopy(env, l, a).items[0].State() == RESPONSE
  {
    hide Message;
  }

  /** Bob answers with `accept`, signs and sends. */
  function Answer(env: Env, bob: LedgerState, b: Signer, accept: bool): (r: LedgerState)
    requires bob.items != []
    ensures |r.items| == |bob.items|
  {
    SignLast(env, AcceptLast(bob, accept), b)
  }

  function Answered(it: Item, accept: bool): Item {
    it.(response := it.response || accept)
  }

  /** Bob's signature on an item in Alice's view. */
  function Countersigned(env: Env, h: Head, it: Item, b: Signer): Item {
    match b.sign(env.hash(Message(env, h, None, it, RESPONSE)))
    case None => it
    case Some(s) => it.(bobSignature := s)
  }

  /** The item both sides end up with, in Alice's view. */
  function Agreed(env: Env, l: LedgerState, a: Signer, b: Signer, accept: bool): Item
    requires l.items != []
  {
    Countersigned(env, Canonical(l.head), Answered(Received(SignedDraft(env, l, a), ALICE, RESPONSE), accept), b)
  }

  lemma ReceivedMirror(it: Item, stage: Stage)
    ensures Received(it, BOB, stage) == Received(it, ALICE, stage).Mirror()
  {
  }

  lemma BobSigns(env: Env, h: Head, it: Item, b: Signer)
    requires Honest(env, b) && it.initiator == ALICE && it.bobSignature == ZERO
    ensures Sign(env, h, None, it.Mirror(), b) == Signed(OK, Countersigned(env, h, it, b).Mirror())
  {
    MirrorSerializesAlike(env, None, it, RESPONSE);
  }

  lemma AnswerOf(env: Env, bob: LedgerState, b: Signer, accept: bool)
    requires |bob.items| == 1
    ensures var it := Sign(env, bob.head, None, Answered(bob.items[0], accept), b).item;
            Answer(env, bob, b, accept) == bob.(items := [it])
  {
    hide Sign;
  }

  /** Bob's signed answer is the mirror image of the agreed item. */
  lemma AnswerIsMirror(env: Env, l: LedgerState, a: Signer, b: Signer, accept: bool)
    requires Opening(l, a, b) && Honest(env, b)
    ensures var bob := BobsCopy(env, l, a);
            Answer(env, bob, b, accept) == bob.(items := [Agreed(env, l, a, b, accept).Mirror()])
  {
    var alice := SignedDraft(env, l, a);
    var it := Answered(Received(alice, ALICE, RESPONSE), accept);
    ReceivedMirror(alice, RESPONSE);
    BobSigns(env, Canonical(l.head), it, b);
    hide Sign, Message, HeadDigest, Canonical, Received, SignedDraft, Countersigned;
    AnswerOf(env, BobsCopy(env, l, a), b, accept);
    assert Answered(Received(alice, BOB, RESPONSE), accept) == it.Mirror();
  }

  lemma AgreedOnWire(env: Env, h: Head, it: Item, b: Signer, accept: bool)
    requires Honest(env, b)
    ensures var r := Countersigned(env, h, Answered(Received(it, ALICE, RESPONSE), accept), b);
            WireForm(r) && r.initiator == ALICE && r.bobSignature != ZERO && r.aliceSignature == it.RequestSignature()
  {
    hide Message;
  }

  /** A request message depends on the terms only. */
  lemma RequestDependsOnTerms(env: Env, prev: Option<Item>, it: Item, it': Item)
    requires it.Credit() == it'.Credit() && it.Collateral() == it'.Collateral() && it.body == it'.body
    requires U32(it.sec) == U32(it'.sec) && U32(it.nsec) == U32(it'.nsec)
    ensures SerializeItem(env, prev, it, REQUEST) == SerializeItem(env, prev, it', REQUEST)
  {
    assert EntryOf(env, prev, it, REQUEST) == EntryOf(env, prev, it', REQUEST);
  }

  lemma CountersignedTerms(env: Env, h: Head, it: Item, b: Signer, accept: bool)
    ensures var r := Countersigned(env, h, Answered(Received(it, ALICE, RESPONSE), accept), b);
            && r.Credit() == it.Credit() && r.Collateral() == it.Collateral() && r.body == it.body
            && U32(r.sec) == U32(it.sec) && U32(r.nsec) == U32(it.nsec)
            && r.response == (it.response || accept)
  {
    hide Message;
  }

  /** A countersignature is not part of what it signs. */
  lemma CountersignedMessage(env: Env, h: Head, it: Item, b: Signer)
    requires it.initiator == ALICE
    ensures SerializeItem(env, None, Countersigned(env, h, it, b), RESPONSE) == SerializeItem(env, None, it, RESPONSE)
  {
    assert EntryOf(env, None, Countersigned(env, h, it, b), RESPONSE) == EntryOf(env, None, it, RESPONSE);
  }

  /** Without a predecessor, or with one whose 64 bytes are zeros, the item's parent field is zero. */
  predicate ZeroParent(env: Env, l: LedgerState)
    requires l.items != []
  {
    BeforeDraft(l).Some? ==> env.parentRef(BeforeDraft(l).value) == ZERO
  }

  /** The request message Alice signed, and the one a reader rebuilds who never has the predecessor. */
  function Requested(env: Env, l: LedgerState): seq<byte>
    requires l.items != []
  {
    Message(env, l.head, BeforeDraft(l), Draft(l), REQUEST)
  }

  function Rebuilt(env: Env, l: LedgerState): seq<byte>
    requires l.items != []
  {
    Message(env, l.head, None, Draft(l), REQUEST)
  }

  /** The agreed item is complete, keeps Alice's terms and carries Bob's good signature; as a ledger it verifies if and
      only if Alice's signature is good for the rebuilt request. */
  lemma AgreedVerifies(env: Env, l: LedgerState, a: Signer, b: Signer, accept: bool)
    requires Opening(l, a, b) && Honest(env, a) && Honest(env, b)
    ensures var it, h := Agreed(env, l, a, b, accept), Canonical(l.head);
            && WireForm(it) && it.initiator == ALICE && it.State() == FINAL
            && it.response == (Draft(l).response || accept)
            && SerializeItem(env, None, it, REQUEST) == SerializeItem(env, None, Draft(l), REQUEST)
            && env.verifies(b.key, env.hash(Message(env, h, None, it, RESPONSE)), it.bobSignature)
            && it.aliceSignature == a.sign(env.hash(Requested(env, l))).value
            && (Verified(env, LedgerState(h, HeadDigest(env, h), [it], None))
                <==> env.verifies(a.key, env.hash(Rebuilt(env, l)), it.aliceSignature))
  {
    var it, h, signed := Agreed(env, l, a, b, accept), Canonical(l.head), SignedDraft(env, l, a);
    hide SerializeItem, SerializeHead, Received, Canonical, WireForm;
    CanonicalSerializesAlike(l.head);
    AgreedOnWire(env, h, signed, b, accept);
    CountersignedTerms(env, h, signed, b, accept);
    CountersignedMessage(env, h, Answered(Received(signed, ALICE, RESPONSE), accept), b);
    RequestDependsOnTerms(env, None, it, Draft(l));
    OneItemVerified(env, LedgerState(h, HeadDigest(env, h), [it], None));
  }

  lemma OneItemVerified(env: Env, l: LedgerState)
    requires |l.items| == 1 && l.items[0].initiator != NOONE && l.items[0].State() == FINAL
    ensures Verified(env, l) <==> RequestHolds(env, l, 0)
  {
    hide RequestHolds;
    assert Verified(env, l) <==> Passes(env, l, 0);
  }

  /** What was signed for digest `d` verifies for no other digest. (For all digests at once no signer could do it: there
      are as many digests as signature values, and the all-zero value is not a signature.) */
  ghost predicate SignsOnly(env: Env, gpg: Signer, d: Digest) {
    forall d': Digest :: gpg.sign(d).Some? && env.verifies(gpg.key, d', gpg.sign(d).value) ==> d' == d
  }

  /** When the rebuilt request message is the one that was signed, and what the signature check makes of it. */
  lemma RebuiltVerifies(env: Env, l: LedgerState, a: Signer)
    requires l.items != [] && Honest(env, a)
    ensures Rebuilt(env, l) == Requested(env, l) <==> ZeroParent(env, l)
    ensures var good := env.verifies(a.key, env.hash(Rebuilt(env, l)), a.sign(env.hash(Requested(env, l))).value);
            && (ZeroParent(env, l) ==> good)
            && (SignsOnly(env, a, env.hash(Requested(env, l))) ==>
                  (good <==> ZeroParent(env, l) || Collides(env, Rebuilt(env, l), Requested(env, l))))
  {
    RebuiltRequest(env, l.head, BeforeDraft(l), Draft(l));
    hide Message;
  }

  /** The honest exchange completes: for every ledger whose newest item is unsigned and every pair of honest distinct
      keys, Alice's parse of Bob's bundle succeeds, the item is FINAL with Alice's terms, and Bob holds its mirror
      image. What she then holds verifies when the item's parent is zero, as a first item's is; and if her signature is
      good for nothing but what she signed it verifies only then, or two colliding messages are at hand. */
  lemma FullExchange(
      env: Env, l: LedgerState, a: Signer, b: Signer, accept: bool, junk: Digest, st: Stack, junk': Digest, st': Stack)
    requires Opening(l, a, b) && Honest(env, a) && Honest(env, b)
    ensures var sent := SerializeOpen(env, SignLast(env, l, a), RESPONSE);
            var bob := ParseOpen(env, b.key, sent, junk, st);
            && bob.ok && |bob.ledger.items| == 1 && bob.ledger.items[0].State() == RESPONSE
            && (var bobs := Answer(env, bob.ledger, b, accept);
                var alice := ParseOpen(env, a.key, SerializeOpen(env, bobs, FINAL), junk', st');
                && alice.ok && |alice.ledger.items| == 1 && |bobs.items| == 1
                && alice.ledger.items[0].State() == FINAL
                && bobs.items[0] == alice.ledger.items[0].Mirror()
                && SerializeItem(env, None, alice.ledger.items[0], REQUEST)
                   == SerializeItem(env, None, Draft(l), REQUEST)
                && alice.ledger.items[0].response == (Draft(l).response || accept)
                && (ZeroParent(env, l) ==> Verified(env, alice.ledger))
                && (SignsOnly(env, a, env.hash(Requested(env, l))) ==>
                      (Verified(env, alice.ledger)
                       <==> ZeroParent(env, l) || Collides(env, Rebuilt(env, l), Requested(env, l)))))
  {
    assert l.items != [];
    hide *;
    CanonicalFacts(env, l, a, b);
    RequestArrives(env, l, a, b, junk, st);
    AnswerIsMirror(env, l, a, b, accept);
    AgreedVerifies(env, l, a, b, accept);
    RebuiltVerifies(env, l, a);
    FinalArrives(env, Canonical(l.head), Agreed(env, l, a, b, accept), a, b, junk', st');
  }

  lemma CanonicalFacts(env: Env, l: LedgerState, a: Signer, b: Signer)
    requires Opening(l, a, b)
    ensures var h := Canonical(l.head);
            && Canonical(h) == h && h.alice == a.key && h.bob == b.key
            && forall it :: BobsCopy(env, l, a).(items := [it]) == LedgerState(h, HeadDigest(env, h), [it], None)
  {
    hide SerializeHead;
    CanonicalSerializesAlike(l.head);
  }

  // ---- a later item whose exchange ends unverified

  /** A hash that only tells a message with a zero parent from any other. */
  function ParentHash(s: seq<byte>): Digest {
    if |s| >= 64 && DecodeEntry(s[64..]).Some? && DecodeEntry(s[64..]).value.parent == ZERO then Repeated(1)
    else Repeated(2)
  }

  /** A key pair with one signature for digest `d` and another for all others. */
  function TwoSignatures(d: Digest, key: Key): Signer {
    Signer(key, d' => Some(if d' == d then Repeated(3) else Repeated(4)))
  }

  function TwoSignaturesEnv(d: Digest, hash: seq<byte> -> Digest, parentRef: Item -> Digest): Env {
    Env(hash, (key, d', signature) => signature == if d' == d then Repeated(3) else Repeated(4), parentRef)
  }

  /** Honest signers whose signature for one digest, any digest, is good for no other do exist. */
  lemma SignsOnlyCanBe(d: Digest, key: Key, hash: seq<byte> -> Digest, parentRef: Item -> Digest)
    ensures var env, gpg := TwoSignaturesEnv(d, hash, parentRef), TwoSignatures(d, key);
            Honest(env, gpg) && SignsOnly(env, gpg, d)
  {
    assert Repeated(3)[0] == 3 && Repeated(4)[0] == 4 && ZERO[0] == 0;
  }

  function RepeatedKey(b: byte): Key {
    seq(32, _ => b)
  }

  function LaterItemEnv(): Env {
    TwoSignaturesEnv(Repeated(2), ParentHash, AnyParent)
  }

  function AnyParent(it: Item): Digest {
    Repeated(5)
  }

  /** Two blank items of Alice's under a blank head; the second is the one to be agreed. */
  function LaterItemLedger(): LedgerState {
    var it := BLANK.(initiator := ALICE);
    LedgerState(Head(Zeros(64), 0, RepeatedKey(1), RepeatedKey(2), ZERO), ZERO, [it, it], None)
  }

  lemma LaterItemDigests()
    ensures var env, l := LaterItemEnv(), LaterItemLedger();
            env.hash(Rebuilt(env, l)) == Repeated(1) && env.hash(Requested(env, l)) == Repeated(2)
  {
    var env, l := LaterItemEnv(), LaterItemLedger();
    ParentHashOf(env, l.head, None, Draft(l));
    ParentHashOf(env, l.head, BeforeDraft(l), Draft(l));
    assert Repeated(5)[0] == 5 && ZERO[0] == 0;
    hide ParentHash, Message, EntryOf;
    ParentOf(env, None, Draft(l));
    ParentOf(env, BeforeDraft(l), Draft(l));
    assert EntryOf(env, None, Draft(l), REQUEST).parent == ZERO;
    assert EntryOf(env, BeforeDraft(l), Draft(l), REQUEST).parent == Repeated(5);
  }

  lemma ParentOf(env: Env, prev: Option<Item>, it: Item)
    ensures EntryOf(env, prev, it, REQUEST).parent == if prev.None? then ZERO else env.parentRef(prev.value)
  {
  }

  lemma ParentHashOf(env: Env, h: Head, prev: Option<Item>, it: Item)
    ensures ParentHash(Message(env, h, prev, it, REQUEST))
            == if EntryOf(env, prev, it, REQUEST).parent == ZERO then Repeated(1) else Repeated(2)
  {
    var m := Message(env, h, prev, it, REQUEST);
    ItemFits(env, prev, it, REQUEST);
    assert m[64..] == SerializeItem(env, prev, it, REQUEST);
    hide SerializeItem, DecodeEntry, EntryOf, HeadDigest;
  }

  /** The exchange ran to its last bundle and kee_ledger_verify refuses what Alice holds. */
  ghost predicate EndsUnverified(
      env: Env, l: LedgerState, a: Signer, b: Signer, junk: Digest, st: Stack, junk': Digest, st': Stack)
    requires l.items != []
  {
    var bob := ParseOpen(env, b.key, SerializeOpen(env, SignLast(env, l, a), RESPONSE), junk, st);
    && bob.ok && |bob.ledger.items| == 1
    && var bobs := Answer(env, bob.ledger, b, true);
    && |bobs.items| == 1
    && var alice := ParseOpen(env, a.key, SerializeOpen(env, bobs, FINAL), junk', st');
    alice.ok && |alice.ledger.items| == 1 && alice.ledger.items[0].State() == FINAL && !Verified(env, alice.ledger)
  }

  /** A non-zero parent and two messages that hash apart are all it takes. */
  lemma LaterItemFails(
      env: Env, l: LedgerState, a: Signer, b: Signer, junk: Digest, st: Stack, junk': Digest, st': Stack)
    requires Opening(l, a, b) && Honest(env, a) && Honest(env, b) && SignsOnly(env, a, env.hash(Requested(env, l)))
    requires !ZeroParent(env, l) && env.hash(Rebuilt(env, l)) != env.hash(Requested(env, l))
    ensures EndsUnverified(env, l, a, b, junk, st, junk', st')
  {
    assert !Collides(env, Rebuilt(env, l), Requested(env, l));
    hide Opening, Honest, SignsOnly, ZeroParent, Collides, Rebuilt, Requested, ParseOpen, SerializeOpen, SignLast,
         Answer, Verified;
    FullExchange(env, l, a, b, true, junk, st, junk', st');
  }

  /** One exchange between honest keys that does end so. */
  lemma LaterItemExample(junk: Digest, st: Stack, junk': Digest, st': Stack)
    ensures var env, l := LaterItemEnv(), LaterItemLedger();
            var a, b := TwoSignatures(Repeated(2), RepeatedKey(1)), TwoSignatures(Repeated(2), RepeatedKey(2));
            && Opening(l, a, b) && l.items != [] && Honest(env, a) && Honest(env, b)
            && SignsOnly(env, a, env.hash(Requested(env, l)))
            && EndsUnverified(env, l, a, b, junk, st, junk', st')
  {
    hide *;
    var a, b := TwoSignatures(Repeated(2), RepeatedKey(1)), TwoSignatures(Repeated(2), RepeatedKey(2));
    LaterItemOpening();
    LaterItemDigests();
    LaterItemFails(LaterItemEnv(), LaterItemLedger(), a, b, junk, st, junk', st');
  }

  lemma LaterItemOpening()
    ensures var env, l := LaterItemEnv(), LaterItemLedger();
            var a, b := TwoSignatures(Repeated(2), RepeatedKey(1)), TwoSignatures(Repeated(2), RepeatedKey(2));
            && Opening(l, a, b) && l.items != [] && !ZeroParent(env, l)
            && Honest(env, a) && Honest(env, b) && SignsOnly(env, a, Repeated(2)) && Repeated(1) != Repeated(2)
  {
    assert RepeatedKey(1)[0] == 1 && RepeatedKey(2)[0] == 2 && Zeros(32)[0] == 0;
    assert Repeated(1)[0] == 1 && Repeated(2)[0] == 2 && Repeated(5)[0] == 5 && ZERO[0] == 0;
    SignsOnlyCanBe(Repeated(2), RepeatedKey(1), ParentHash, AnyParent);
    SignsOnlyCanBe(Repeated(2), RepeatedKey(2), ParentHash, AnyParent);
    hide Honest, SignsOnly, TwoSignaturesEnv;
    assert AnyParent(LaterItemLedger().items[0]) != ZERO;
    ParentRefIs();
  }

  lemma ParentRefIs()
    ensures LaterItemEnv().parentRef == AnyParent
  {
  }

  /** The last leg: Bob's bundle, opened by Alice, holds the mirror image of his item. */
  lemma FinalArrives(env: Env, h: Head, it: Item, a: Signer, b: Signer, junk: Digest, st: Stack)
    requires h.alice == a.key && h.bob == b.key && Canonical(h) == h
    requires WireForm(it) && it.initiator == ALICE
    requires env.verifies(b.key, env.hash(Message(env, h, None, it, RESPONSE)), it.bobSignature)
    ensures var d := HeadDigest(env, h);
            ParseOpen(env, a.key, SerializeOpen(env, LedgerState(h, d, [it.Mirror()], None), FINAL), junk, st)
            == Outcome(true, LedgerState(h, d, [it], None))
  {
    var d := HeadDigest(env, h);
    var bob, cleared := LedgerState(h, d, [it.Mirror()], None), LedgerState(h, d, [], None);
    assert bob.Prev(0) == None && LocalInitiator(h, a.key) == ALICE && ApplyCache(None, it) == None;
    assert cleared.Keys().ResponseKey(ALICE) == b.key && it.ResponseSignature() == it.bobSignature;
    assert Message(env, h, None, it, RESPONSE) == d + SerializeItem(env, None, it, RESPONSE);
    WireKeeps(it, ALICE);
    hide *;
    OpenReads(env, bob, FINAL, a.key, junk, st);
    MirrorSerializesAlike(env, None, it, FINAL);
    ParseItemReceives(env, cleared, None, it, FINAL, ALICE, st);
  }

  lemma RebuiltRequest(env: Env, h: Head, prev: Option<Item>, it: Item)
    ensures Message(env, h, None, it, REQUEST) == Message(env, h, prev, it, REQUEST)
            <==> (prev.Some? ==> env.parentRef(prev.value) == ZERO)
  {
    var d, e, e' := HeadDigest(env, h), EntryOf(env, None, it, REQUEST), EntryOf(env, prev, it, REQUEST);
    assert e == e' <==> e.parent == e'.parent;
    ItemFits(env, None, it, REQUEST);
    ItemFits(env, prev, it, REQUEST);
    hide EncodeEntry, Encodable, HeadDigest, IntOctets, KeyPart;
    if d + EncodeEntry(e) == d + EncodeEntry(e') {
      MessageInjective(d, e, d, e');
    }
  }

  /** Any bundle fits one transport frame, whatever head and item it carries. */
  lemma BundleFits(env: Env, l: LedgerState, stage: Stage)
    requires l.items != []
    ensures 1 + |SerializeOpen(env, l, stage)| <= Transport.CHUNK_MAX_SIZE - 2
  {
    var n := |l.items| - 1;
    hide SerializeHead, SerializeItem;
    HeadFits(l.head);
    ItemFits(env, l.Prev(n), l.items[n], stage);
  }

  // ---- agreement over every run

  /** One call of kee_ledger_sign by an honest key. */
  datatype Event = Event(key: Key, head: Head, prev: Option<Item>, item: Item)

  /** The world of a run: who is honest, what honest keys were asked to sign, and every signature there is. */
  datatype World = World(honest: set<Key>, events: seq<Event>, issued: set<(Key, Digest, Digest)>)

  /** Ideal signatures: one verifies when it was issued. */
  function EnvIn(env: Env, w: World): Env {
    env.(verifies := (k: Key, d: Digest, s: Digest) => (k, d, s) in w.issued)
  }

  datatype Step =
    | HonestSign(event: Event, signature: Digest)
    | OtherSign(key: Key, digest: Digest, signature: Digest)

  function SignedBytes(env: Env, e: Event): seq<byte> {
    Message(env, e.head, e.prev, e.item, SigningStage(e.item))
  }

  /** Honest keys only sign through kee_ledger_sign; anyone else may issue any signature under a key of theirs. The
      network needs no step of its own: it may present any bytes at any time. */
  function Apply(env: Env, w: World, s: Step): World {
    match s
    case HonestSign(e, signature) =>
      var r := Sign(env, e.head, e.prev, e.item, Signer(e.key, _ => Some(signature)));
      if e.key in w.honest && r.code == OK
      then w.(events := w.events + [e], issued := w.issued + {(e.key, env.hash(SignedBytes(env, e)), signature)})
      else w
    case OtherSign(key, digest, signature) =>
      if key in w.honest then w else w.(issued := w.issued + {(key, digest, signature)})
  }

  function Run(env: Env, honest: set<Key>, steps: seq<Step>): World {
    if steps == [] then World(honest, [], {})
    else Apply(env, Run(env, honest, steps[..|steps| - 1]), steps[|steps| - 1])
  }

  /** A refused signing call leaves no trace. */
  lemma RefusedSignsNothing(env: Env, w: World, e: Event, signature: Digest)
    requires e.item.aliceSignature != ZERO || e.key !in w.honest
    ensures Apply(env, w, HonestSign(e, signature)) == w
  {
  }

  /** Some honest signing call by `key` is behind digest `d`. */
  ghost predicate Backed(env: Env, w: World, key: Key, d: Digest) {
    exists i :: 0 <= i < |w.events| && w.events[i].key == key && env.hash(SignedBytes(env, w.events[i])) == d
  }

  /** Every signature of an honest key comes from a signing call. */
  ghost predicate AllBacked(env: Env, w: World) {
    forall t :: t in w.issued && t.0 in w.honest ==> Backed(env, w, t.0, t.1)
  }

  lemma StepKeepsBacked(env: Env, w: World, s: Step)
    requires AllBacked(env, w)
    ensures AllBacked(env, Apply(env, w, s)) && Apply(env, w, s).honest == w.honest
  {
    hide SignedBytes, Sign;
    var w' := Apply(env, w, s);
    forall t | t in w'.issued && t.0 in w'.honest
      ensures Backed(env, w', t.0, t.1)
    {
      if t in w.issued {
        BackedStays(env, w, w', t.0, t.1);
      } else {
        assert w'.events[|w.events|] == s.event;
      }
    }
  }

  lemma BackedStays(env: Env, w: World, w': World, key: Key, d: Digest)
    requires Backed(env, w, key, d) && w.events <= w'.events
    ensures Backed(env, w', key, d)
  {
    hide SignedBytes;
    var i :| 0 <= i < |w.events| && w.events[i].key == key && env.hash(SignedBytes(env, w.events[i])) == d;
    assert w'.events[i] == w.events[i];
  }

  /** In every reachable world, every signature of an honest key comes from a signing call. */
  lemma {:induction false} Unforgeable(env: Env, honest: set<Key>, steps: seq<Step>)
    ensures var w := Run(env, honest, steps);
            w.honest == honest && forall t :: t in w.issued && t.0 in honest ==> Backed(env, w, t.0, t.1)
  {
    hide Apply, Backed;
    if steps != [] {
      var n := |steps| - 1;
      Unforgeable(env, honest, steps[..n]);
      StepKeepsBacked(env, Run(env, honest, steps[..n]), steps[n]);
    }
  }

  /** `m`, of the form head digest plus entry, was signed by `e`: same head, same entry. */
  ghost predicate Matches(env: Env, e: Event, h: Head, entry: Entry) {
    && SerializeHead(e.head) == SerializeHead(h)
    && EntryOf(env, e.prev, e.item, SigningStage(e.item)) == entry
  }

  /** Equal digests of two messages mean equal heads and entries, or a hash collision that is at hand. */
  lemma SameSignedBytes(env: Env, e: Event, h: Head, entry: Entry)
    requires Encodable(entry)
    requires env.hash(SignedBytes(env, e)) == env.hash(HeadDigest(env, h) + EncodeEntry(entry))
    ensures || Matches(env, e, h, entry)
            || Collides(env, SignedBytes(env, e), HeadDigest(env, h) + EncodeEntry(entry))
            || Collides(env, SerializeHead(e.head), SerializeHead(h))
  {
    ItemFits(env, e.prev, e.item, SigningStage(e.item));
    if SignedBytes(env, e) == HeadDigest(env, h) + EncodeEntry(entry) {
      MessageInjective(HeadDigest(env, e.head), EntryOf(env, e.prev, e.item, SigningStage(e.item)),
          HeadDigest(env, h), entry);
    }
  }

  /** What an accepted bundle holds. */
  lemma OpenedFacts(env: Env, me: Key, data: seq<byte>, junk: Digest, st: Stack)
    requires ParseOpen(env, me, data, junk, st).ok
    ensures var o := ParseOpen(env, me, data, junk, st).ledger;
            var who := LocalInitiator(o.head, me);
            && OpenedEntry(data).Some? && |o.items| == 1 && o.digest == HeadDigest(env, o.head)
            && (var e := OpenedEntry(data).value;
                && IsMinimal(e.creditDelta) && IsMinimal(e.collateralDelta)
                && ResponseVerifies(env, o.Keys().ResponseKey(who), o.digest, e, st.sig)
                && FillItem(e, BLANK.(initiator := who.Acting()), st.tmp) == Parsed(true, o.items[0]))
  {
    var parts := DecodeBundle(data).value;
    EntryWrites(parts[1]);
  }

  /** The received item is the one `e` signed, in the role `e` signed it. */
  ghost predicate AgreesWith(env: Env, e: Event, h: Head, entry: Entry, it: Item, who: Initiator) {
    && Matches(env, e, h, entry)
    && (SigningStage(e.item) == RESPONSE <==> entry.signatureRequest != [])
    && it.WithResponse(ZERO) == Received(e.item, who, SigningStage(e.item))
  }

  ghost predicate AgreesOrCollides(env: Env, e: Event, h: Head, entry: Entry, it: Item, who: Initiator) {
    || AgreesWith(env, e, h, entry, it, who)
    || Collides(env, SignedBytes(env, e), HeadDigest(env, h) + EncodeEntry(entry))
    || Collides(env, SerializeHead(e.head), SerializeHead(h))
  }

  lemma AgreeOnEvent(env: Env, e: Event, h: Head, full: Entry, it: Item, who: Initiator, tmp: Digest)
    requires full.creditDelta != [] && full.collateralDelta != []
    requires FillItem(full, BLANK.(initiator := who.Acting()), tmp) == Parsed(true, it)
    requires Encodable(Cleared(full, RESPONSE))
    requires env.hash(SignedBytes(env, e)) == env.hash(HeadDigest(env, h) + EncodeEntry(Cleared(full, RESPONSE)))
    ensures AgreesOrCollides(env, e, h, Cleared(full, RESPONSE), it, who)
  {
    var entry := Cleared(full, RESPONSE);
    SameSignedBytes(env, e, h, entry);
    if Matches(env, e, h, entry) {
      FillReceived(env, e.prev, e.item, SigningStage(e.item), who, tmp);
      FillCleared(full, BLANK.(initiator := who.Acting()), tmp);
    }
  }

  /** Agreement: in every run, against any network and any other keys, when a bundle is accepted whose entry carries a
      response signature and the responder's key is honest, that key was used to sign exactly this head and this entry
      (parent, time, deltas, body, flag, request signature), or two colliding strings are exhibited. The signing call
      was made in the responder's role exactly when the entry carries a request signature. */
  lemma Agreement(env: Env, honest: set<Key>, steps: seq<Step>, me: Key, data: seq<byte>, junk: Digest, st: Stack)
    requires var w := Run(env, honest, steps);
             var o := ParseOpen(EnvIn(env, w), me, data, junk, st);
             && o.ok && OpenedEntry(data).Some? && OpenedEntry(data).value.signatureResponse != []
             && o.ledger.Keys().ResponseKey(LocalInitiator(o.ledger.head, me)) in honest
    ensures var w := Run(env, honest, steps);
            var l := ParseOpen(EnvIn(env, w), me, data, junk, st).ledger;
            var who := LocalInitiator(l.head, me);
            |l.items| == 1
            && exists i :: 0 <= i < |w.events| && w.events[i].key == l.Keys().ResponseKey(who)
                 && AgreesOrCollides(
                      env, w.events[i], l.head, Cleared(OpenedEntry(data).value, RESPONSE), l.items[0], who)
  {
    var w := Run(env, honest, steps);
    var env' := EnvIn(env, w);
    OpenedFacts(env', me, data, junk, st);
    var l := ParseOpen(env', me, data, junk, st).ledger;
    var who := LocalInitiator(l.head, me);
    var key, full := l.Keys().ResponseKey(who), OpenedEntry(data).value;
    var d := env.hash(l.digest + EncodeEntry(Cleared(full, RESPONSE)));
    Unforgeable(env, honest, steps);
    assert (key, d, Overlay(st.sig, full.signatureResponse)) in w.issued;
    assert Backed(env, w, key, d);
    var i :| 0 <= i < |w.events| && w.events[i].key == key && env.hash(SignedBytes(env, w.events[i])) == d;
    AgreeOnEvent(env, w.events[i], l.head, full, l.items[0], who, st.tmp);
  }

  /** Bob's FINAL bundle for an item in Alice's view. */
  function FinalBundle(env: Env, h: Head, it: Item): seq<byte> {
    SerializeOpen(env, LedgerState(h, HeadDigest(env, h), [it.Mirror()], None), FINAL)
  }

  /** The other direction of Agreement: whatever happened before, once an honest Bob has signed his copy of an item, the
      bundle with that signature is accepted by Alice and holds the item. So its premise is met in many runs. */
  lemma SignedBundleIsAccepted(env: Env, honest: set<Key>, steps: seq<Step>, h: Head, it: Item, signature: Digest,
      junk: Digest, st: Stack)
    requires Canonical(h) == h && h.bob in honest
    requires WireForm(it) && it.initiator == ALICE && it.bobSignature == ZERO != signature
    ensures var w := Run(env, honest, steps + [HonestSign(Event(h.bob, h, None, it.Mirror()), signature)]);
            var signed := it.(bobSignature := signature);
            var data := FinalBundle(env, h, signed);
            && ParseOpen(EnvIn(env, w), h.alice, data, junk, st)
               == Outcome(true, LedgerState(h, HeadDigest(env, h), [signed], None))
            && OpenedEntry(data) == Some(EntryOf(env, None, signed, FINAL))
            && EntryOf(env, None, signed, FINAL).signatureResponse != []
            && Party(HeadDigest(env, h), h.alice, h.bob).ResponseKey(LocalInitiator(h, h.alice)) in honest
  {
    hide *;
    var w := Run(env, honest, steps + [HonestSign(Event(h.bob, h, None, it.Mirror()), signature)]);
    var signed := it.(bobSignature := signature);
    SigningIssues(env, honest, steps, h, it, signature);
    SignedFacts(env, honest, h, it, signature);
    SameInWorld(env, w, h, signed);
    FinalArrives(EnvIn(env, w), h, signed, Signer(h.alice, _ => None), Signer(h.bob, _ => None), junk, st);
    BundleEntry(env, h, signed);
  }

  lemma SigningIssues(env: Env, honest: set<Key>, steps: seq<Step>, h: Head, it: Item, signature: Digest)
    requires h.bob in honest && it.initiator == ALICE && it.bobSignature == ZERO
    ensures var w := Run(env, honest, steps + [HonestSign(Event(h.bob, h, None, it.Mirror()), signature)]);
            EnvIn(env, w).verifies(h.bob, env.hash(Message(env, h, None, it.(bobSignature := signature), RESPONSE)),
                signature)
  {
    var step := HonestSign(Event(h.bob, h, None, it.Mirror()), signature);
    assert (steps + [step])[..|steps|] == steps;
    RunKeepsHonest(env, honest, steps);
    MirrorSerializesAlike(env, None, it, RESPONSE);
    assert EntryOf(env, None, it.(bobSignature := signature), RESPONSE) == EntryOf(env, None, it, RESPONSE);
    hide EntryOf, EncodeEntry, HeadDigest;
  }

  lemma {:induction false} RunKeepsHonest(env: Env, honest: set<Key>, steps: seq<Step>)
    ensures Run(env, honest, steps).honest == honest
  {
    hide Sign, SignedBytes;
    if steps != [] {
      RunKeepsHonest(env, honest, steps[..|steps| - 1]);
    }
  }

  lemma SignedFacts(env: Env, honest: set<Key>, h: Head, it: Item, signature: Digest)
    requires h.bob in honest && WireForm(it) && it.initiator == ALICE && signature != ZERO
    ensures var signed := it.(bobSignature := signature);
            && WireForm(signed) && signed.initiator == ALICE && signed.bobSignature == signature
            && EntryOf(env, None, signed, FINAL).signatureResponse != []
            && Party(HeadDigest(env, h), h.alice, h.bob).ResponseKey(LocalInitiator(h, h.alice)) in honest
  {
    hide HeadDigest;
  }

  /** The wire does not depend on which signatures exist. */
  lemma SameInWorld(env: Env, w: World, h: Head, it: Item)
    ensures HeadDigest(EnvIn(env, w), h) == HeadDigest(env, h)
    ensures Message(EnvIn(env, w), h, None, it, RESPONSE) == Message(env, h, None, it, RESPONSE)
    ensures EnvIn(env, w).hash == env.hash
    ensures SerializeOpen(EnvIn(env, w), LedgerState(h, HeadDigest(env, h), [it.Mirror()], None), FINAL)
            == FinalBundle(env, h, it)
  {
    assert EntryOf(EnvIn(env, w), None, it, RESPONSE) == EntryOf(env, None, it, RESPONSE);
    assert EntryOf(EnvIn(env, w), None, it.Mirror(), FINAL) == EntryOf(env, None, it.Mirror(), FINAL);
    hide EntryOf, EncodeEntry, SerializeHead;
  }

  lemma BundleEntry(env: Env, h: Head, it: Item)
    requires it.initiator == ALICE
    ensures OpenedEntry(FinalBundle(env, h, it)) == Some(EntryOf(env, None, it, FINAL))
  {
    hide EncodeHead, EncodeEntry, DecodeEntry, EntryOf, EncodeBundle, DecodeBundle, HeadDigest, HeadEntryOf;
    MirrorSerializesAlike(env, None, it, FINAL);
    HeadFits(h);
    ItemFits(env, None, it, FINAL);
    BundleReads(HeadEntryOf(h), EntryOf(env, None, it, FINAL));
  }

  /** The response signature only fills its own slot. */
  lemma FillCleared(e: Entry, it: Item, tmp: Digest)
    requires e.creditDelta != [] && e.collateralDelta != []
    requires it.ResponseSignature() == ZERO && FillItem(e, it, tmp).ok
    ensures FillItem(Cleared(e, RESPONSE), it, tmp) == Parsed(true, FillItem(e, it, tmp).item.WithResponse(ZERO))
  {
    hide LedgerValues.FillDeltas, LedgerValues.FillTimeAndBody;
    FillKeepsResponse(e, it, tmp);
    assert Overlay(ZERO, []) == ZERO;
  }

  lemma FillKeepsResponse(e: Entry, it: Item, tmp: Digest)
    requires e.creditDelta != [] && e.collateralDelta != []
    ensures FillDeltas(Cleared(e, RESPONSE), it) == FillDeltas(e, it)
    ensures var p := FillDeltas(e, it).item;
            && p.initiator == it.initiator && p.ResponseSignature() == it.ResponseSignature()
            && FillTimeAndBody(Cleared(e, RESPONSE), p, tmp) == FillTimeAndBody(e, p, tmp)
            && (var q := FillTimeAndBody(e, p, tmp).item;
                q.initiator == it.initiator && q.ResponseSignature() == it.ResponseSignature())
  {
    hide IntOf, BE;
  }

  /** The same for a stored ledger: a request signature of an honest key that kee_ledger_verify let pass was issued for
      this head and item, or there is a collision. */
  lemma VerifiedRequestWasSigned(env: Env, honest: set<Key>, steps: seq<Step>, l: LedgerState, i: nat)
    requires var w := Run(env, honest, steps); Verified(EnvIn(env, w), l)
    requires i < |l.items| && l.items[i].RequestSignature() != ZERO
    requires l.Keys().RequestKey(l.items[i].initiator) in honest
    ensures var w := Run(env, honest, steps);
            exists j :: 0 <= j < |w.events| && w.events[j].key == l.Keys().RequestKey(l.items[i].initiator)
              && (|| Collides(env, SignedBytes(env, w.events[j]), Message(env, l.head, l.Prev(i), l.items[i], REQUEST))
                  || Collides(env, SerializeHead(w.events[j].head), SerializeHead(l.head))
                  || (Matches(env, w.events[j], l.head, EntryOf(env, l.Prev(i), l.items[i], REQUEST))
                        && SigningStage(w.events[j].item) == REQUEST))
  {
    var w := Run(env, honest, steps);
    var key, entry := l.Keys().RequestKey(l.items[i].initiator), EntryOf(env, l.Prev(i), l.items[i], REQUEST);
    RequestIssued(env, w, l, i);
    Unforgeable(env, honest, steps);
    var d := env.hash(Message(env, l.head, l.Prev(i), l.items[i], REQUEST));
    assert Backed(env, w, key, d);
    hide Run, Verified, SignedBytes, EntryOf;
    var j :| 0 <= j < |w.events| && w.events[j].key == key && env.hash(SignedBytes(env, w.events[j])) == d;
    ItemFits(env, l.Prev(i), l.items[i], REQUEST);
    SameSignedBytes(env, w.events[j], l.head, entry);
    RequestStage(env, w.events[j], l.head, l.Prev(i), l.items[i]);
  }

  lemma RequestIssued(env: Env, w: World, l: LedgerState, i: nat)
    requires Verified(EnvIn(env, w), l) && i < |l.items| && l.items[i].RequestSignature() != ZERO
    ensures (l.Keys().RequestKey(l.items[i].initiator), env.hash(Message(env, l.head, l.Prev(i), l.items[i], REQUEST)),
             l.items[i].RequestSignature()) in w.issued
  {
    assert Passes(EnvIn(env, w), l, i);
    assert EntryOf(EnvIn(env, w), l.Prev(i), l.items[i], REQUEST) == EntryOf(env, l.Prev(i), l.items[i], REQUEST);
    hide EntryOf, EncodeEntry, SerializeHead;
  }

  /** A signed entry equal to a request's was signed as a request. */
  lemma RequestStage(env: Env, e: Event, h: Head, prev: Option<Item>, it: Item)
    ensures Matches(env, e, h, EntryOf(env, prev, it, REQUEST)) ==> SigningStage(e.item) == REQUEST
  {
    assert EntryOf(env, e.prev, e.item, SigningStage(e.item)).signatureRequest == []
           <==> SigningStage(e.item) == REQUEST;
    hide SerializeHead;
  }

  // ---- the life of one item

  datatype Act = RequestSign | SetResponse | ResponseSign

  /** Protocol order: the answer is given and signed once a request signature is there, and the flag is not touched
      after the answer was signed. */
  predicate InOrder(it: Item, act: Act) {
    match act
    case RequestSign => true
    case SetResponse => it.bobSignature == ZERO
    case ResponseSign => it.aliceSignature != ZERO
  }

  /** One act on Alice's item; Bob signs his mirror copy and the result is mirrored back. */
  function Do(env: Env, h: Head, prev: Option<Item>, it: Item, act: Act, a: Signer, b: Signer): Item {
    match act
    case RequestSign => Sign(env, h, prev, it, a).item
    case SetResponse => it.(response := true)
    case ResponseSign => Sign(env, h, prev, it.Mirror(), b).item.Mirror()
  }

  /** Every signature that is present verifies over what its stage covers. */
  ghost predicate Sound(env: Env, h: Head, prev: Option<Item>, it: Item) {
    && it.initiator == ALICE
    && (it.aliceSignature != ZERO ==>
          env.verifies(h.alice, env.hash(Message(env, h, prev, it, REQUEST)), it.aliceSignature))
    && (it.bobSignature != ZERO ==>
          && it.aliceSignature != ZERO
          && env.verifies(h.bob, env.hash(Message(env, h, prev, it, RESPONSE)), it.bobSignature))
  }

  predicate AllInOrder(env: Env, h: Head, prev: Option<Item>, it: Item, acts: seq<Act>, a: Signer, b: Signer)
    decreases |acts|
  {
    acts == []
    || (InOrder(it, acts[0]) && AllInOrder(env, h, prev, Do(env, h, prev, it, acts[0], a, b), acts[1..], a, b))
  }

  function DoAll(env: Env, h: Head, prev: Option<Item>, it: Item, acts: seq<Act>, a: Signer, b: Signer): Item
    decreases |acts|
  {
    if acts == [] then it else DoAll(env, h, prev, Do(env, h, prev, it, acts[0], a, b), acts[1..], a, b)
  }

  lemma OneAct(env: Env, h: Head, prev: Option<Item>, it: Item, act: Act, a: Signer, b: Signer)
    requires Honest(env, a) && Honest(env, b) && a.key == h.alice && b.key == h.bob
    requires Sound(env, h, prev, it) && InOrder(it, act)
    ensures var it' := Do(env, h, prev, it, act, a, b);
            && Sound(env, h, prev, it') && it.State().Rank() <= it'.State().Rank()
            && (act == RequestSign && it.aliceSignature != ZERO ==> it' == it)
            && (act == ResponseSign && it.bobSignature != ZERO ==> it' == it)
            && (it.aliceSignature != ZERO ==> it'.aliceSignature == it.aliceSignature)
            && (it.bobSignature != ZERO ==> it'.bobSignature == it.bobSignature)
  {
    match act {
      case RequestSign => RequestSignKeeps(env, h, prev, it, a, b);
      case SetResponse => SetResponseKeeps(env, h, prev, it);
      case ResponseSign => ResponseSignKeeps(env, h, prev, it, a, b);
    }
    hide Sound, Honest;
  }

  lemma RequestSignKeeps(env: Env, h: Head, prev: Option<Item>, it: Item, a: Signer, b: Signer)
    requires Honest(env, a) && a.key == h.alice && Sound(env, h, prev, it)
    ensures var it' := Do(env, h, prev, it, RequestSign, a, b);
            && Sound(env, h, prev, it') && it.State().Rank() <= it'.State().Rank()
            && (it.aliceSignature != ZERO ==> it' == it) && it'.bobSignature == it.bobSignature
  {
    var it' := Do(env, h, prev, it, RequestSign, a, b);
    RequestMessageKept(env, h, prev, it, it');
    hide Message;
  }

  lemma SetResponseKeeps(env: Env, h: Head, prev: Option<Item>, it: Item)
    requires Sound(env, h, prev, it) && it.bobSignature == ZERO
    ensures Sound(env, h, prev, it.(response := true)) && it.(response := true).State() == it.State()
  {
    RequestMessageKept(env, h, prev, it, it.(response := true));
    hide Message;
  }

  lemma ResponseSignKeeps(env: Env, h: Head, prev: Option<Item>, it: Item, a: Signer, b: Signer)
    requires Honest(env, b) && b.key == h.bob && Sound(env, h, prev, it) && it.aliceSignature != ZERO
    ensures var it' := Do(env, h, prev, it, ResponseSign, a, b);
            && Sound(env, h, prev, it') && it.State().Rank() <= it'.State().Rank()
            && (it.bobSignature != ZERO ==> it' == it) && it'.aliceSignature == it.aliceSignature
  {
    var it' := Do(env, h, prev, it, ResponseSign, a, b);
    MirrorSerializesAlike(env, prev, it, RESPONSE);
    RequestMessageKept(env, h, prev, it, it');
    assert EntryOf(env, prev, it', RESPONSE) == EntryOf(env, prev, it, RESPONSE);
    hide EntryOf, EncodeEntry, HeadDigest;
  }

  /** A request message covers the terms only. */
  lemma RequestMessageKept(env: Env, h: Head, prev: Option<Item>, it: Item, it': Item)
    requires it.initiator == it'.initiator == ALICE
    requires it'.aliceCredit == it.aliceCredit && it'.aliceCollateral == it.aliceCollateral && it'.body == it.body
    requires it'.sec == it.sec && it'.nsec == it.nsec
    ensures Message(env, h, prev, it', REQUEST) == Message(env, h, prev, it, REQUEST)
  {
    hide HeadDigest;
    RequestDependsOnTerms(env, prev, it', it);
  }

  /** Over every run in protocol order no later act invalidates an earlier signature, the state never goes back, and a
      signature once given stays. */
  lemma {:induction false} SignaturesSurvive(env: Env, h: Head, prev: Option<Item>, it: Item, acts: seq<Act>,
      a: Signer, b: Signer)
    requires Honest(env, a) && Honest(env, b) && a.key == h.alice && b.key == h.bob
    requires Sound(env, h, prev, it) && AllInOrder(env, h, prev, it, acts, a, b)
    ensures var it' := DoAll(env, h, prev, it, acts, a, b);
            && Sound(env, h, prev, it') && it.State().Rank() <= it'.State().Rank()
            && (it.aliceSignature != ZERO ==> it'.aliceSignature == it.aliceSignature)
            && (it.bobSignature != ZERO ==> it'.bobSignature == it.bobSignature)
    decreases |acts|
  {
    if acts != [] {
      OneAct(env, h, prev, it, acts[0], a, b);
      SignaturesSurvive(env, h, prev, Do(env, h, prev, it, acts[0], a, b), acts[1..], a, b);
    }
  }

  /** Why the flag must not be set late: it is part of the signed response, so setting it keeps the response message
      exactly when it was set already. The request message never depends on it. */
  lemma LateFlag(env: Env, h: Head, prev: Option<Item>, it: Item)
    ensures Message(env, h, prev, it.(response := true), RESPONSE) == Message(env, h, prev, it, RESPONSE)
            <==> it.response
    ensures Message(env, h, prev, it.(response := true), REQUEST) == Message(env, h, prev, it, REQUEST)
  {
    var late := it.(response := true);
    assert EntryOf(env, prev, late, REQUEST) == EntryOf(env, prev, it, REQUEST);
    ItemFits(env, prev, it, RESPONSE);
    ItemFits(env, prev, late, RESPONSE);
    if Message(env, h, prev, late, RESPONSE) == Message(env, h, prev, it, RESPONSE) {
      var d := HeadDigest(env, h);
      MessageInjective(d, EntryOf(env, prev, late, RESPONSE), d, EntryOf(env, prev, it, RESPONSE));
    }
  }
}
