/** The ledger operations of src/ledger.c as functions from one ledger state to the next. */
module LedgerOperations {
  import opened Bytes
  import opened Endian
  import opened Schema
  import opened LedgerValues

  datatype Code = OK | FAIL | ALREADY_SIGNED

  datatype Cache = Cache(
    count: int32, aliceCredit: int32, bobCredit: int32, aliceCollateral: int32, bobCollateral: int32)
  {
    /** kee_ledger_item_apply_cache (ledger.c:306-317), in C's 32-bit arithmetic. */
    function Apply(it: Item): Cache {
      Cache(Wrap32(count + 1), Wrap32(aliceCredit + it.aliceCredit), Wrap32(bobCredit + it.bobCredit),
            Wrap32(aliceCollateral + it.aliceCollateral), Wrap32(bobCollateral + it.bobCollateral))
    }
  }

  const NO_CACHE := Cache(0, 0, 0, 0, 0)

  /** struct kee_ledger_t; `items` runs from the oldest to `last_item`. */
  datatype LedgerState = LedgerState(head: Head, digest: Digest, items: seq<Item>, cache: Option<Cache>) {
    function Keys(): Party {
      Party(digest, head.alice, head.bob)
    }

    /** The predecessor reachable through `prev_item`. */
    function Prev(i: nat): Option<Item>
      requires i < |items|
    {
      if i == 0 then None else Some(items[i - 1])
    }
  }

  const EMPTY := LedgerState(NO_HEAD, ZERO, [], None)

  function ApplyCache(c: Option<Cache>, it: Item): Option<Cache> {
    match c
    case None => None
    case Some(k) => Some(k.Apply(it))
  }

  datatype Outcome = Outcome(ok: bool, ledger: LedgerState)

  /** kee_ledger_parse_item: the new item is linked before its bytes are looked at, the cache only moves on success. */
  function ParseItem(env: Env, l: LedgerState, data: seq<byte>, who: Initiator, st: Stack): Outcome {
    var r := ReadItem(env, l.Keys(), data, who, st);
    Outcome(r.ok, l.(items := l.items + [r.item], cache := if r.ok then ApplyCache(l.cache, r.item) else l.cache))
  }

  /** Whether a reader takes what was sent: always, but a FINAL item only if its response signature is good. */
  predicate Taken(env: Env, p: Party, prev: Option<Item>, it: Item, stage: Stage, who: Initiator) {
    stage.FINAL? ==>
      env.verifies(p.ResponseKey(who), env.hash(p.digest + SerializeItem(env, prev, it, RESPONSE)),
          it.ResponseSignature())
  }

  /** Parsing what was serialised appends what was sent and moves the cache by it, for any stage and reader; what is not
      taken appends a blank item. */
  lemma ParseItemReceives(
      env: Env, l: LedgerState, prev: Option<Item>, it: Item, stage: Stage, who: Initiator, st: Stack)
    ensures var ok := Taken(env, l.Keys(), prev, it, stage, who);
            var r := if ok then Received(it, who, stage) else BLANK.(initiator := who.Acting());
            ParseItem(env, l, SerializeItem(env, prev, it, stage), who, st)
            == Outcome(ok, l.(items := l.items + [r], cache := if ok then ApplyCache(l.cache, r) else l.cache))
  {
    hide SerializeItem, ReadItem, Received, ApplyCache;
    ItemRoundTrip(env, l.Keys(), prev, it, stage, who, st);
  }

  /** kee_ledger_parse_item_db (ledger.c:338-350): the last stored byte says who initiated. */
  function ParseItemDb(env: Env, l: LedgerState, data: seq<byte>, st: Stack): Outcome
    requires data != []
  {
    ParseItem(env, l, data[..|data| - 1], if data[|data| - 1] != 0 then BOB else ALICE, st)
  }

  /** kee_ledger_item_serialize_db (ledger.c:799-815). */
  function SerializeItemDb(env: Env, prev: Option<Item>, it: Item): (s: seq<byte>)
    ensures s != []
  {
    SerializeItem(env, prev, it, FINAL) + [if it.initiator.BOB? then 1 else 0]
  }

  /** kee_ledger_item_initiator (ledger.c:1422-1435): a local view, BOB means "not me". */
  function LocalInitiator(h: Head, me: Key): Initiator {
    if h.alice == me then ALICE else if h.bob != Zeros(32) then BOB else NOONE
  }

  /** A key store with an unlocked key; signing may fail. */
  datatype Signer = Signer(key: Key, sign: Digest -> Option<Digest>)

  function SigningStage(it: Item): Stage {
    if it.initiator.BOB? then RESPONSE else REQUEST
  }

  datatype Signed = Signed(code: Code, item: Item)

  /** kee_ledger_sign (ledger.c:817-864): the local signature always goes into the alice slot. */
  function Sign(env: Env, h: Head, prev: Option<Item>, it: Item, gpg: Signer): Signed {
    if it.aliceSignature != ZERO then Signed(ALREADY_SIGNED, it)
    else match gpg.sign(env.hash(Message(env, h, prev, it, SigningStage(it))))
      case None => Signed(FAIL, it)
      case Some(s) => Signed(OK, it.(aliceSignature := s))
  }

  /** kee_ledger_serialize_open (ledger.c:866-920). */
  function SerializeOpen(env: Env, l: LedgerState, stage: Stage): seq<byte>
    requires l.items != []
  {
    var n := |l.items| - 1;
    EncodeBundle(SerializeHead(l.head), SerializeItem(env, l.Prev(n), l.items[n], stage))
  }

  /** kee_ledger_parse_open (ledger.c:922-994), into a cleared ledger. */
  function ParseOpen(env: Env, me: Key, data: seq<byte>, junk: Digest, st: Stack): Outcome {
    match DecodeBundle(data)
    case None => Outcome(false, EMPTY)
    case Some(parts) =>
      if |parts| < 1 || |parts[0]| > 1024 then Outcome(false, EMPTY)
      else
        var r := ReadHead(env, NO_HEAD, ZERO, parts[0], junk);
        var l := EMPTY.(head := r.head, digest := r.digest);
        if !r.ok || |parts| < 2 || |parts[1]| > 1024 then Outcome(false, l)
        else ParseItem(env, l, parts[1], LocalInitiator(l.head, me), st)
  }

  /** A bundle built from a head and an entry opens to them. */
  lemma OpenReads(env: Env, l: LedgerState, stage: Stage, me: Key, junk: Digest, st: Stack)
    requires l.items != []
    ensures var n := |l.items| - 1;
            var h := Canonical(l.head);
            ParseOpen(env, me, SerializeOpen(env, l, stage), junk, st)
            == ParseItem(env, LedgerState(h, HeadDigest(env, h), [], None),
                         SerializeItem(env, l.Prev(n), l.items[n], stage), LocalInitiator(h, me), st)
  {
    hide EncodeHead, EncodeEntry, EntryOf, ReadHead, CStr, EncodeBundle, DecodeBundle, ParseItem, Canonical;
    var n := |l.items| - 1;
    HeadFits(l.head);
    ItemFits(env, l.Prev(n), l.items[n], stage);
    BundleReads(HeadEntryOf(l.head), EntryOf(env, l.Prev(n), l.items[n], stage));
    HeadRoundTrip(env, l.head, ZERO, junk);
    CanonicalSerializesAlike(l.head);
  }

  /** The entry a bundle carries, when it opens. */
  function OpenedEntry(data: seq<byte>): Option<Entry> {
    match DecodeBundle(data)
    case None => None
    case Some(parts) => if |parts| < 2 then None else DecodeEntry(parts[1])
  }

  // ---- kee_ledger_verify

  predicate SignatureHolds(env: Env, l: LedgerState, i: nat, stage: Stage, key: Key, signature: Digest)
    requires i < |l.items|
  {
    env.verifies(key, env.hash(Message(env, l.head, l.Prev(i), l.items[i], stage)), signature)
  }

  predicate RequestHolds(env: Env, l: LedgerState, i: nat)
    requires i < |l.items|
  {
    SignatureHolds(env, l, i, REQUEST, l.Keys().RequestKey(l.items[i].initiator), l.items[i].RequestSignature())
  }

  predicate ResponseHolds(env: Env, l: LedgerState, i: nat)
    requires i < |l.items|
  {
    SignatureHolds(env, l, i, RESPONSE, l.Keys().ResponseKey(l.items[i].initiator), l.items[i].ResponseSignature())
  }

  /** What one turn of the verify loop accepts: its request check, when there is one, replaces the response check. */
  predicate Passes(env: Env, l: LedgerState, i: nat)
    requires i < |l.items|
  {
    var it := l.items[i];
    && it.initiator != NOONE
    && (it.ResponseSignature() == ZERO ==> i == |l.items| - 1)
    && (it.RequestSignature() != ZERO ==> RequestHolds(env, l, i))
    && (it.RequestSignature() == ZERO && it.ResponseSignature() != ZERO ==> ResponseHolds(env, l, i))
  }

  ghost predicate Verified(env: Env, l: LedgerState) {
    l.items != [] && forall i :: 0 <= i < |l.items| ==> Passes(env, l, i)
  }

  /** Item `k` and all newer ones pass. */
  ghost predicate PassFrom(env: Env, l: LedgerState, k: nat) {
    forall j :: k <= j < |l.items| ==> Passes(env, l, j)
  }

  lemma PassFromSteps(env: Env, l: LedgerState, k: nat)
    requires k < |l.items|
    ensures PassFrom(env, l, |l.items|)
    ensures PassFrom(env, l, k) <==> Passes(env, l, k) && PassFrom(env, l, k + 1)
    ensures PassFrom(env, l, 0) <==> Verified(env, l)
    ensures Verified(env, l) ==> Passes(env, l, k)
  {
    hide Passes;
  }

  lemma EmptyNotVerified(env: Env, l: LedgerState)
    ensures l.items == [] ==> !Verified(env, l)
  {
  }

  /** Soundness, signature by signature: what an accepted ledger is known to hold. A response signature next to a
      request signature is the one thing missing. */
  lemma VerifySound(env: Env, l: LedgerState, i: nat)
    requires Verified(env, l) && i < |l.items|
    ensures var it := l.items[i];
            var bob := it.initiator == BOB;
            var request := if bob then it.bobSignature else it.aliceSignature;
            var response := if bob then it.aliceSignature else it.bobSignature;
            var d := HeadDigest(env, l.head);
            var q := env.hash(d + SerializeItem(env, l.Prev(i), it, REQUEST));
            var a := env.hash(d + SerializeItem(env, l.Prev(i), it, RESPONSE));
            && it.initiator != NOONE
            && (i < |l.items| - 1 ==> response != ZERO)
            && (request != ZERO ==> env.verifies(if bob then l.head.bob else l.head.alice, q, request))
            && (request == ZERO && response != ZERO ==>
                  env.verifies(if bob then l.head.alice else l.head.bob, a, response))
  {
    assert Passes(env, l, i);
    hide SerializeItem, HeadDigest;
  }

  ghost predicate OlderCountersigned(l: LedgerState) {
    forall i :: 0 <= i < |l.items| - 1 ==> l.items[i].ResponseSignature() != ZERO
  }

  lemma VerifiedOlder(env: Env, l: LedgerState)
    ensures Verified(env, l) ==> OlderCountersigned(l)
  {
    if Verified(env, l) {
      forall i | 0 <= i < |l.items| - 1
        ensures l.items[i].ResponseSignature() != ZERO
      {
        VerifySound(env, l, i);
      }
    }
  }

  /** ... and that is all there is to acceptance. */
  lemma VerifyExactly(env: Env, l: LedgerState)
    ensures Verified(env, l) <==> l.items != [] && forall i :: 0 <= i < |l.items| ==> Attested(env, l, i)
  {
    forall i | 0 <= i < |l.items|
      ensures Passes(env, l, i) <==> Attested(env, l, i)
    {
      hide SerializeItem, HeadDigest;
    }
    hide Passes, Attested;
  }

  /** An item of a known initiator, countersigned unless it is the newest, whose request signature is good, or whose
      response signature is when there is no request signature. */
  predicate Attested(env: Env, l: LedgerState, i: nat)
    requires i < |l.items|
  {
    var it := l.items[i];
    var bob := it.initiator == BOB;
    var request := if bob then it.bobSignature else it.aliceSignature;
    var response := if bob then it.aliceSignature else it.bobSignature;
    var requestKey := if bob then l.head.bob else l.head.alice;
    var responseKey := if bob then l.head.alice else l.head.bob;
    && it.initiator != NOONE && (response == ZERO ==> i == |l.items| - 1)
    && var d := HeadDigest(env, l.head);
    if request != ZERO then env.verifies(requestKey, env.hash(d + SerializeItem(env, l.Prev(i), it, REQUEST)), request)
    else response != ZERO ==>
      env.verifies(responseKey, env.hash(d + SerializeItem(env, l.Prev(i), it, RESPONSE)), response)
  }

  /** Completeness: a fully and correctly signed ledger passes, with or without a countersigned newest item. */
  lemma VerifyComplete(env: Env, l: LedgerState)
    requires l.items != []
    requires forall i :: 0 <= i < |l.items| ==> l.items[i].initiator != NOONE
    requires forall i :: 0 <= i < |l.items| - 1 ==> l.items[i].ResponseSignature() != ZERO
    requires forall i :: 0 <= i < |l.items| && l.items[i].RequestSignature() != ZERO ==> RequestHolds(env, l, i)
    requires forall i :: 0 <= i < |l.items| && l.items[i].ResponseSignature() != ZERO ==> ResponseHolds(env, l, i)
    ensures Verified(env, l)
  {
  }

  // ---- what verify promises about a response signature

  /** The ledger with `s` in the response slot of item `i`. */
  function WithResponseAt(l: LedgerState, i: nat, s: Digest): (r: LedgerState)
    requires i < |l.items|
    ensures |r.items| == |l.items|
  {
    l.(items := l.items[i := l.items[i].WithResponse(s)])
  }

  /** The 64 bytes the next item writes for item `i` do not move with its response slot. The newest item has no next. */
  ghost predicate ResponseNotInParent(env: Env, l: LedgerState, i: nat)
    requires i < |l.items|
  {
    i < |l.items| - 1 ==> forall s: Digest :: env.parentRef(l.items[i].WithResponse(s)) == env.parentRef(l.items[i])
  }

  /** An item's own messages do not cover its response slot; the next item's cover it as far as the predecessor's bytes
      do; no other message does. */
  lemma MessagesWithResponse(env: Env, l: LedgerState, i: nat, s: Digest, j: nat, stage: Stage)
    requires i < |l.items| && j < |l.items| && !stage.FINAL?
    ensures var l' := WithResponseAt(l, i, s);
            Message(env, l.head, l'.Prev(j), l'.items[j], stage) == Message(env, l.head, l.Prev(j), l.items[j], stage)
            <==> (j == i + 1 ==> env.parentRef(l.items[i].WithResponse(s)) == env.parentRef(l.items[i]))
  {
    var l' := WithResponseAt(l, i, s);
    EntriesWithResponse(env, l, i, s, j, stage);
    var d := HeadDigest(env, l.head);
    var e, e' := EntryOf(env, l.Prev(j), l.items[j], stage), EntryOf(env, l'.Prev(j), l'.items[j], stage);
    ItemFits(env, l.Prev(j), l.items[j], stage);
    ItemFits(env, l'.Prev(j), l'.items[j], stage);
    hide EntryOf, EncodeEntry, Encodable, HeadDigest;
    if d + EncodeEntry(e') == d + EncodeEntry(e) {
      MessageInjective(d, e', d, e);
    }
  }

  lemma EntriesWithResponse(env: Env, l: LedgerState, i: nat, s: Digest, j: nat, stage: Stage)
    requires i < |l.items| && j < |l.items| && !stage.FINAL?
    ensures var l' := WithResponseAt(l, i, s);
            EntryOf(env, l'.Prev(j), l'.items[j], stage) == EntryOf(env, l.Prev(j), l.items[j], stage)
            <==> (j == i + 1 ==> env.parentRef(l.items[i].WithResponse(s)) == env.parentRef(l.items[i]))
  {
    hide IntOctets, KeyPart;
  }

  lemma PassesWithResponse(env: Env, l: LedgerState, i: nat, s: Digest, j: nat)
    requires i < |l.items| && j < |l.items|
    requires l.items[i].RequestSignature() != ZERO && s != ZERO
    requires j == i + 1 ==> env.parentRef(l.items[i].WithResponse(s)) == env.parentRef(l.items[i])
    ensures Passes(env, l, j) ==> Passes(env, WithResponseAt(l, i, s), j)
    ensures l.items[i].ResponseSignature() != ZERO && Passes(env, WithResponseAt(l, i, s), j) ==> Passes(env, l, j)
  {
    hide SignatureHolds;
    HoldsWithResponse(env, l, i, s, j, REQUEST);
    HoldsWithResponse(env, l, i, s, j, RESPONSE);
  }

  lemma HoldsWithResponse(env: Env, l: LedgerState, i: nat, s: Digest, j: nat, stage: Stage)
    requires i < |l.items| && j < |l.items| && !stage.FINAL?
    requires j == i + 1 ==> env.parentRef(l.items[i].WithResponse(s)) == env.parentRef(l.items[i])
    ensures forall key: Key, signature: Digest ::
              SignatureHolds(env, WithResponseAt(l, i, s), j, stage, key, signature)
              <==> SignatureHolds(env, l, j, stage, key, signature)
  {
    MessagesWithResponse(env, l, i, s, j, stage);
    hide Message;
  }

  /** The item after `i` would give a changed response signature away. */
  predicate NextRejects(env: Env, l: LedgerState, i: nat, s: Digest)
    requires i < |l.items|
  {
    i + 1 < |l.items| && !Passes(env, WithResponseAt(l, i, s), i + 1)
  }

  /** Putting anything but zeros into the response slot next to a request signature only the next item can notice. */
  lemma OnlyNextNotices(env: Env, l: LedgerState, i: nat, s: Digest)
    requires Verified(env, l) && i < |l.items| && l.items[i].RequestSignature() != ZERO && s != ZERO
    ensures Verified(env, WithResponseAt(l, i, s)) <==> !NextRejects(env, l, i, s)
  {
    hide Passes;
    forall j | 0 <= j < |l.items| && j != i + 1
      ensures Passes(env, WithResponseAt(l, i, s), j)
    {
      PassesWithResponse(env, l, i, s, j);
    }
  }

  /** So the verdict on the whole ledger stays, for the newest item always and for an older one when the bytes the next
      item writes for it do not move. */
  lemma ResponseCheckOverwritten(env: Env, l: LedgerState, i: nat, s: Digest)
    requires i < |l.items| && l.items[i].RequestSignature() != ZERO && s != ZERO
    requires i < |l.items| - 1 ==> env.parentRef(l.items[i].WithResponse(s)) == env.parentRef(l.items[i])
    ensures Verified(env, l) ==> Verified(env, WithResponseAt(l, i, s))
    ensures l.items[i].ResponseSignature() != ZERO && Verified(env, WithResponseAt(l, i, s)) ==> Verified(env, l)
  {
    hide Passes;
    var l' := WithResponseAt(l, i, s);
    forall j | 0 <= j < |l.items|
      ensures Passes(env, l, j) ==> Passes(env, l', j)
      ensures l.items[i].ResponseSignature() != ZERO && Passes(env, l', j) ==> Passes(env, l, j)
    {
      PassesWithResponse(env, l, i, s, j);
    }
  }

  /** Signature `s` in the response slot of item `i` verifies over what a response covers. */
  predicate ResponseGood(env: Env, l: LedgerState, i: nat, s: Digest)
    requires i < |l.items|
  {
    SignatureHolds(env, l, i, RESPONSE, l.Keys().ResponseKey(l.items[i].initiator), s)
  }

  lemma ReplacedResponseGood(env: Env, l: LedgerState, i: nat, s: Digest)
    requires i < |l.items|
    ensures ResponseHolds(env, WithResponseAt(l, i, s), i) <==> ResponseGood(env, l, i, s)
  {
    MessagesWithResponse(env, l, i, s, i, RESPONSE);
    hide Message;
  }

  /** Acceptance of a verified ledger guarantees the response signature of item `i`, whatever stands in its slot. */
  ghost predicate Enforces(env: Env, l: LedgerState, i: nat)
    requires i < |l.items|
  {
    forall s: Digest :: s != ZERO && Verified(env, WithResponseAt(l, i, s)) ==>
        ResponseHolds(env, WithResponseAt(l, i, s), i)
  }

  /** What acceptance is worth, for any item: it guarantees the response signature if and only if the item carries no
      request signature, or nothing bad could stand there without the next item failing. */
  lemma EnforcedExactly(env: Env, l: LedgerState, i: nat)
    requires Verified(env, l) && i < |l.items|
    ensures Enforces(env, l, i)
            <==> || l.items[i].RequestSignature() == ZERO
                 || forall s: Digest :: s != ZERO ==> ResponseGood(env, l, i, s) || NextRejects(env, l, i, s)
  {
    hide Passes, Verified, ResponseHolds, ResponseGood, NextRejects, WithResponseAt;
    forall s: Digest | s != ZERO
      ensures ResponseHolds(env, WithResponseAt(l, i, s), i) <==> ResponseGood(env, l, i, s)
      ensures if l.items[i].RequestSignature() == ZERO
              then Verified(env, WithResponseAt(l, i, s)) ==> ResponseHolds(env, WithResponseAt(l, i, s), i)
              else Verified(env, WithResponseAt(l, i, s)) <==> !NextRejects(env, l, i, s)
    {
      ReplacedResponseGood(env, l, i, s);
      if l.items[i].RequestSignature() == ZERO {
        BareResponseChecked(env, l, i, s);
      } else {
        OnlyNextNotices(env, l, i, s);
      }
    }
  }

  /** For the newest item, and for one whose response slot is not among the bytes the next item writes, only the guard
      of the skipped check is left (or a responder's key that takes anything). */
  lemma ResponseEnforced(env: Env, l: LedgerState, i: nat)
    requires Verified(env, l) && i < |l.items| && ResponseNotInParent(env, l, i)
    ensures Enforces(env, l, i)
            <==> l.items[i].RequestSignature() == ZERO || forall s: Digest :: s != ZERO ==> ResponseGood(env, l, i, s)
  {
    hide Enforces, Passes, ResponseGood;
    EnforcedExactly(env, l, i);
    if l.items[i].RequestSignature() != ZERO && i + 1 < |l.items| {
      forall s: Digest | s != ZERO
        ensures !NextRejects(env, l, i, s)
      {
        PassesWithResponse(env, l, i, s, i + 1);
      }
    }
  }

  /** Without a request signature the response signature is what decides. */
  lemma BareResponseChecked(env: Env, l: LedgerState, i: nat, s: Digest)
    requires i < |l.items| && l.items[i].RequestSignature() == ZERO && s != ZERO
    ensures Verified(env, WithResponseAt(l, i, s)) ==> ResponseHolds(env, WithResponseAt(l, i, s), i)
  {
    var l' := WithResponseAt(l, i, s);
    assert Verified(env, l') ==> Passes(env, l', i);
    hide SignatureHolds;
  }

  /** Any one-item ledger with a good request signature and a bad response signature is accepted. */
  lemma BadResponseAccepted(env: Env, l: LedgerState)
    requires |l.items| == 1 && l.items[0].initiator != NOONE
    requires l.items[0].RequestSignature() != ZERO && RequestHolds(env, l, 0)
    requires l.items[0].ResponseSignature() != ZERO && !ResponseHolds(env, l, 0)
    ensures Verified(env, l)
  {
  }

  function Repeated(b: byte): Digest {
    seq(64, _ => b)
  }

  /** One such ledger: the only signature that verifies is all ones, the response signature is all twos. */
  lemma BadResponseExample()
    ensures var env := Env(_ => ZERO, (key, digest, signature) => signature == Repeated(1), _ => ZERO);
            var it := BLANK.(initiator := ALICE, aliceSignature := Repeated(1), bobSignature := Repeated(2));
            var l := EMPTY.(items := [it]);
            Verified(env, l) && it.State() == FINAL && !ResponseHolds(env, l, 0)
  {
    assert Repeated(1)[0] == 1 && Repeated(2)[0] == 2 && ZERO[0] == 0;
    hide Message;
  }

  // ---- the cache

  datatype Balance = AliceCredit | BobCredit | AliceCollateral | BobCollateral {
    function Of(it: Item): int32 {
      match this
      case AliceCredit => it.aliceCredit
      case BobCredit => it.bobCredit
      case AliceCollateral => it.aliceCollateral
      case BobCollateral => it.bobCollateral
    }
  }

  function Sum(items: seq<Item>, part: Balance): int {
    if items == [] then 0 else Sum(items[..|items| - 1], part) + part.Of(items[|items| - 1])
  }

  /** The cache holds the four sums and the count, each reduced to 32 bits. */
  predicate CacheIs(c: Option<Cache>, items: seq<Item>) {
    c == Some(Cache(Wrap32(|items|), Wrap32(Sum(items, AliceCredit)), Wrap32(Sum(items, BobCredit)),
                    Wrap32(Sum(items, AliceCollateral)), Wrap32(Sum(items, BobCollateral))))
  }

  datatype Attempt = Attempt(data: seq<byte>, who: Initiator, stack: Stack)

  /** Any sequence of item parses. */
  function ParseAll(env: Env, l: LedgerState, attempts: seq<Attempt>): LedgerState {
    if attempts == [] then l
    else
      var before := ParseAll(env, l, attempts[..|attempts| - 1]);
      var a := attempts[|attempts| - 1];
      ParseItem(env, before, a.data, a.who, a.stack).ledger
  }

  /** The items of the attempts that were accepted, in order. */
  function Accepted(env: Env, p: Party, attempts: seq<Attempt>): seq<Item> {
    if attempts == [] then []
    else
      var a := attempts[|attempts| - 1];
      var r := ReadItem(env, p, a.data, a.who, a.stack);
      Accepted(env, p, attempts[..|attempts| - 1]) + if r.ok then [r.item] else []
  }

  lemma WrapAdd(x: int, y: int)
    ensures Wrap32(Wrap32(x) + y) == Wrap32(x + y)
  {
    var k := (x - Wrap32(x)) / 0x1_0000_0000;
    assert x + y == Wrap32(x) + y + 0x1_0000_0000 * k;
    var q := (Wrap32(x) + y) / 0x1_0000_0000;
    assert (x + y) / 0x1_0000_0000 == q + k;
    hide Wrap32;
  }

  lemma CacheStep(c: Option<Cache>, items: seq<Item>, it: Item)
    requires CacheIs(c, items)
    ensures CacheIs(ApplyCache(c, it), items + [it])
  {
    hide Wrap32;
    WrapAdd(|items|, 1);
    SumAppend(items, it, AliceCredit);
    SumAppend(items, it, BobCredit);
    SumAppend(items, it, AliceCollateral);
    SumAppend(items, it, BobCollateral);
  }

  lemma SumAppend(items: seq<Item>, it: Item, part: Balance)
    ensures Sum(items + [it], part) == Sum(items, part) + part.Of(it)
    ensures Wrap32(Wrap32(Sum(items, part)) + part.Of(it)) == Wrap32(Sum(items + [it], part))
  {
    assert (items + [it])[..|items|] == items;
    WrapAdd(Sum(items, part), part.Of(it));
  }

  /** After a reset the cache is the fold of the accepted items, over any run of successful and failed parses. */
  lemma {:induction false} CacheIsFold(env: Env, l: LedgerState, attempts: seq<Attempt>)
    requires l.cache == Some(NO_CACHE)
    ensures var after := ParseAll(env, l, attempts);
            after.Keys() == l.Keys() && CacheIs(after.cache, Accepted(env, l.Keys(), attempts))
  {
    if attempts != [] {
      var n := |attempts| - 1;
      CacheIsFold(env, l, attempts[..n]);
      var a, acc := attempts[n], Accepted(env, l.Keys(), attempts[..n]);
      var r := ReadItem(env, l.Keys(), a.data, a.who, a.stack);
      if r.ok {
        CacheStep(ParseAll(env, l, attempts[..n]).cache, acc, r.item);
      } else {
        assert acc + [] == acc;
      }
    }
  }

  /** The linked list keeps one item per attempt, failed or not; it is the list of accepted items, and so the cache is
      the sum over the walk of the list, exactly when no parse failed. */
  lemma {:induction false} ListIsAccepted(env: Env, l: LedgerState, attempts: seq<Attempt>)
    requires l.items == []
    ensures var after, acc := ParseAll(env, l, attempts), Accepted(env, l.Keys(), attempts);
            && after.Keys() == l.Keys() && |after.items| == |attempts| >= |acc|
            && (after.items == acc <==> NoneFailed(env, l.Keys(), attempts))
  {
    if attempts != [] {
      var n := |attempts| - 1;
      ListIsAccepted(env, l, attempts[..n]);
      var a, acc := attempts[n], Accepted(env, l.Keys(), attempts[..n]);
      var before := ParseAll(env, l, attempts[..n]);
      var r := ReadItem(env, l.Keys(), a.data, a.who, a.stack);
      if r.ok {
        assert (before.items + [r.item])[..n] == before.items && (acc + [r.item])[..|acc|] == acc;
      }
    }
  }

  predicate NoneFailed(env: Env, p: Party, attempts: seq<Attempt>) {
    attempts == []
    || (var a := attempts[|attempts| - 1];
        ReadItem(env, p, a.data, a.who, a.stack).ok && NoneFailed(env, p, attempts[..|attempts| - 1]))
  }

  lemma {:induction false} SumBound(items: seq<Item>, part: Balance, m: nat)
    requires forall i :: 0 <= i < |items| ==> -(m as int) <= part.Of(items[i]) <= m
    ensures -(m * |items|) <= Sum(items, part) <= m * |items|
  {
    if items != [] {
      SumBound(items[..|items| - 1], part, m);
      assert m * |items| == m * (|items| - 1) + m;
    }
  }

  /** No balance wraps while count times the largest delta stays in 32 bits. */
  lemma BalancesExact(c: Option<Cache>, items: seq<Item>, m: nat)
    requires CacheIs(c, items)
    requires forall i, part: Balance :: 0 <= i < |items| ==> -(m as int) <= part.Of(items[i]) <= m
    requires m * |items| < 0x8000_0000 && |items| < 0x8000_0000
    ensures c.Some? && c.value.count == |items|
    ensures c.value.aliceCredit == Sum(items, AliceCredit) && c.value.bobCredit == Sum(items, BobCredit)
    ensures c.value.aliceCollateral == Sum(items, AliceCollateral) && c.value.bobCollateral == Sum(items, BobCollateral)
  {
    SumBound(items, AliceCredit, m);
    SumBound(items, BobCredit, m);
    SumBound(items, AliceCollateral, m);
    SumBound(items, BobCollateral, m);
  }
}
