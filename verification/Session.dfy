/** The whole exchange on the real objects: two ledgers, and each bundle carried by a transport message. */
module Session {
  import opened Bytes
  import opened LedgerValues
  import opened LedgerOperations
  import opened LedgerObject
  import opened Protocol
  import Transport

  const CMD_LEDGER: byte := 2

  /** The frame a bundle travels in. */
  function Frame(data: seq<byte>): seq<byte> {
    [CMD_LEDGER] + data
  }

  function AliceSends(env: Env, l: LedgerState, a: Signer): seq<byte>
    requires l.items != []
  {
    LedgerOperations.SerializeOpen(env, SignLast(env, l, a), RESPONSE)
  }

  function BobSends(env: Env, l: LedgerState, a: Signer, b: Signer, accept: bool): seq<byte>
    requires l.items != []
  {
    LedgerOperations.SerializeOpen(env, Answer(env, BobsCopy(env, l, a), b, accept), FINAL)
  }

  /** Sign the newest item and bundle it. */
  method SignAndBundle(ledger: Ledger, env: Env, gpg: Signer, stage: Stage) returns (data: seq<byte>)
    requires ledger.Valid() && ledger.last != null
    modifies ledger.last`aliceSignature
    ensures ledger.Valid() && ledger.chain == old(ledger.chain) && old(ledger.View()).items != []
    ensures ledger.View() == SignLast(env, old(ledger.View()), gpg)
    ensures data == LedgerOperations.SerializeOpen(env, ledger.View(), stage)
  {
    hide Sign, LedgerOperations.SerializeOpen;
    var code := ledger.Sign(env, ledger.last, |ledger.chain| - 1, gpg);
    data := ledger.SerializeOpen(env, stage);
  }

  /** The responder's answer goes into the flag of the newest item. */
  method AcceptNewest(ledger: Ledger, accept: bool)
    requires ledger.Valid() && ledger.last != null
    modifies ledger.last`response
    ensures ledger.Valid() && ledger.chain == old(ledger.chain) && old(ledger.View()).items != []
    ensures ledger.View() == AcceptLast(old(ledger.View()), accept)
  {
    ghost var n := |ledger.chain| - 1;
    if accept {
      ledger.last.response := true;
    }
    assert Values(ledger.chain) == old(Values(ledger.chain))[n := ledger.last.Value()];
  }

  /** Open what arrived into a new ledger. */
  method Open(env: Env, me: Key, data: seq<byte>, junk: Digest, st: Stack) returns (ok: bool, ledger: Ledger)
    ensures fresh(ledger) && fresh(ledger.chain) && ledger.Valid()
    ensures Outcome(ok, ledger.View()) == LedgerOperations.ParseOpen(env, me, data, junk, st)
  {
    hide LedgerOperations.ParseOpen;
    ledger := new Ledger();
    ok := ledger.ParseOpen(env, me, data, junk, st);
  }

  /** What both hold in the end: the agreed item, FINAL, in mirrored roles, with Alice's terms; hers verifies when the
      item's parent is zero, and if her signature is good for nothing else only then or with a collision. */
  ghost predicate Settled(env: Env, l: LedgerState, a: Signer, accept: bool, bobs: LedgerState, alices: LedgerState)
    requires l.items != []
  {
    && |alices.items| == 1 && |bobs.items| == 1
    && alices.items[0].State() == FINAL && bobs.items[0] == alices.items[0].Mirror()
    && SerializeItem(env, None, alices.items[0], REQUEST) == SerializeItem(env, None, Draft(l), REQUEST)
    && alices.items[0].response == (Draft(l).response || accept)
    && (ZeroParent(env, l) ==> Verified(env, alices))
    && (SignsOnly(env, a, env.hash(Requested(env, l))) ==>
          (Verified(env, alices) <==> ZeroParent(env, l) || Collides(env, Rebuilt(env, l), Requested(env, l))))
  }

  lemma ExchangeSettles(
      env: Env, l: LedgerState, a: Signer, b: Signer, accept: bool, junk: Digest, st: Stack, junk': Digest, st': Stack)
    requires Opening(l, a, b) && Honest(env, a) && Honest(env, b)
    ensures AliceSends(env, l, a) == LedgerOperations.SerializeOpen(env, SignLast(env, l, a), RESPONSE)
    ensures LedgerOperations.ParseOpen(env, b.key, AliceSends(env, l, a), junk, st)
            == Outcome(true, BobsCopy(env, l, a))
    ensures Answer(env, BobsCopy(env, l, a), b, accept) == SignLast(env, AcceptLast(BobsCopy(env, l, a), accept), b)
    ensures 1 + |AliceSends(env, l, a)| <= Transport.CHUNK_MAX_SIZE - 2
    ensures 1 + |BobSends(env, l, a, b, accept)| <= Transport.CHUNK_MAX_SIZE - 2
    ensures var bobs := Answer(env, BobsCopy(env, l, a), b, accept);
            && BobSends(env, l, a, b, accept) == LedgerOperations.SerializeOpen(env, bobs, FINAL)
            && var o := LedgerOperations.ParseOpen(env, a.key, BobSends(env, l, a, b, accept), junk', st');
            o.ok && Settled(env, l, a, accept, bobs, o.ledger)
  {
    BundleFits(env, SignLast(env, l, a), RESPONSE);
    BundleFits(env, Answer(env, BobsCopy(env, l, a), b, accept), FINAL);
    hide LedgerOperations.SerializeOpen, LedgerOperations.ParseOpen, AcceptLast, Opening, Honest, BobsCopy, Verified,
         ZeroParent, SignsOnly, Requested, Rebuilt, Collides, SerializeItem, SignLast;
    RequestArrives(env, l, a, b, junk, st);
    FullExchange(env, l, a, b, accept, junk, st, junk', st');
  }

  lemma OpeningHasItem(l: LedgerState, a: Signer, b: Signer)
    requires Opening(l, a, b)
    ensures l.items != []
  {
  }

  /** The object is in order and stands for `l`. */
  ghost predicate Holds(ledger: Ledger, l: LedgerState)
    reads ledger, ledger.chain
  {
    ledger.Valid() && ledger.View() == l
  }

  /** Alice signs and sends in a frame, Bob opens. */
  method RequestLeg(
      env: Env, z: Transport.Zip, alice: Ledger, ghost l: LedgerState, a: Signer, b: Signer, cap: nat, cap': nat,
      beyond: byte, junk: Digest, st: Stack)
    returns (bob: Ledger)
    requires Holds(alice, l) && alice.last != null && l.items != [] && Opening(l, a, b) && Honest(env, a)
    requires Transport.Inverts(z) && cap' >= Transport.CHUNK_MAX_SIZE - 2
    requires Transport.Dense(z, cap, Frame(AliceSends(env, l, a)))
    modifies alice.last
    ensures Holds(alice, SignLast(env, l, a)) && Holds(bob, BobsCopy(env, l, a))
    ensures fresh(bob) && fresh(bob.chain) && alice.chain == old(alice.chain)
  {
    hide LedgerOperations.SerializeOpen, LedgerOperations.ParseOpen, Opening, Honest, BobsCopy, SignLast, Frame,
         Transport.Dense, Transport.Inverts;
    RequestArrives(env, l, a, b, junk, st);
    BundleFits(env, SignLast(env, l, a), RESPONSE);
    var data := SignAndBundle(alice, env, a, RESPONSE);
    assert Holds(alice, SignLast(env, l, a));
    bob := Deliver(env, z, b.key, data, cap, cap', beyond, junk, st);
  }

  /** Bob answers, signs and sends back in a frame, Alice opens. */
  method ResponseLeg(
      env: Env, z: Transport.Zip, bob: Ledger, ghost l: LedgerState, a: Signer, b: Signer, accept: bool, cap: nat,
      cap': nat, beyond: byte, junk: Digest, st: Stack)
    returns (final: Ledger)
    requires Holds(bob, l) && bob.last != null && bob.last in bob.chain && l.items != []
    requires Transport.Inverts(z) && cap' >= Transport.CHUNK_MAX_SIZE - 2
    requires Transport.Dense(z, cap, Frame(LedgerOperations.SerializeOpen(env, Answer(env, l, b, accept), FINAL)))
    modifies bob.last
    ensures Holds(bob, Answer(env, l, b, accept)) && fresh(final) && fresh(final.chain)
    ensures var sent := LedgerOperations.SerializeOpen(env, Answer(env, l, b, accept), FINAL);
            Holds(final, LedgerOperations.ParseOpen(env, a.key, sent, junk, st).ledger)
  {
    hide LedgerOperations.SerializeOpen, LedgerOperations.ParseOpen, SignLast, Frame, Transport.Dense,
         Transport.Inverts;
    BundleFits(env, Answer(env, l, b, accept), FINAL);
    AcceptNewest(bob, accept);
    var data := SignAndBundle(bob, env, b, FINAL);
    assert Holds(bob, Answer(env, l, b, accept));
    final := Deliver(env, z, a.key, data, cap, cap', beyond, junk, st);
  }

  /** The exchange, message by message. It settles for every ledger and item, whatever the buffers hold, as long as both
      bundles compress to what a frame's text can hold. */
  method ExchangeOverFrames(
      env: Env, z: Transport.Zip, alice: Ledger, ghost l: LedgerState, a: Signer, b: Signer, accept: bool, cap: nat,
      cap': nat, beyond: byte, junk: Digest, st: Stack, junk': Digest, st': Stack)
    returns (bob: Ledger, final: Ledger)
    requires Holds(alice, l) && l.items != [] && alice.last != null
    requires Opening(l, a, b) && Honest(env, a) && Honest(env, b)
    requires Transport.Inverts(z) && cap' >= Transport.CHUNK_MAX_SIZE - 2
    requires Transport.Dense(z, cap, Frame(AliceSends(env, l, a)))
    requires Transport.Dense(z, cap, Frame(BobSends(env, l, a, b, accept)))
    modifies alice.last
    ensures Holds(alice, SignLast(env, l, a)) && Holds(bob, Answer(env, BobsCopy(env, l, a), b, accept))
    ensures var alices := LedgerOperations.ParseOpen(env, a.key, BobSends(env, l, a, b, accept), junk', st').ledger;
            Holds(final, alices) && Settled(env, l, a, accept, Answer(env, BobsCopy(env, l, a), b, accept), alices)
  {
    hide LedgerOperations.SerializeOpen, LedgerOperations.ParseOpen, Answer, Opening, Honest, BobsCopy, SignLast,
         Settled, AliceSends, Frame, Transport.Dense, Transport.Inverts;
    ExchangeSettles(env, l, a, b, accept, junk, st, junk', st');
    bob := RequestLeg(env, z, alice, l, a, b, cap, cap', beyond, junk, st);
    NewestOf(bob, BobsCopy(env, l, a));
    assert fresh(bob.last) && bob.last !in alice.chain;
    hide Holds;
    final := ResponseLeg(env, z, bob, BobsCopy(env, l, a), a, b, accept, cap, cap', beyond, junk', st');
  }

  lemma NewestOf(ledger: Ledger, l: LedgerState)
    requires Holds(ledger, l) && l.items != []
    ensures ledger.last != null && ledger.last in ledger.chain
  {
  }

  /** Carry a bundle in a frame and open what arrives. */
  method Deliver(
      env: Env, z: Transport.Zip, me: Key, data: seq<byte>, cap: nat, cap': nat, beyond: byte, junk: Digest, st: Stack)
    returns (ledger: Ledger)
    requires Transport.Inverts(z) && cap' >= Transport.CHUNK_MAX_SIZE - 2
    requires 1 + |data| <= Transport.CHUNK_MAX_SIZE - 2 && Transport.Dense(z, cap, Frame(data))
    ensures fresh(ledger) && fresh(ledger.chain) && ledger.Valid()
    ensures ledger.View() == LedgerOperations.ParseOpen(env, me, data, junk, st).ledger
  {
    hide LedgerOperations.ParseOpen, Transport.Dense, Transport.Inverts;
    var cmd, got := Transport.Exchange(z, CMD_LEDGER, false, data, cap, cap', beyond);
    var ok;
    ok, ledger := Open(env, me, got, junk, st);
  }
}
