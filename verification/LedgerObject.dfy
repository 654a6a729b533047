/** struct kee_ledger_t and its linked items, updated in place as src/ledger.c does. Every method is proved to take the
    abstract state to what the functions of LedgerOperations say. */
module LedgerObject {
  import opened Bytes
  import opened Endian
  import opened Schema
  import opened LedgerValues
  import Ops = LedgerOperations

  /** asn1_read_value into a buffer of which `cap` bytes are offered: too long is an error, too short leaves a tail. */
  method ReadValue(content: seq<byte>, buf: array<byte>, cap: nat) returns (ok: bool)
    requires cap <= buf.Length
    modifies buf
    ensures ok <==> |content| <= cap
    ensures buf[..] == if ok then Overlay(old(buf[..]), content) else old(buf[..])
  {
    ok := |content| <= cap;
    if ok {
      forall i | 0 <= i < |content| {
        buf[i] := content[i];
      }
    }
  }

  class ItemNode {
    var prev: ItemNode?
    var aliceCredit: int32
    var bobCredit: int32
    var aliceCollateral: int32
    var bobCollateral: int32
    var sec: int
    var nsec: int
    var initiator: Initiator
    var response: bool
    var aliceSignature: Digest
    var bobSignature: Digest
    var body: Digest

    function Value(): Item
      reads this
    {
      Item(aliceCredit, bobCredit, aliceCollateral, bobCollateral, sec, nsec, initiator, response, aliceSignature,
          bobSignature, body)
    }

    function PrevValue(): Option<Item>
      reads this, prev
    {
      if prev == null then None else Some(prev.Value())
    }

    /** kee_ledger_item_init on fresh zeroed memory, linked to its predecessor. */
    constructor (before: ItemNode?)
      ensures prev == before && Value() == BLANK
    {
      prev := before;
      aliceCredit, bobCredit, aliceCollateral, bobCollateral := 0, 0, 0, 0;
      sec, nsec := 0, 0;
      initiator, response := NOONE, false;
      aliceSignature, bobSignature, body := ZERO, ZERO, ZERO;
    }

    method FillDeltas(e: Entry) returns (ok: bool)
      requires e.creditDelta != [] && e.collateralDelta != []
      modifies this
      ensures prev == old(prev) && Parsed(ok, Value()) == LedgerValues.FillDeltas(e, old(Value()))
    {
      hide IntOf;
      if |e.creditDelta| > 4 {
        return false;
      }
      var v := ReadInt(e.creditDelta);
      if initiator.BOB? { bobCredit := v; } else { aliceCredit := v; }
      if |e.collateralDelta| > 4 {
        return false;
      }
      v := ReadInt(e.collateralDelta);
      if initiator.BOB? { bobCollateral := v; } else { aliceCollateral := v; }
      return true;
    }

    /** Flag, timestamp and content key all pass through one stack buffer. */
    method FillTimeAndBody(e: Entry, junk: Digest) returns (ok: bool)
      modifies this
      ensures prev == old(prev) && Parsed(ok, Value()) == LedgerValues.FillTimeAndBody(e, old(Value()), junk)
    {
      hide BE;
      var tmp := new byte[64](i requires 0 <= i < 64 => junk[i]);
      assert tmp[..] == junk;
      ok := ReadValue(if e.response then TRUE_TEXT else FALSE_TEXT, tmp, 8);
      if tmp[0] == 0x54 {
        response := true;
      }
      ok := ReadValue(e.timestamp, tmp, 8);
      if !ok {
        return;
      }
      assert tmp[..] == TimeBuffer(e, junk);
      hide TimeBuffer, Flipped;
      sec, nsec := FlipTime(tmp);
      ok := ReadValue(e.body, tmp, 64);
      if ok {
        body := tmp[..];
      }
    }

    method FillSignatures(e: Entry) returns (ok: bool)
      modifies this
      ensures prev == old(prev) && Parsed(ok, Value()) == LedgerValues.FillSignatures(e, old(Value()))
    {
      if |e.signatureRequest| > 64 {
        return false;
      }
      if initiator.BOB? {
        bobSignature := Overlay(bobSignature, e.signatureRequest);
      } else {
        aliceSignature := Overlay(aliceSignature, e.signatureRequest);
      }
      if |e.signatureResponse| > 64 {
        return false;
      }
      if initiator.BOB? {
        aliceSignature := Overlay(aliceSignature, e.signatureResponse);
      } else {
        bobSignature := Overlay(bobSignature, e.signatureResponse);
      }
      return true;
    }

    /** kee_ledger_parse_item from the decoding on (ledger.c:381-481), into a freshly linked item. */
    method Read(env: Env, p: Party, data: seq<byte>, who: Initiator, st: Stack) returns (ok: bool)
      requires Value() == BLANK
      modifies this
      ensures prev == old(prev) && Parsed(ok, Value()) == ReadItem(env, p, data, who, st)
    {
      hide DecodeEntry, ResponseVerifies, LedgerValues.FillDeltas, LedgerValues.FillTimeAndBody,
          LedgerValues.FillSignatures;
      if who.BOB? {
        initiator := BOB;
      } else {
        initiator := ALICE;
      }
      var key := if who.BOB? then p.alice else p.bob;
      match DecodeEntry(data)
      case None =>
        return false;
      case Some(e) =>
        if !ResponseVerifies(env, key, p.digest, e, st.sig) {
          return false;
        }
        EntryWrites(data);
        ok := FillDeltas(e);
        if !ok {
          return;
        }
        ok := FillTimeAndBody(e, st.tmp);
        if !ok {
          return;
        }
        ok := FillSignatures(e);
    }
  }

  /** The two in-place flips of ledger.c:447-448 and the copies into the host's words after them. */
  method FlipTime(tmp: array<byte>) returns (sec: nat, nsec: nat)
    requires tmp.Length == 64
    modifies tmp
    ensures tmp[..] == Flipped(old(tmp[..]))
    ensures sec == BE(old(tmp[..4])) && nsec == BE(old(tmp[4..8]))
  {
    hide BE;
    ghost var t := tmp[..];
    assert t[..0] == [] && t[0..0 + 4] == t[..4];
    FlipEndian(4, tmp, 0);
    ghost var half := Reversed(t[..4]) + t[4..];
    assert tmp[..] == half;
    assert half[..4] == Reversed(t[..4]) && half[4..4 + 4] == t[4..8] && half[4 + 4..] == t[8..];
    FlipEndian(4, tmp, 4);
    ghost var now := tmp[..];
    assert now[..4] == Reversed(t[..4]) && now[4..8] == Reversed(t[4..8]);
    assert Reversed(Reversed(t[..4])) == t[..4] && Reversed(Reversed(t[4..8])) == t[4..8];
    // a little-endian host reads the flipped words back to front
    sec, nsec := BE(Reversed(tmp[..4])), BE(Reversed(tmp[4..8]));
  }

  ghost function Values(chain: seq<ItemNode>): (s: seq<Item>)
    reads chain
    ensures |s| == |chain| && forall i :: 0 <= i < |chain| ==> s[i] == chain[i].Value()
  {
    seq(|chain|, i requires 0 <= i < |chain| reads chain => chain[i].Value())
  }

  lemma ValuesAppend(chain: seq<ItemNode>, item: ItemNode)
    ensures Values(chain + [item]) == Values(chain) + [item.Value()]
  {
  }

  class Ledger {
    var digest: Digest
    var last: ItemNode?
    var head: Head
    var cache: Option<Ops.Cache>

    /** The linked items, oldest first. */
    ghost var chain: seq<ItemNode>

    ghost predicate Valid()
      reads this, chain
    {
      && (chain != [] ==> chain[0].prev == null)
      && (forall i {:trigger chain[i].prev} :: 1 <= i < |chain| ==> chain[i].prev == chain[i - 1])
      && (forall i, j :: 0 <= i < j < |chain| ==> chain[i] != chain[j])
      && last == if chain == [] then null else chain[|chain| - 1]
    }

    /** What the links say about item `i`. */
    lemma NodeAt(i: nat)
      requires Valid() && i < |chain|
      ensures chain[i].prev == if i == 0 then null else chain[i - 1]
      ensures chain[i].Value() == View().items[i] && chain[i].PrevValue() == View().Prev(i)
    {
    }

    ghost function Items(): seq<Item>
      reads this, chain
    {
      Values(chain)
    }

    ghost function View(): Ops.LedgerState
      reads this, chain
    {
      Ops.LedgerState(head, digest, Items(), cache)
    }

    /** kee_ledger_init (ledger.c:505-514). */
    constructor ()
      ensures Valid() && View() == Ops.EMPTY
    {
      digest, last, head, cache, chain := ZERO, null, NO_HEAD, None, [];
    }

    /** kee_ledger_reset_cache (ledger.c:319-325). */
    method ResetCache()
      requires Valid()
      modifies this`cache
      ensures Valid() && chain == old(chain) && View() == old(View()).(cache := Some(Ops.NO_CACHE))
    {
      cache := Some(Ops.NO_CACHE);
    }

    /** kee_ledger_add_item (ledger.c:327-336). */
    method AddItem() returns (cur: ItemNode)
      requires Valid()
      modifies this`last, this`chain
      ensures Valid() && fresh(cur) && chain == old(chain) + [cur] && cur.Value() == BLANK
      ensures Items() == old(Items()) + [BLANK]
    {
      cur := new ItemNode(last);
      last := cur;
      chain := chain + [cur];
      ValuesAppend(old(chain), cur);
      assert Values(old(chain)) == old(Values(chain));
      hide Values;
    }

    /** kee_ledger_parse_item (ledger.c:352-486). */
    method ParseItem(env: Env, data: seq<byte>, who: Initiator, st: Stack) returns (cur: ItemNode?)
      requires Valid()
      modifies this`last, this`chain, this`cache
      ensures Valid() && |chain| == |old(chain)| + 1 && chain[..|old(chain)|] == old(chain) && fresh(last)
      ensures var r := Ops.ParseItem(env, old(View()), data, who, st);
              cur == (if r.ok then last else null) && View() == r.ledger
    {
      hide ReadItem, Ops.ApplyCache, Values;
      ghost var r := Ops.ParseItem(env, View(), data, who, st);
      var item, ok := Link(env, data, who, st);
      ghost var linked := View();
      assert linked.(cache := r.ledger.cache) == r.ledger && ok == r.ok;
      hide Ops.ParseItem;
      if !ok {
        return null;
      }
      ApplyCache(item);
      assert View() == linked.(cache := cache);
      return item;
    }

    /** The new item is linked before its bytes are looked at (ledger.c:380). */
    method Link(env: Env, data: seq<byte>, who: Initiator, st: Stack) returns (item: ItemNode, ok: bool)
      requires Valid()
      modifies this`last, this`chain
      ensures Valid() && chain == old(chain) + [item] && fresh(item)
      ensures Parsed(ok, item.Value()) == ReadItem(env, Party(digest, head.alice, head.bob), data, who, st)
      ensures Items() == old(Items()) + [item.Value()]
    {
      hide ReadItem;
      item := AddItem();
      ok := item.Read(env, Party(digest, head.alice, head.bob), data, who, st);
      ValuesAppend(old(chain), item);
      assert Values(old(chain)) == old(Values(chain));
      hide Values;
    }

    /** kee_ledger_item_apply_cache (ledger.c:306-317). */
    method ApplyCache(item: ItemNode)
      modifies this`cache
      ensures cache == Ops.ApplyCache(old(cache), item.Value())
    {
      if cache.None? {
        return;
      }
      var c := cache.value;
      cache := Some(Ops.Cache(Wrap32(c.count + 1),
                              Wrap32(c.aliceCredit + item.aliceCredit), Wrap32(c.bobCredit + item.bobCredit),
                              Wrap32(c.aliceCollateral + item.aliceCollateral),
                              Wrap32(c.bobCollateral + item.bobCollateral)));
    }

    /** kee_ledger_parse_item_db (ledger.c:338-350). */
    method ParseItemDb(env: Env, data: seq<byte>, st: Stack) returns (cur: ItemNode?)
      requires Valid() && data != []
      modifies this`last, this`chain, this`cache
      ensures Valid() && fresh(last)
      ensures var r := Ops.ParseItemDb(env, old(View()), data, st);
              cur == (if r.ok then last else null) && View() == r.ledger
    {
      var who := if data[|data| - 1] != 0 then BOB else ALICE;
      cur := ParseItem(env, data[..|data| - 1], who, st);
    }

    /** kee_ledger_parse (ledger.c:527-596). */
    method Parse(env: Env, data: seq<byte>, junk: Digest) returns (ok: bool)
      requires Valid()
      modifies this`digest, this`head
      ensures Valid() && chain == old(chain)
      ensures var r := ReadHead(env, old(head), old(digest), data, junk);
              ok == r.ok && View() == old(View()).(head := r.head, digest := r.digest)
    {
      hide SerializeHead, DecodeHead;
      match DecodeHead(data)
      case None =>
        return false;
      case Some(t) =>
        if |t.uoa| > 64 {
          return false;
        }
        head := head.(uoa := Overlay(head.uoa, t.uoa));
        if |t.uoaDecimals| != 1 {
          return false;
        }
        head := head.(decimals := t.uoaDecimals[0]);
        if |t.alicePubKey| > 32 {
          return false;
        }
        head := head.(alice := Overlay(head.alice, t.alicePubKey));
        if |t.bobPubKey| > 32 {
          return false;
        }
        head := head.(bob := Overlay(head.bob, t.bobPubKey));
        if |t.body| > 64 {
          return false;
        }
        head := head.(body := Overlay(junk, t.body));
        digest := env.hash(SerializeHead(head));
        return true;
    }

    /** kee_ledger_serialize_open (ledger.c:866-920): the head and the newest item. */
    method SerializeOpen(env: Env, stage: Stage) returns (data: seq<byte>)
      requires Valid() && last != null
      ensures chain != [] && data == Ops.SerializeOpen(env, View(), stage)
    {
      hide SerializeHead, SerializeItem, EncodeBundle;
      ghost var n := |chain| - 1;
      assert n > 0 ==> last.prev == chain[n - 1];
      assert last.Value() == View().items[n] && last.PrevValue() == View().Prev(n);
      return EncodeBundle(SerializeHead(head), SerializeItem(env, last.PrevValue(), last.Value(), stage));
    }

    /** kee_ledger_parse_open (ledger.c:922-994). */
    method ParseOpen(env: Env, me: Key, data: seq<byte>, junk: Digest, st: Stack) returns (ok: bool)
      modifies this
      ensures Valid() && fresh(chain)
      ensures Ops.Outcome(ok, View()) == Ops.ParseOpen(env, me, data, junk, st)
    {
      hide ReadHead, Ops.ParseItem, DecodeBundle;
      digest, last, head, cache, chain := ZERO, null, NO_HEAD, None, [];
      assert View() == Ops.EMPTY;
      match DecodeBundle(data)
      case None =>
        return false;
      case Some(parts) =>
        if |parts| < 1 || |parts[0]| > 1024 {
          return false;
        }
        ok := Parse(env, parts[0], junk);
        if !ok {
          return;
        }
        if |parts| < 2 || |parts[1]| > 1024 {
          return false;
        }
        var who := Ops.LocalInitiator(head, me);
        var item := ParseItem(env, parts[1], who, st);
        return item != null;
    }

    /** The local signature, always into the alice slot (ledger.c:817-864). */
    method Sign(env: Env, cur: ItemNode, ghost i: nat, gpg: Ops.Signer) returns (code: Ops.Code)
      requires Valid() && i < |chain| && chain[i] == cur
      modifies cur`aliceSignature
      ensures Valid() && chain == old(chain)
      ensures var r := Ops.Sign(env, old(head), old(View()).Prev(i), old(View()).items[i], gpg);
              code == r.code && View() == old(View()).(items := old(View()).items[i := r.item])
    {
      hide Message;
      NodeAt(i);
      var stage := REQUEST;
      if cur.initiator.BOB? {
        stage := RESPONSE;
      }
      if cur.aliceSignature != ZERO {
        return Ops.ALREADY_SIGNED;
      }
      match gpg.sign(env.hash(Message(env, head, cur.PrevValue(), cur.Value(), stage)))
      case None =>
        return Ops.FAIL;
      case Some(s) =>
        SetSignature(cur, i, s);
        return Ops.OK;
    }

    method SetSignature(cur: ItemNode, ghost i: nat, s: Digest)
      requires Valid() && i < |chain| && chain[i] == cur
      modifies cur`aliceSignature
      ensures Valid() && chain == old(chain)
      ensures var items := old(View()).items;
              View() == old(View()).(items := items[i := items[i].(aliceSignature := s)])
    {
      cur.aliceSignature := s;
      assert Values(chain) == old(Values(chain))[i := cur.Value()];
    }

    /** get_item_by_idx (ledger.c:1035-1048): index 0 is the newest. */
    method GetItemByIdx(idx: int) returns (item: ItemNode?)
      requires Valid()
      ensures item == if idx < |chain| && chain != [] then chain[|chain| - 1 - (if idx < 0 then 0 else idx)] else null
    {
      item := last;
      var i := 0;
      while i < idx
        invariant 0 <= i && (idx >= 0 ==> i <= idx) && (idx < 0 ==> i == 0)
        invariant i <= |chain|
        invariant item == if i < |chain| then chain[|chain| - 1 - i] else null
      {
        if item == null {
          return null;
        }
        assert chain[|chain| - 1 - i].prev == item.prev;
        item := item.prev;
        i := i + 1;
      }
    }

    /** kee_ledger_verify (ledger.c:1195-1298). It accepts exactly the ledgers each of whose items passes; the index is
        that of the oldest item, or of the first failing one counted from the newest. */
    method Verify(env: Env) returns (code: Ops.Code, idx: nat)
      requires Valid()
      ensures code == Ops.OK <==> Ops.Verified(env, View())
      ensures code == Ops.OK ==> Ops.OlderCountersigned(View())
      ensures code == Ops.OK ==> idx == |chain| - 1
      ensures chain == [] ==> code == Ops.FAIL && idx == 0
      ensures code != Ops.OK && chain != [] ==>
                idx < |chain| && !Ops.Passes(env, View(), |chain| - 1 - idx) && Ops.PassFrom(env, View(), |chain| - idx)
    {
      hide Ops.Passes, Ops.PassFrom, Ops.Verified, Ops.OlderCountersigned, Values;
      idx := 0;
      var item := last;
      if item == null {
        Ops.EmptyNotVerified(env, View());
        return Ops.FAIL, idx;
      }
      ghost var l := View();
      Ops.PassFromSteps(env, l, |chain| - 1);
      while true
        invariant idx < |chain| == |l.items| && item == chain[|chain| - 1 - idx] && View() == l
        invariant Ops.PassFrom(env, l, |chain| - idx)
        decreases |chain| - idx
      {
        NodeAt(|chain| - 1 - idx);
        Ops.PassFromSteps(env, l, |chain| - 1 - idx);
        var good := CheckItem(env, item, idx > 0, |chain| - 1 - idx);
        if !good {
          return Ops.FAIL, idx;
        }
        item := item.prev;
        if item == null {
          break;
        }
        idx := idx + 1;
      }
      Ops.VerifiedOlder(env, l);
      return Ops.OK, idx;
    }

    /** The checks of one turn (ledger.c:1258-1287). */
    method CheckItem(env: Env, item: ItemNode, older: bool, ghost pos: nat) returns (good: bool)
      requires Valid() && pos < |chain| && chain[pos] == item && (older <==> pos < |chain| - 1)
      ensures good <==> Ops.Passes(env, View(), pos)
    {
      hide Message;
      NodeAt(pos);
      if item.initiator == NOONE {
        return false;
      }
      var requestKey, responseKey := head.alice, head.bob;
      var request, response := item.aliceSignature, item.bobSignature;
      if item.initiator == BOB {
        requestKey, responseKey := head.bob, head.alice;
        request, response := item.bobSignature, item.aliceSignature;
      }
      good := true;
      if response == ZERO {
        if older {
          return false;
        }
      } else {
        good := env.verifies(responseKey, env.hash(Message(env, head, item.PrevValue(), item.Value(), RESPONSE)),
                             response);
      }
      if request != ZERO {
        good := env.verifies(requestKey, env.hash(Message(env, head, item.PrevValue(), item.Value(), REQUEST)),
                             request);
      }
    }
  }
}
