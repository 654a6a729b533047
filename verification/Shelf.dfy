/** Several ledgers in one store: a put adds one head and the entries of its own ledger, and the list of heads shows
    it. */
module Shelf {
  import opened Bytes
  import opened Endian
  import opened LedgerValues
  import opened LedgerOperations
  import opened LedgerObject
  import opened Db
  import opened Store
  import opened HeadStore
  import opened Reload

  /** The three kinds of key, octet by octet. */
  lemma KeyLayout(digest: Digest, gap: byte, sec: int, nsec: int)
    ensures HeadKey(sec, nsec) == [0x01] + Word(U32(sec)) + Word(U32(nsec))
    ensures EntryKey(digest, gap, sec, nsec) == [0x02] + digest + [gap] + Word(U32(sec)) + Word(U32(nsec))
    ensures ReverseKey(digest) == [0xff] + digest
  {
    hide Word;
  }

  // ---- the other ledgers' entries

  /** An entry key names its ledger. */
  lemma EntryKeyNamesLedger(d: Digest, d': Digest, gap: byte, sec: int, nsec: int)
    ensures HasPrefix(EntryKey(d, gap, sec, nsec), EntryRef(d')) <==> d == d'
  {
    var k := EntryKey(d, gap, sec, nsec);
    assert k[..65] == EntryRef(d);
    assert EntryRef(d)[1..] == d && EntryRef(d')[1..] == d';
    assert HasPrefix(k, EntryRef(d')) <==> k[..65] == EntryRef(d');
  }

  lemma {:induction false} ItemsElsewhere(
      env: Env, l: LedgerState, gap: byte, rs: seq<Record>, idx: nat, p: seq<byte>, from: seq<byte>)
    requires forall i :: 0 <= i < |l.items| ==> !HasPrefix(ItemRecord(env, l, gap, i).key, p)
    ensures Matching(PutItems(env, l, gap, rs, idx), p, from) == Matching(rs, p, from)
    decreases |l.items| - idx
  {
    hide ItemRecord, Matching, Insert, HasPrefix, HasKey;
    if idx < |l.items| {
      var r := ItemRecord(env, l, gap, |l.items| - 1 - idx);
      InsertElsewhere(rs, r, p, from);
      ItemsElsewhere(env, l, gap, Insert(rs, r), idx + 1, p, from);
    }
  }

  /** A put neither shows up in nor disturbs the scan of any other ledger, whatever the store holds. */
  lemma OtherLedgerUntouched(env: Env, l: LedgerState, gap: byte, rs: seq<Record>, sec: int, nsec: int, d: Digest)
    requires d != l.digest
    ensures Entries(PutAll(env, l, gap, rs, sec, nsec), d) == Entries(rs, d)
  {
    var (head, reverse) := HeadRecords(l, sec, nsec);
    var p, from := EntryRef(d), EntryRef(d) + [0];
    assert !HasPrefix(head.key, p) && !HasPrefix(reverse.key, p) by {
      assert head.key[0] != p[0] && reverse.key[0] != p[0];
    }
    forall i | 0 <= i < |l.items|
      ensures !HasPrefix(ItemRecord(env, l, gap, i).key, p)
    {
      EntryKeyNamesLedger(l.digest, d, gap, l.items[i].sec, l.items[i].nsec);
    }
    hide ItemRecord, Matching, Insert, HasPrefix, HasKey, PutItems;
    InsertElsewhere(rs, head, p, from);
    InsertElsewhere(Insert(rs, head), reverse, p, from);
    ItemsElsewhere(env, l, gap, Insert(Insert(rs, head), reverse), 0, p, from);
  }

  // ---- the heads

  /** Heads sort by time: seconds first. */
  lemma HeadKeyOrder(sec: int, nsec: int, sec': int, nsec': int)
    ensures Below(HeadKey(sec, nsec), HeadKey(sec', nsec'))
            <==> U32(sec) < U32(sec') || (U32(sec) == U32(sec') && U32(nsec) < U32(nsec'))
  {
    KeyPartOrder(sec, nsec, sec', nsec');
    BelowAfterPrefix([KEY_HEAD], KeyPart(sec, nsec), KeyPart(sec', nsec'));
  }

  lemma {:induction false} NothingBelowZeros(s: seq<byte>, n: nat)
    requires |s| == n
    ensures !Below(s, Zeros(n))
  {
    if n > 0 {
      assert Zeros(n)[1..] == Zeros(n - 1);
      NothingBelowZeros(s[1..], n - 1);
    }
  }

  /** The list of heads holds every stored record with the head's prefix and a time of eight bytes, except one at time
      zero, which the seek skips. */
  lemma HeadIsListed(rs: seq<Record>, r: Record, time: seq<byte>)
    requires r in rs && |time| == 8 && r.key == [0x01] + time
    ensures r in Heads(rs) <==> time != Zeros(8)
  {
    BelowSuccessor(r.key, HEAD_START);
    BelowAfterPrefix([KEY_HEAD], time, Zeros(8));
    NothingBelowZeros(time, 8);
    assert r.key == HEAD_START <==> time == Zeros(8) by {
      assert r.key[1..] == time && HEAD_START[1..] == Zeros(8);
    }
    assert HasPrefix(r.key, [KEY_HEAD]);
    hide Below, Matching, HasPrefix;
    if time != Zeros(8) {
      MatchingIsComplete(rs, [KEY_HEAD], HEAD_START + [0], r);
    } else if r in Heads(rs) {
      MatchingAreRecords(rs, [KEY_HEAD], HEAD_START + [0], r);
    }
  }

  lemma {:induction false} InsertLastMatch(rs: seq<Record>, r: Record, p: seq<byte>, from: seq<byte>)
    requires Sorted(rs) && !HasKey(rs, r.key) && Matches(r, p, from)
    requires forall x :: x in Matching(rs, p, from) ==> Below(x.key, r.key)
    ensures Matching(Insert(rs, r), p, from) == Matching(rs, p, from) + [r]
  {
    hide Matching, Insert, Below, Matches;
    InsertUnfolds(rs, r);
    if rs == [] {
      MatchingCons(r, [], p, from);
      NothingMatches(p, from);
    } else if Below(rs[0].key, r.key) {
      assert rs == [rs[0]] + rs[1..];
      MatchingCons(rs[0], rs[1..], p, from);
      MatchingCons(rs[0], Insert(rs[1..], r), p, from);
      SortedRest(rs, r.key);
      InsertLastMatch(rs[1..], r, p, from);
    } else {
      MatchingCons(r, rs, p, from);
      NoneAbove(rs, r, p, from);
    }
  }

  lemma NothingMatches(p: seq<byte>, from: seq<byte>)
    ensures Matching([], p, from) == []
  {
  }

  lemma SortedRest(rs: seq<Record>, key: seq<byte>)
    requires Sorted(rs) && rs != [] && !HasKey(rs, key)
    ensures Sorted(rs[1..]) && !HasKey(rs[1..], key)
  {
    HasKeyFront(rs, key);
  }

  /** Records above `r` that would have to be below it. */
  lemma NoneAbove(rs: seq<Record>, r: Record, p: seq<byte>, from: seq<byte>)
    requires Sorted(rs) && rs != [] && !HasKey(rs, r.key) && !Below(rs[0].key, r.key)
    requires forall x :: x in Matching(rs, p, from) ==> Below(x.key, r.key)
    ensures Matching(rs, p, from) == []
  {
    hide Matching, Below;
    var m := Matching(rs, p, from);
    if m != [] {
      assert m[0] in m;
      MatchingAreRecords(rs, p, from, m[0]);
      AllAbove(rs, r.key, m[0]);
      BelowIsStrict(m[0].key, r.key);
    }
  }

  lemma AllAbove(rs: seq<Record>, key: seq<byte>, x: Record)
    requires Sorted(rs) && rs != [] && !HasKey(rs, key) && !Below(rs[0].key, key) && x in rs
    ensures Below(key, x.key)
  {
    hide Below;
    var i :| 0 <= i < |rs| && rs[i] == x;
    BelowIsStrict(rs[0].key, key);
    if i > 0 {
      BelowIsTransitive(key, rs[0].key, x.key);
    }
  }

  /** A time later than that of every listed head. */
  ghost predicate Latest(rs: seq<Record>, sec: int, nsec: int) {
    forall x :: x in Heads(rs) ==> Below(x.key, HeadKey(sec, nsec))
  }

  /** After a put at a later time than all before, the list of heads is the old one with the new head at its end. */
  lemma HeadsAfterPut(env: Env, l: LedgerState, gap: byte, rs: seq<Record>, sec: int, nsec: int)
    requires Sorted(rs) && !HasKey(rs, HeadKey(sec, nsec)) && Latest(rs, sec, nsec) && (U32(sec) != 0 || U32(nsec) != 0)
    ensures Heads(PutAll(env, l, gap, rs, sec, nsec)) == Heads(rs) + [Record(HeadKey(sec, nsec), SerializeHead(l.head))]
  {
    var (head, reverse) := HeadRecords(l, sec, nsec);
    var p, from := [KEY_HEAD], HEAD_START + [0];
    HeadMatches(sec, nsec, SerializeHead(l.head));
    assert !HasPrefix(reverse.key, p);
    forall i | 0 <= i < |l.items|
      ensures !HasPrefix(ItemRecord(env, l, gap, i).key, p)
    {
      assert ItemRecord(env, l, gap, i).key[0] == KEY_ENTRY;
    }
    hide ItemRecord, Matching, Insert, HasPrefix, HasKey, PutItems, Matches, SerializeHead, Below;
    InsertLastMatch(rs, head, p, from);
    InsertElsewhere(Insert(rs, head), reverse, p, from);
    ItemsElsewhere(env, l, gap, Insert(Insert(rs, head), reverse), 0, p, from);
  }

  lemma HeadMatches(sec: int, nsec: int, value: seq<byte>)
    requires U32(sec) != 0 || U32(nsec) != 0
    ensures Matches(Record(HeadKey(sec, nsec), value), [KEY_HEAD], HEAD_START + [0])
  {
    var r := Record(HeadKey(sec, nsec), value);
    KeyPartOrder(sec, nsec, 0, 0);
    assert KeyPart(0, 0) == Zeros(8);
    HeadIsListed([r], r, KeyPart(sec, nsec));
    hide Below;
    assert [r] == [r] + [];
    MatchingCons(r, [], [KEY_HEAD], HEAD_START + [0]);
    NothingMatches([KEY_HEAD], HEAD_START + [0]);
  }

  /** Put a ledger, then ask the list of ledgers for its last one: it is the ledger just stored, up to what the wire
      keeps of its head. */
  method PutThenSeek(
      ledger: Ledger, store: EntryStore, env: Env, sec: int, nsec: int, gap: byte, idx: nat, ghost junk: Digest)
    requires ledger.Valid() && store.db.Valid() && idx == |Heads(store.db.committed)|
    requires !HasKey(store.db.committed, HeadKey(sec, nsec)) && !HasKey(store.db.committed, ReverseKey(ledger.digest))
    requires Latest(store.db.committed, sec, nsec) && (U32(sec) != 0 || U32(nsec) != 0)
    modifies store, store.db
    ensures store.lastState == 1 && store.lastIdx == idx
    ensures ReadHead(env, NO_HEAD, ZERO, store.lastValue, junk)
            == HeadRead(true, Canonical(ledger.head), HeadDigest(env, ledger.head))
  {
    hide PutAll, Heads, SerializeHead, ReadHead, Canonical, HeadDigest, HasKey, Latest, Sorted, Ahead;
    HeadsAfterPut(env, ledger.View(), gap, store.db.committed, sec, nsec);
    HeadRoundTrip(env, ledger.head, ZERO, junk);
    var ok := Put(ledger, store.db, env, sec, nsec, gap);
    AheadOfRewound(store.db.committed, store.db.cursor);
    var i := store.Seek(idx);
  }

  lemma AheadOfRewound(rs: seq<Record>, c: Cursor)
    requires !c.browsing
    ensures Ahead(rs, c) == Heads(rs)
  {
  }
}
