/** Storing a ledger and scanning it back is the identity on what is stored. */
module Reload {
  import opened Bytes
  import opened Endian
  import opened LedgerValues
  import opened LedgerOperations
  import opened LedgerObject
  import opened Db
  import opened Store

  /** Item times as they are written strictly increase. */
  ghost predicate StrictTimes(l: LedgerState) {
    forall i, j :: 0 <= i < j < |l.items| ==> Earlier(l.items[i], l.items[j])
  }

  predicate Earlier(a: Item, b: Item) {
    U32(a.sec) < U32(b.sec) || (U32(a.sec) == U32(b.sec) && U32(a.nsec) < U32(b.nsec))
  }

  /** The response signature is good for the stored bytes. */
  predicate Countersigned(env: Env, l: LedgerState, i: nat)
    requires i < |l.items|
  {
    env.verifies(l.Keys().ResponseKey(l.items[i].initiator),
                 env.hash(l.digest + SerializeItem(env, l.Prev(i), l.items[i], RESPONSE)),
                     l.items[i].ResponseSignature())
  }

  /** What storage keeps of an item: its own role's deltas, 32-bit times, the flag, both signatures, the content key. */
  function Stored(it: Item): Item {
    Received(it, it.initiator.Acting(), FINAL)
  }

  /** What a scan links for item `i`: its stored form, or a blank item when its response signature is not good. */
  function Reloaded(env: Env, l: LedgerState, i: nat): Item
    requires i < |l.items|
  {
    if Countersigned(env, l, i) then Stored(l.items[i]) else BLANK.(initiator := l.items[i].initiator.Acting())
  }

  function ReloadedItems(env: Env, l: LedgerState): (s: seq<Item>)
    ensures |s| == |l.items|
  {
    seq(|l.items|, i requires 0 <= i < |l.items| => Reloaded(env, l, i))
  }

  /** The stored forms of the countersigned ones among the oldest `k` items: what counts. */
  function Kept(env: Env, l: LedgerState, k: nat): (s: seq<Item>)
    requires k <= |l.items|
    ensures |s| <= k
  {
    if k == 0 then []
    else Kept(env, l, k - 1) + if Countersigned(env, l, k - 1) then [Stored(l.items[k - 1])] else []
  }

  ghost predicate AllCountersigned(env: Env, l: LedgerState, k: nat)
    requires k <= |l.items|
  {
    forall i :: 0 <= i < k ==> Countersigned(env, l, i)
  }

  lemma {:induction false} KeptCount(env: Env, l: LedgerState, k: nat)
    requires k <= |l.items|
    ensures |Kept(env, l, k)| == k <==> AllCountersigned(env, l, k)
  {
    hide Countersigned, Stored;
    if k > 0 {
      KeptCount(env, l, k - 1);
    }
  }

  function Records(env: Env, l: LedgerState, gap: byte, lo: nat): (s: seq<Record>)
    requires lo <= |l.items|
    ensures |s| == |l.items| - lo
  {
    seq(|l.items| - lo, i requires 0 <= i < |l.items| - lo => ItemRecord(env, l, gap, lo + i))
  }

  // ---- what an insertion does to a prefix scan

  predicate Matches(r: Record, p: seq<byte>, from: seq<byte>) {
    HasPrefix(r.key, p) && !Below(r.key, from)
  }

  lemma MatchingCons(r: Record, rs: seq<Record>, p: seq<byte>, from: seq<byte>)
    ensures Matching([r] + rs, p, from)
            == if Matches(r, p, from) then [r] + Matching(rs, p, from) else Matching(rs, p, from)
  {
    assert ([r] + rs)[1..] == rs;
    hide Below, HasPrefix;
  }

  lemma InsertUnfolds(rs: seq<Record>, r: Record)
    ensures if rs != [] && Below(rs[0].key, r.key) then Insert(rs, r) == [rs[0]] + Insert(rs[1..], r)
            else Insert(rs, r) == [r] + rs
  {
    hide Below;
  }

  lemma EarlierMatchesNot(rs: seq<Record>, r: Record, p: seq<byte>, from: seq<byte>)
    requires rs != [] && Below(rs[0].key, r.key) && forall x :: x in Matching(rs, p, from) ==> Below(r.key, x.key)
    ensures !Matches(rs[0], p, from)
  {
    hide Matching, Below, Matches;
    BelowIsStrict(rs[0].key, r.key);
    MatchingCons(rs[0], rs[1..], p, from);
    assert rs == [rs[0]] + rs[1..];
    var m := Matching(rs, p, from);
    assert m != [] ==> m[0] in m;
  }

  lemma {:induction false} InsertFirstMatch(rs: seq<Record>, r: Record, p: seq<byte>, from: seq<byte>)
    requires HasPrefix(r.key, p) && !Below(r.key, from)
    requires forall x :: x in Matching(rs, p, from) ==> Below(r.key, x.key)
    ensures Matching(Insert(rs, r), p, from) == [r] + Matching(rs, p, from)
  {
    assert Matches(r, p, from);
    hide Matching, Insert, Below, HasPrefix, Matches;
    InsertUnfolds(rs, r);
    if rs != [] && Below(rs[0].key, r.key) {
      EarlierMatchesNot(rs, r, p, from);
      assert rs == [rs[0]] + rs[1..];
      MatchingCons(rs[0], rs[1..], p, from);
      MatchingCons(rs[0], Insert(rs[1..], r), p, from);
      InsertFirstMatch(rs[1..], r, p, from);
    } else {
      MatchingCons(r, rs, p, from);
    }
  }

  lemma {:induction false} InsertElsewhere(rs: seq<Record>, r: Record, p: seq<byte>, from: seq<byte>)
    requires !HasPrefix(r.key, p)
    ensures Matching(Insert(rs, r), p, from) == Matching(rs, p, from)
  {
    assert !Matches(r, p, from);
    hide Matching, Insert, Below, HasPrefix, Matches;
    InsertUnfolds(rs, r);
    if rs != [] && Below(rs[0].key, r.key) {
      assert rs == [rs[0]] + rs[1..];
      MatchingCons(rs[0], rs[1..], p, from);
      MatchingCons(rs[0], Insert(rs[1..], r), p, from);
      InsertElsewhere(rs[1..], r, p, from);
    } else {
      MatchingCons(r, rs, p, from);
    }
  }

  lemma {:induction false} MatchingIsComplete(rs: seq<Record>, p: seq<byte>, from: seq<byte>, r: Record)
    requires r in rs && HasPrefix(r.key, p) && !Below(r.key, from)
    ensures r in Matching(rs, p, from)
  {
    if r != rs[0] {
      MatchingIsComplete(rs[1..], p, from, r);
    }
  }

  // ---- keys

  lemma EntryKeyFacts(digest: Digest, gap: byte, it: Item)
    ensures var k := EntryKey(digest, gap, it.sec, it.nsec);
            HasPrefix(k, EntryRef(digest)) && !Below(k, EntryRef(digest) + [0]) && 0 < |k| <= KEY_SIZE_LIMIT
  {
    var ref, tail := EntryRef(digest), [gap] + KeyPart(it.sec, it.nsec);
    assert EntryKey(digest, gap, it.sec, it.nsec) == ref + tail;
    BelowAfterPrefix(ref, tail, [0]);
  }

  /** With one gap byte for all, keys sort as the items' times do. */
  lemma EntryKeyOrder(digest: Digest, gap: byte, a: Item, b: Item)
    requires Earlier(a, b)
    ensures Below(EntryKey(digest, gap, a.sec, a.nsec), EntryKey(digest, gap, b.sec, b.nsec))
  {
    KeyPartOrder(a.sec, a.nsec, b.sec, b.nsec);
    BelowAfterPrefix(EntryRef(digest) + [gap], KeyPart(a.sec, a.nsec), KeyPart(b.sec, b.nsec));
  }

  /** A ledger digest no stored entry belongs to. */
  ghost predicate FreshDigest(rs: seq<Record>, digest: Digest) {
    Entries(rs, digest) == []
  }

  lemma FreshKeys(rs: seq<Record>, digest: Digest, gap: byte, it: Item)
    requires FreshDigest(rs, digest)
    ensures !HasKey(rs, EntryKey(digest, gap, it.sec, it.nsec))
  {
    var k := EntryKey(digest, gap, it.sec, it.nsec);
    EntryKeyFacts(digest, gap, it);
    if HasKey(rs, k) {
      var i :| 0 <= i < |rs| && rs[i].key == k;
      MatchingIsComplete(rs, EntryRef(digest), EntryRef(digest) + [0], rs[i]);
    }
  }

  // ---- the put loop

  /** Part of the way through the loop: the newest `idx` items are stored, in order, and the others' keys are free. */
  ghost predicate Progress(env: Env, l: LedgerState, gap: byte, rs: seq<Record>, idx: nat) {
    && idx <= |l.items| && Sorted(rs)
    && Entries(rs, l.digest) == Records(env, l, gap, |l.items| - idx)
    && forall i :: 0 <= i < |l.items| - idx ==> !HasKey(rs, ItemRecord(env, l, gap, i).key)
  }

  lemma OneMore(env: Env, l: LedgerState, gap: byte, rs: seq<Record>, idx: nat)
    requires StrictTimes(l) && Progress(env, l, gap, rs, idx) && idx < |l.items|
    ensures !HasKey(rs, ItemRecord(env, l, gap, |l.items| - 1 - idx).key)
    ensures Progress(env, l, gap, Insert(rs, ItemRecord(env, l, gap, |l.items| - 1 - idx)), idx + 1)
    ensures forall x :: x in rs ==> x in Insert(rs, ItemRecord(env, l, gap, |l.items| - 1 - idx))
  {
    hide SerializeItemDb, Insert, Matching, Below, HasKey, Sorted;
    var i := |l.items| - 1 - idx;
    var r := ItemRecord(env, l, gap, i);
    EntryKeyFacts(l.digest, gap, l.items[i]);
    var later := Records(env, l, gap, i + 1);
    forall x | x in later
      ensures Below(r.key, x.key)
    {
      var j :| 0 <= j < |later| && later[j] == x;
      assert later[j] == ItemRecord(env, l, gap, i + 1 + j);
      EntryKeyOrder(l.digest, gap, l.items[i], l.items[i + 1 + j]);
    }
    InsertFirstMatch(rs, r, EntryRef(l.digest), EntryRef(l.digest) + [0]);
    assert [r] + later == Records(env, l, gap, i);
    InsertSorted(rs, r);
    InsertMembers(rs, r);
    forall k | 0 <= k < i
      ensures !HasKey(Insert(rs, r), ItemRecord(env, l, gap, k).key)
    {
      EntryKeyOrder(l.digest, gap, l.items[k], l.items[i]);
      BelowIsStrict(ItemRecord(env, l, gap, k).key, r.key);
      HasKeyAfter(rs, r, ItemRecord(env, l, gap, k).key);
    }
  }

  lemma {:induction false} PutLoopStoresAll(env: Env, l: LedgerState, gap: byte, rs: seq<Record>, idx: nat)
    requires StrictTimes(l) && idx <= |l.items| && Progress(env, l, gap, rs, idx)
    ensures var out := PutItems(env, l, gap, rs, idx);
            Progress(env, l, gap, out, |l.items|) && forall x :: x in rs ==> x in out
    decreases |l.items| - idx
  {
    hide Progress, ItemRecord, Insert, HasKey, StrictTimes;
    if idx < |l.items| {
      OneMore(env, l, gap, rs, idx);
      PutLoopStoresAll(env, l, gap, Insert(rs, ItemRecord(env, l, gap, |l.items| - 1 - idx)), idx + 1);
    }
  }

  /** After a put of a fresh ledger its entries are exactly its items, oldest first; the head is stored, and the reverse
      record holds the head key without its prefix byte. */
  lemma PutStores(env: Env, l: LedgerState, gap: byte, rs: seq<Record>, sec: int, nsec: int)
    requires Sorted(rs) && FreshDigest(rs, l.digest) && StrictTimes(l)
    requires !HasKey(rs, HeadKey(sec, nsec)) && !HasKey(rs, ReverseKey(l.digest))
    ensures var out := PutAll(env, l, gap, rs, sec, nsec);
            && Sorted(out) && Entries(out, l.digest) == Records(env, l, gap, 0)
            && (forall x :: x in rs ==> x in out)
            && exists headKey: seq<byte> :: headKey != [] && headKey[0] == KEY_HEAD
                 && Record(ReverseKey(l.digest), headKey[1..]) in out && Record(headKey, SerializeHead(l.head)) in out
  {
    hide SerializeHead, ItemRecord, Matching, Below, Insert;
    var (head, reverse) := HeadRecords(l, sec, nsec);
    var ref := EntryRef(l.digest);
    var rs1, rs2 := Insert(rs, head), Insert(Insert(rs, head), reverse);
    InsertKeeps(rs, head);
    InsertKeeps(rs1, reverse);
    InsertElsewhere(rs, head, ref, ref + [0]);
    assert ref[0] != reverse.key[0] && ref[0] != head.key[0];
    InsertElsewhere(rs1, reverse, ref, ref + [0]);
    NothingStoredYet(env, l, gap, rs2);
    PutLoopStoresAll(env, l, gap, rs2, 0);
    assert head.key[0] == KEY_HEAD;
  }

  lemma NothingStoredYet(env: Env, l: LedgerState, gap: byte, rs: seq<Record>)
    requires Sorted(rs) && FreshDigest(rs, l.digest)
    ensures Progress(env, l, gap, rs, 0)
  {
    hide SerializeItemDb;
    forall i | 0 <= i < |l.items|
      ensures !HasKey(rs, ItemRecord(env, l, gap, i).key)
    {
      FreshKeys(rs, l.digest, gap, l.items[i]);
    }
  }

  // ---- any times: what the put loop stores before a clash

  predicate SameTime(a: Item, b: Item) {
    U32(a.sec) == U32(b.sec) && U32(a.nsec) == U32(b.nsec)
  }

  /** Some newer item than number `i` was written at the same time. */
  predicate Clashes(l: LedgerState, i: nat)
    requires i < |l.items|
  {
    exists j :: i < j < |l.items| && SameTime(l.items[i], l.items[j])
  }

  /** How many of the newest items come before the first one, going back, whose time repeats a newer one's. */
  function Fitting(l: LedgerState, idx: nat): (n: nat)
    requires idx <= |l.items|
    ensures idx <= n <= |l.items|
    ensures n < |l.items| ==> Clashes(l, |l.items| - 1 - n)
    ensures forall i :: |l.items| - n <= i < |l.items| - idx ==> !Clashes(l, i)
    decreases |l.items| - idx
  {
    if idx == |l.items| || Clashes(l, |l.items| - 1 - idx) then idx else Fitting(l, idx + 1)
  }

  lemma {:induction false} MatchingAreRecords(rs: seq<Record>, p: seq<byte>, from: seq<byte>, r: Record)
    requires r in Matching(rs, p, from)
    ensures r in rs && HasPrefix(r.key, p) && !Below(r.key, from)
  {
    if r != rs[0] || !HasPrefix(rs[0].key, p) || Below(rs[0].key, from) {
      MatchingAreRecords(rs[1..], p, from, r);
    }
  }

  lemma EntryOfInsert(rs: seq<Record>, digest: Digest, r: Record, x: Record)
    requires HasPrefix(r.key, EntryRef(digest)) && !Below(r.key, EntryRef(digest) + [0])
    ensures x in Entries(Insert(rs, r), digest) <==> x == r || x in Entries(rs, digest)
  {
    var p, from := EntryRef(digest), EntryRef(digest) + [0];
    InsertMembers(rs, r);
    hide Below, Insert, Matching, HasPrefix;
    if x in Matching(Insert(rs, r), p, from) {
      MatchingAreRecords(Insert(rs, r), p, from, x);
      if x != r {
        MatchingIsComplete(rs, p, from, x);
      }
    }
    if x in Matching(rs, p, from) {
      MatchingAreRecords(rs, p, from, x);
    }
    if x == r || x in Matching(rs, p, from) {
      MatchingIsComplete(Insert(rs, r), p, from, x);
    }
  }

  /** The newest `idx` items are stored and no other entry of this ledger is. */
  ghost predicate NewestStored(env: Env, l: LedgerState, gap: byte, rs: seq<Record>, idx: nat) {
    && idx <= |l.items| && Sorted(rs)
    && forall x :: x in Entries(rs, l.digest) <==> x in Records(env, l, gap, |l.items| - idx)
  }

  lemma SameKeySameTime(digest: Digest, gap: byte, a: Item, b: Item)
    ensures EntryKey(digest, gap, a.sec, a.nsec) == EntryKey(digest, gap, b.sec, b.nsec) <==> SameTime(a, b)
  {
    KeyPartOrder(a.sec, a.nsec, b.sec, b.nsec);
    var p := EntryRef(digest) + [gap];
    assert (p + KeyPart(a.sec, a.nsec))[66..] == KeyPart(a.sec, a.nsec);
    assert (p + KeyPart(b.sec, b.nsec))[66..] == KeyPart(b.sec, b.nsec);
    hide KeyPart;
  }

  /** The next key is taken exactly by a newer item of the same time. */
  lemma TakenByNewer(env: Env, l: LedgerState, gap: byte, rs: seq<Record>, idx: nat)
    requires NewestStored(env, l, gap, rs, idx) && idx < |l.items|
    ensures var i := |l.items| - 1 - idx; HasKey(rs, ItemRecord(env, l, gap, i).key) <==> Clashes(l, i)
  {
    hide NewestStored, HasKey, Clashes;
    if HasKey(rs, ItemRecord(env, l, gap, |l.items| - 1 - idx).key) {
      TakenMeansClash(env, l, gap, rs, idx);
    }
    if Clashes(l, |l.items| - 1 - idx) {
      ClashMeansTaken(env, l, gap, rs, idx);
    }
  }

  lemma TakenMeansClash(env: Env, l: LedgerState, gap: byte, rs: seq<Record>, idx: nat)
    requires NewestStored(env, l, gap, rs, idx) && idx < |l.items|
    requires HasKey(rs, ItemRecord(env, l, gap, |l.items| - 1 - idx).key)
    ensures Clashes(l, |l.items| - 1 - idx)
  {
    hide SerializeItemDb, Sorted, EntryKey, Entries, Matching, Below, HasPrefix;
    var i := |l.items| - 1 - idx;
    var key := ItemRecord(env, l, gap, i).key;
    EntryKeyFacts(l.digest, gap, l.items[i]);
    var k :| 0 <= k < |rs| && rs[k].key == key;
    MatchingIsComplete(rs, EntryRef(l.digest), EntryRef(l.digest) + [0], rs[k]);
    EntriesAre(rs, l.digest);
    var later := Records(env, l, gap, i + 1);
    assert rs[k] in later;
    var j :| 0 <= j < |later| && later[j] == rs[k];
    assert later[j] == ItemRecord(env, l, gap, i + 1 + j);
    SameKeySameTime(l.digest, gap, l.items[i], l.items[i + 1 + j]);
  }

  lemma ClashMeansTaken(env: Env, l: LedgerState, gap: byte, rs: seq<Record>, idx: nat)
    requires NewestStored(env, l, gap, rs, idx) && idx < |l.items| && Clashes(l, |l.items| - 1 - idx)
    ensures HasKey(rs, ItemRecord(env, l, gap, |l.items| - 1 - idx).key)
  {
    hide SerializeItemDb, Sorted, EntryKey, Entries, Matching, Below, HasPrefix;
    var i := |l.items| - 1 - idx;
    var j :| i < j < |l.items| && SameTime(l.items[i], l.items[j]);
    SameKeySameTime(l.digest, gap, l.items[i], l.items[j]);
    var x := ItemRecord(env, l, gap, j);
    assert x == Records(env, l, gap, i + 1)[j - (i + 1)] && x in Records(env, l, gap, i + 1);
    EntriesAre(rs, l.digest);
    MatchingAreRecords(rs, EntryRef(l.digest), EntryRef(l.digest) + [0], x);
    var k :| 0 <= k < |rs| && rs[k] == x;
    assert rs[k].key == ItemRecord(env, l, gap, i).key;
  }

  lemma StoreOneMore(env: Env, l: LedgerState, gap: byte, rs: seq<Record>, idx: nat)
    requires NewestStored(env, l, gap, rs, idx) && idx < |l.items|
    requires !HasKey(rs, ItemRecord(env, l, gap, |l.items| - 1 - idx).key)
    ensures NewestStored(env, l, gap, Insert(rs, ItemRecord(env, l, gap, |l.items| - 1 - idx)), idx + 1)
  {
    hide SerializeItemDb, EntryKey, Entries, Insert, HasKey;
    var i := |l.items| - 1 - idx;
    var r := ItemRecord(env, l, gap, i);
    EntryKeyFacts(l.digest, gap, l.items[i]);
    InsertSorted(rs, r);
    hide Sorted;
    assert Records(env, l, gap, i) == [r] + Records(env, l, gap, i + 1);
    forall x
      ensures x in Entries(Insert(rs, r), l.digest) <==> x == r || x in Entries(rs, l.digest)
    {
      EntryOfInsert(rs, l.digest, r, x);
    }
  }

  lemma {:induction false} PutLoopStoresNewest(env: Env, l: LedgerState, gap: byte, rs: seq<Record>, idx: nat)
    requires NewestStored(env, l, gap, rs, idx)
    ensures NewestStored(env, l, gap, PutItems(env, l, gap, rs, idx), Fitting(l, idx))
    decreases |l.items| - idx
  {
    hide NewestStored, ItemRecord, Insert, HasKey, Clashes;
    StoredAtMost(env, l, gap, rs, idx);
    if idx < |l.items| {
      var r := ItemRecord(env, l, gap, |l.items| - 1 - idx);
      TakenByNewer(env, l, gap, rs, idx);
      if !HasKey(rs, r.key) {
        StoreOneMore(env, l, gap, rs, idx);
        PutLoopStoresNewest(env, l, gap, Insert(rs, r), idx + 1);
      }
    }
  }

  lemma StoredAtMost(env: Env, l: LedgerState, gap: byte, rs: seq<Record>, idx: nat)
    requires NewestStored(env, l, gap, rs, idx)
    ensures idx <= |l.items|
  {
  }

  /** A put of a ledger with any times under a fresh digest stores exactly its newest items, back to the first whose
      time repeats a newer one's: all of them if and only if no time repeats. */
  lemma PutStoresNewest(env: Env, l: LedgerState, gap: byte, rs: seq<Record>, sec: int, nsec: int)
    requires Sorted(rs) && FreshDigest(rs, l.digest)
    requires !HasKey(rs, HeadKey(sec, nsec)) && !HasKey(rs, ReverseKey(l.digest))
    ensures var out, n := PutAll(env, l, gap, rs, sec, nsec), Fitting(l, 0);
            && Sorted(out)
            && (forall x :: x in Entries(out, l.digest) <==> x in Records(env, l, gap, |l.items| - n))
            && (n == |l.items| <==> forall i :: 0 <= i < |l.items| ==> !Clashes(l, i))
  {
    hide SerializeHead, ItemRecord, Matching, Below, Insert, PutItems;
    var (head, reverse) := HeadRecords(l, sec, nsec);
    var ref := EntryRef(l.digest);
    var rs1 := Insert(rs, head);
    InsertKeeps(rs, head);
    InsertKeeps(rs1, reverse);
    InsertElsewhere(rs, head, ref, ref + [0]);
    assert ref[0] != reverse.key[0] && ref[0] != head.key[0];
    InsertElsewhere(rs1, reverse, ref, ref + [0]);
    PutLoopStoresNewest(env, l, gap, Insert(rs1, reverse), 0);
  }

  // ---- the scan

  /** Reading one stored record appends the stored form of its item and moves the cache by it, if and only if the item
      is countersigned; otherwise the item is lost and a blank one is linked. */
  lemma RecordLoads(env: Env, l: LedgerState, gap: byte, k: nat, before: LedgerState, st: Stack)
    requires k < |l.items| && before.Keys() == l.Keys()
    ensures var it, ok := Reloaded(env, l, k), Countersigned(env, l, k);
            LoadOne(env, before, ItemRecord(env, l, gap, k), st)
            == Outcome(ok, before.(items := before.items + [it],
                                   cache := if ok then ApplyCache(before.cache, it) else before.cache))
  {
    hide SerializeItem, Received, EntryKey, ParseItem;
    var it := l.items[k];
    var v := SerializeItemDb(env, l.Prev(k), it);
    assert v[..|v| - 1] == SerializeItem(env, l.Prev(k), it, FINAL);
    assert l.Keys().ResponseKey(it.initiator) == before.Keys().ResponseKey(it.initiator.Acting());
    ParseItemReceives(env, before, l.Prev(k), it, FINAL, it.initiator.Acting(), st);
    assert Taken(env, before.Keys(), l.Prev(k), it, FINAL, it.initiator.Acting()) <==> Countersigned(env, l, k);
  }

  /** Loading the first `k` records of any put ledger, countersigned or not. */
  ghost predicate LoadedUpTo(env: Env, l: LedgerState, k: nat, into: LedgerState, out: Loaded)
    requires k <= |l.items|
  {
    && out.count == |Kept(env, l, k)|
    && out.ledger == into.(items := ReloadedItems(env, l)[..k], cache := out.ledger.cache)
    && CacheIs(out.ledger.cache, Kept(env, l, k))
  }

  lemma {:induction false} RecordsLoad(
      env: Env, l: LedgerState, gap: byte, k: nat, into: LedgerState, stacks: nat -> Stack)
    requires k <= |l.items|
    requires into.Keys() == l.Keys() && into.items == [] && into.cache == Some(NO_CACHE)
    ensures LoadedUpTo(env, l, k, into, LoadAll(env, into, Records(env, l, gap, 0)[..k], stacks))
  {
    hide LoadAll, LoadOne, LoadedUpTo, ItemRecord, Countersigned, Reloaded;
    var rs := Records(env, l, gap, 0);
    if k == 0 {
      NothingLoaded(env, l, into);
      LoadEnds(env, into, rs, stacks);
    } else {
      RecordsLoad(env, l, gap, k - 1, into, stacks);
      LoadStep(env, into, rs, stacks, k - 1);
      var before := LoadAll(env, into, rs[..k - 1], stacks);
      LoadedKeys(env, l, k - 1, into, before);
      RecordLoads(env, l, gap, k - 1, before.ledger, stacks(k - 1));
      LoadedOneMore(env, l, k, into, before);
    }
  }

  lemma NothingLoaded(env: Env, l: LedgerState, into: LedgerState)
    requires into.items == [] && into.cache == Some(NO_CACHE)
    ensures LoadedUpTo(env, l, 0, into, Loaded(into, 0))
  {
    hide Reloaded;
  }

  lemma LoadedKeys(env: Env, l: LedgerState, k: nat, into: LedgerState, out: Loaded)
    requires k <= |l.items| && LoadedUpTo(env, l, k, into, out)
    ensures out.ledger.Keys() == into.Keys()
  {
  }

  lemma LoadedOneMore(env: Env, l: LedgerState, k: nat, into: LedgerState, before: Loaded)
    requires 0 < k <= |l.items| && LoadedUpTo(env, l, k - 1, into, before)
    ensures var it, ok := Reloaded(env, l, k - 1), Countersigned(env, l, k - 1);
            var after := before.ledger.(items := before.ledger.items + [it],
                                        cache := if ok then ApplyCache(before.ledger.cache, it)
                                            else before.ledger.cache);
            LoadedUpTo(env, l, k, into, Loaded(after, before.count + if ok then 1 else 0))
  {
    hide Stored, CacheIs, Countersigned;
    var kept, items := Kept(env, l, k - 1), ReloadedItems(env, l);
    if Countersigned(env, l, k - 1) {
      CacheStep(before.ledger.cache, kept, Reloaded(env, l, k - 1));
    } else {
      assert kept + [] == kept;
    }
    assert items[..k] == items[..k - 1] + [items[k - 1]];
  }

  /** Store then reload: for a ledger with strictly increasing times and a fresh digest, put followed by a scan into a
      ledger with the same head rebuilds one item per stored one in the same order, counts and balances the
      countersigned ones, and so counts all if and only if all are countersigned. Then the list is the original one if
      and only if every item is in wire form. */
  lemma StoreThenReload(
      env: Env, l: LedgerState, gap: byte, rs: seq<Record>, sec: int, nsec: int, into: LedgerState,
      stacks: nat -> Stack)
    requires Sorted(rs) && FreshDigest(rs, l.digest) && StrictTimes(l)
    requires !HasKey(rs, HeadKey(sec, nsec)) && !HasKey(rs, ReverseKey(l.digest))
    requires into.Keys() == l.Keys() && into.items == [] && into.cache == Some(NO_CACHE)
    ensures var out := LoadAll(env, into, Entries(PutAll(env, l, gap, rs, sec, nsec), l.digest), stacks);
            && out.ledger.items == ReloadedItems(env, l)
            && out.count == |Kept(env, l, |l.items|)| && CacheIs(out.ledger.cache, Kept(env, l, |l.items|))
            && (out.count == |l.items| <==> AllCountersigned(env, l, |l.items|))
            && (out.count == |l.items| ==>
                  (out.ledger.items == l.items <==> forall i :: 0 <= i < |l.items| ==> WireForm(l.items[i])))
  {
    hide PutAll, LoadAll, CacheIs;
    PutStores(env, l, gap, rs, sec, nsec);
    var n := |l.items|;
    RecordsLoad(env, l, gap, n, into, stacks);
    assert Records(env, l, gap, 0)[..n] == Records(env, l, gap, 0);
    assert ReloadedItems(env, l)[..n] == ReloadedItems(env, l);
    KeptCount(env, l, n);
    if AllCountersigned(env, l, n) {
      SameItems(env, l);
    }
  }

  lemma SameItems(env: Env, l: LedgerState)
    requires AllCountersigned(env, l, |l.items|)
    ensures ReloadedItems(env, l) == l.items <==> forall i :: 0 <= i < |l.items| ==> WireForm(l.items[i])
  {
    hide Countersigned, Received, WireForm;
    forall i | 0 <= i < |l.items|
      ensures ReloadedItems(env, l)[i] == l.items[i] <==> WireForm(l.items[i])
    {
      WireKeeps(l.items[i], l.items[i].initiator.Acting());
      KnownInitiator(l.items[i]);
    }
  }

  lemma KnownInitiator(it: Item)
    ensures WireForm(it) ==> it.initiator == it.initiator.Acting().Acting()
  {
  }

  /** Every stored entry of a put ledger has a value for the scan to read. */
  lemma PutIsFilled(env: Env, l: LedgerState, gap: byte, rs: seq<Record>, sec: int, nsec: int)
    requires Sorted(rs) && FreshDigest(rs, l.digest) && StrictTimes(l)
    requires !HasKey(rs, HeadKey(sec, nsec)) && !HasKey(rs, ReverseKey(l.digest))
    ensures AllFilled(Entries(PutAll(env, l, gap, rs, sec, nsec), l.digest))
  {
    hide PutAll, Entries, SerializeItemDb;
    PutStores(env, l, gap, rs, sec, nsec);
  }

  /** What a scan leaves of a put ledger: the items, the balances and the count. */
  ghost predicate Rebuilt(env: Env, l: LedgerState, items: seq<Item>, cache: Option<Cache>, count: nat) {
    && items == ReloadedItems(env, l)
    && count == |Kept(env, l, |l.items|)| && CacheIs(cache, Kept(env, l, |l.items|))
    && (count == |l.items| <==> AllCountersigned(env, l, |l.items|))
  }

  lemma PutThenLoadRebuilds(
      env: Env, l: LedgerState, gap: byte, rs: seq<Record>, sec: int, nsec: int, into: LedgerState,
      stacks: nat -> Stack)
    requires Sorted(rs) && FreshDigest(rs, l.digest) && StrictTimes(l)
    requires !HasKey(rs, HeadKey(sec, nsec)) && !HasKey(rs, ReverseKey(l.digest))
    requires into.Keys() == l.Keys() && into.items == [] && into.cache == Some(NO_CACHE)
    ensures var entries := Entries(PutAll(env, l, gap, rs, sec, nsec), l.digest);
            var out := LoadAll(env, into, entries, stacks);
            AllFilled(entries) && Rebuilt(env, l, out.ledger.items, out.ledger.cache, out.count)
  {
    hide PutAll, LoadAll, Entries, ReloadedItems, Kept, CacheIs, AllCountersigned, FreshDigest, StrictTimes, HasKey;
    PutIsFilled(env, l, gap, rs, sec, nsec);
    StoreThenReload(env, l, gap, rs, sec, nsec, into, stacks);
  }

  /** The two methods one after the other: what the list store holds after kee_ledger_put and its own scan. */
  method PutThenScan(
      ledger: Ledger, store: EntryItemStore, env: Env, sec: int, nsec: int, gap: byte, stacks: nat -> Stack,
      junk: seq<byte>)
    returns (count: nat)
    requires ledger.Valid() && store.ledger.Valid() && store.db.Valid() && store.ledger != ledger && |junk| == 63
    requires FreshDigest(store.db.committed, ledger.digest) && StrictTimes(ledger.View())
    requires !HasKey(store.db.committed, HeadKey(sec, nsec)) && !HasKey(store.db.committed, ReverseKey(ledger.digest))
    requires store.ledger.View().Keys() == ledger.View().Keys() && store.ledger.chain == []
    requires store.ledger.cache == Some(NO_CACHE)
    modifies store.db, store.ledger
    ensures store.db.Valid() && store.ledger.Valid() && ledger.Valid() && ledger.View() == old(ledger.View())
    ensures Rebuilt(env, ledger.View(), store.ledger.Items(), store.ledger.cache, count)
  {
    hide PutAll, LoadAll, AllFilled, Entries, StrictTimes, FreshDigest, HasKey, Rebuilt;
    ghost var l, rs, into := ledger.View(), store.db.committed, store.ledger.View();
    PutThenLoadRebuilds(env, l, gap, rs, sec, nsec, into, stacks);
    var ok := Put(ledger, store.db, env, sec, nsec, gap);
    count := store.Scan(env, stacks, junk);
  }
}
