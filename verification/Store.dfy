/** Storing a ledger and rebuilding it: kee_ledger_put, and the scans of the GTK list stores. */
module Store {
  import opened Bytes
  import opened Endian
  import opened LedgerValues
  import opened LedgerOperations
  import opened LedgerObject
  import opened Db

  function HeadKey(sec: int, nsec: int): seq<byte> {
    [KEY_HEAD] + KeyPart(sec, nsec)
  }

  function ReverseKey(digest: Digest): seq<byte> {
    [KEY_REVERSE] + digest
  }

  /** The 65 bytes all entries of one ledger share. */
  function EntryRef(digest: Digest): (k: seq<byte>)
    ensures |k| == 65
  {
    [KEY_ENTRY] + digest
  }

  /** The key kee_ledger_item_put_buf builds (ledger.c:1068-1070): `gap` is byte 65, which nothing writes. */
  function EntryKey(digest: Digest, gap: byte, sec: int, nsec: int): (k: seq<byte>)
    ensures |k| == 74
  {
    EntryRef(digest) + [gap] + KeyPart(sec, nsec)
  }

  function ItemRecord(env: Env, l: LedgerState, gap: byte, i: nat): Record
    requires i < |l.items|
  {
    Record(EntryKey(l.digest, gap, l.items[i].sec, l.items[i].nsec), SerializeItemDb(env, l.Prev(i), l.items[i]))
  }

  // ---- kee_ledger_put

  /** The item loop from index `idx` (0 is the newest) until an add fails or the list ends. */
  function PutItems(env: Env, l: LedgerState, gap: byte, rs: seq<Record>, idx: nat): seq<Record>
    decreases |l.items| - idx
  {
    if idx >= |l.items| then rs
    else
      var r := ItemRecord(env, l, gap, |l.items| - 1 - idx);
      if HasKey(rs, r.key) then rs else PutItems(env, l, gap, Insert(rs, r), idx + 1)
  }

  function HeadRecords(l: LedgerState, sec: int, nsec: int): (Record, Record) {
    (Record(HeadKey(sec, nsec), SerializeHead(l.head)), Record(ReverseKey(l.digest), HeadKey(sec, nsec)[1..]))
  }

  /** What a committed put leaves in the store. */
  function PutAll(env: Env, l: LedgerState, gap: byte, rs: seq<Record>, sec: int, nsec: int): seq<Record> {
    var (head, reverse) := HeadRecords(l, sec, nsec);
    PutItems(env, l, gap, Insert(Insert(rs, head), reverse), 0)
  }

  /** kee_ledger_put (ledger.c:1143-1192), after its duplicate check. `sec` and `nsec` are the clock. */
  method Put(ledger: Ledger, db: DbCtx, env: Env, sec: int, nsec: int, gap: byte) returns (ok: bool)
    requires ledger.Valid() && db.Valid()
    modifies db
    ensures db.Valid() && !db.cursor.browsing
    ensures ok
            <==> !HasKey(old(db.committed), HeadKey(sec, nsec)) && !HasKey(old(db.committed), ReverseKey(ledger.digest))
    ensures db.committed == if ok then PutAll(env, ledger.View(), gap, old(db.committed), sec, nsec)
            else old(db.committed)
  {
    hide SerializeHead, SerializeItemDb, Insert, HasKey, Sorted;
    ghost var (head, reverse) := HeadRecords(ledger.View(), sec, nsec);
    db.Rewind();
    var key := HeadKey(sec, nsec);
    db.Start();
    ok := db.Add(key, SerializeHead(ledger.head));
    if !ok {
      return;
    }
    HasKeyAfter(old(db.committed), head, reverse.key);
    ok := db.Add(ReverseKey(ledger.digest), key[1..]);
    if !ok {
      return;
    }
    PutLoop(ledger, db, env, gap);
    db.Finish();
    return true;
  }

  /** The item loop: newest first, until an item cannot be added or there is none left (ledger.c:1179-1184). */
  method PutLoop(ledger: Ledger, db: DbCtx, env: Env, gap: byte)
    requires ledger.Valid() && db.Valid() && db.tx.Some?
    modifies db`tx
    ensures db.Valid() && db.tx == Some(PutItems(env, ledger.View(), gap, old(db.tx.value), 0))
  {
    hide ItemRecord, Insert, HasKey, Sorted;
    ghost var l := ledger.View();
    var i := 0;
    var ok := true;
    while ok
      invariant db.Valid() && db.tx.Some?
      invariant 0 <= i <= |l.items| + 1
      invariant ok ==> i <= |l.items|
      invariant ok ==> PutItems(env, l, gap, old(db.tx.value), 0) == PutItems(env, l, gap, db.tx.value, i)
      invariant !ok ==> PutItems(env, l, gap, old(db.tx.value), 0) == db.tx.value
      decreases |l.items| + 1 - i, ok
    {
      ok := PutItem(ledger, db, env, i, gap);
      i := i + 1;
    }
  }

  lemma HasKeyAfter(rs: seq<Record>, r: Record, key: seq<byte>)
    requires Sorted(rs) && !HasKey(rs, r.key) && 0 < |r.key| <= KEY_SIZE_LIMIT
    ensures HasKey(Insert(rs, r), key) <==> key == r.key || HasKey(rs, key)
  {
    InsertKeeps(rs, r);
  }

  /** kee_ledger_item_put_buf (ledger.c:1050-1094). */
  method PutItem(ledger: Ledger, db: DbCtx, env: Env, idx: nat, gap: byte) returns (ok: bool)
    requires ledger.Valid() && db.Valid() && db.tx.Some?
    modifies db`tx
    ensures db.Valid() && db.tx.Some?
    ensures var l := ledger.View();
            if idx >= |l.items| then !ok && db.tx == old(db.tx)
            else var r := ItemRecord(env, l, gap, |l.items| - 1 - idx);
                 (ok <==> !HasKey(old(db.tx.value), r.key))
                 && db.tx.value == if ok then Insert(old(db.tx.value), r) else old(db.tx.value)
  {
    hide SerializeItemDb, Insert, HasKey, Sorted, Ledger.Valid, EntryKey;
    var item := ledger.GetItemByIdx(idx);
    ghost var l := ledger.View();
    if item == null {
      return false;
    }
    ghost var k := |l.items| - 1 - idx;
    ledger.NodeAt(k);
    ok := db.Add(EntryKey(ledger.digest, gap, item.sec, item.nsec),
        SerializeItemDb(env, item.PrevValue(), item.Value()));
  }

  // ---- kee_entry_item_store_scan

  /** One stored record read back. Values are never empty: the last byte is the initiator flag. */
  function LoadOne(env: Env, l: LedgerState, r: Record, st: Stack): Outcome {
    if r.value == [] then Outcome(false, l) else ParseItemDb(env, l, r.value, st)
  }

  lemma LoadFilled(env: Env, l: LedgerState, r: Record, st: Stack)
    requires r.value != []
    ensures LoadOne(env, l, r, st) == ParseItemDb(env, l, r.value, st)
  {
  }

  datatype Loaded = Loaded(ledger: LedgerState, count: nat)

  /** Parsing stored values one after the other and counting the accepted ones; call `i` finds junk `stacks(i)`. */
  function LoadAll(env: Env, l: LedgerState, rs: seq<Record>, stacks: nat -> Stack): Loaded {
    if rs == [] then Loaded(l, 0)
    else
      var n := |rs| - 1;
      var before := LoadAll(env, l, rs[..n], stacks);
      var o := LoadOne(env, before.ledger, rs[n], stacks(n));
      Loaded(o.ledger, before.count + if o.ok then 1 else 0)
  }

  predicate AllFilled(rs: seq<Record>) {
    forall i :: 0 <= i < |rs| ==> rs[i].value != []
  }

  lemma LoadEnds(env: Env, l: LedgerState, rs: seq<Record>, stacks: nat -> Stack)
    ensures LoadAll(env, l, rs[..0], stacks) == Loaded(l, 0)
    ensures LoadAll(env, l, rs[..|rs|], stacks) == LoadAll(env, l, rs, stacks)
  {
    assert rs[..|rs|] == rs;
  }

  lemma LoadStep(env: Env, l: LedgerState, rs: seq<Record>, stacks: nat -> Stack, n: nat)
    requires n < |rs|
    ensures var before := LoadAll(env, l, rs[..n], stacks);
            var o := LoadOne(env, before.ledger, rs[n], stacks(n));
            LoadAll(env, l, rs[..n + 1], stacks) == Loaded(o.ledger, before.count + if o.ok then 1 else 0)
  {
    assert rs[..n + 1][..n] == rs[..n];
  }

  /** The entries a scan for `digest` should deliver. */
  function Entries(rs: seq<Record>, digest: Digest): seq<Record> {
    Matching(rs, EntryRef(digest), EntryRef(digest) + [0])
  }

  lemma {:induction false} ProperPrefixBelow(a: seq<byte>, b: seq<byte>)
    requires a <= b && a != b
    ensures Below(a, b)
  {
    if a != [] {
      ProperPrefixBelow(a[1..], b[1..]);
    }
  }

  /** Comparing 65 bytes of the key buffer is a prefix test, although a short key leaves the buffer's old tail. */
  lemma BufferCompare(buf: seq<byte>, key: seq<byte>, ref: seq<byte>)
    requires |buf| == KEY_SIZE_LIMIT && |ref| == 65 && |key| <= KEY_SIZE_LIMIT && !Below(key, ref + [0])
    ensures Overlay(buf, key)[..65] == ref <==> HasPrefix(key, ref)
  {
    if |key| < 65 && Overlay(buf, key)[..65] == ref {
      assert key == Overlay(buf, key)[..|key|] == (ref + [0])[..|key|];
      ProperPrefixBelow(key, ref + [0]);
    }
    if |key| >= 65 {
      assert Overlay(buf, key)[..65] == key[..65];
    }
  }

  /** What call number `n` of the scan gets: the n-th entry, or something that ends the scan. */
  lemma NextInWalk(rs: seq<Record>, digest: Digest, n: nat, c: Cursor, key: seq<byte>)
    requires Sorted(rs) && n <= |Entries(rs, digest)|
    requires var lo := LowerBound(rs, EntryRef(digest) + [0]);
             if n == 0 then !c.browsing && key == EntryRef(digest)
                 else c == Cursor(rs, lo + n - 1, KEY_ENTRY, true, true)
    ensures var m, lo := Entries(rs, digest), LowerBound(rs, EntryRef(digest) + [0]);
            var s := NextStep(rs, c, KEY_ENTRY, Some(key));
            && (n < |m| ==>
                  && s == Step(Cursor(rs, lo + n, KEY_ENTRY, true, true), Found(m[n]))
                  && HasPrefix(m[n].key, EntryRef(digest)))
            && (s.result.Found? ==> var k := s.result.record.key;
                  && |k| <= KEY_SIZE_LIMIT && !Below(k, EntryRef(digest) + [0])
                  && (n == |m| ==> !HasPrefix(k, EntryRef(digest))))
  {
    hide Entries, Matching, LowerBound, Below, HasPrefix, EntryRef;
    EntriesAre(rs, digest);
    EntryRefPrefix(digest);
    WalkAt(rs, EntryRef(digest), EntryRef(digest) + [0], n);
  }

  lemma EntryRefPrefix(digest: Digest)
    ensures HasPrefix(EntryRef(digest) + [0], EntryRef(digest))
    ensures forall k: seq<byte> :: HasPrefix(k, EntryRef(digest)) ==> HasPrefix(k, [KEY_ENTRY])
  {
    assert EntryRef(digest)[..1] == [KEY_ENTRY];
  }

  lemma EntriesAre(rs: seq<Record>, digest: Digest)
    ensures Entries(rs, digest) == Matching(rs, EntryRef(digest), EntryRef(digest) + [0])
  {
  }

  class EntryItemStore {
    const db: DbCtx
    const ledger: Ledger

    constructor (db: DbCtx, ledger: Ledger)
      ensures this.db == db && this.ledger == ledger
    {
      this.db, this.ledger := db, ledger;
    }

    /** Where the shared cursor stands before call `n` of a scan. */
    ghost predicate InWalk(rs: seq<Record>, digest: Digest, n: nat)
      reads this, db
    {
      && db.Valid() && db.committed == rs
      && if n == 0 then !db.cursor.browsing
         else db.cursor == Cursor(rs, LowerBound(rs, EntryRef(digest) + [0]) + n - 1, KEY_ENTRY, true, true)
    }

    /** One db_next call and the comparison after it: the n-th entry, or None when the scan is over. */
    method NextEntry(ghost n: nat, keybuf: seq<byte>) returns (r: Option<Record>, keybuf': seq<byte>)
      requires InWalk(db.committed, ledger.digest, n) && n <= |Entries(db.committed, ledger.digest)|
      requires |keybuf| == KEY_SIZE_LIMIT && keybuf[..65] == EntryRef(ledger.digest)
      modifies db`cursor, db`tx
      ensures |keybuf'| == KEY_SIZE_LIMIT
      ensures var m := Entries(db.committed, ledger.digest);
              if n < |m| then r == Some(m[n]) && InWalk(db.committed, ledger.digest, n + 1)
                  && keybuf'[..65] == EntryRef(ledger.digest)
              else r == None
      ensures db.Valid()
    {
      hide Entries, LowerBound, HasPrefix, Sorted, Below, NextStep;
      NextInWalk(db.committed, ledger.digest, n, db.cursor, keybuf[..65]);
      var next := db.Next(KEY_ENTRY, Some(keybuf[..65]));
      if !next.Found? {
        return None, keybuf;
      }
      BufferCompare(keybuf, next.record.key, EntryRef(ledger.digest));
      keybuf' := Overlay(keybuf, next.record.key);
      if keybuf'[..65] != EntryRef(ledger.digest) {
        return None, keybuf';
      }
      return Some(next.record), keybuf';
    }

    /** The state of the scan loop after `n` entries of the ledger that was `l` at the start. */
    ghost predicate Scanned(env: Env, stacks: nat -> Stack, l: LedgerState, rs: seq<Record>, n: nat,
        keybuf: seq<byte>, count: nat)
      reads this, db, ledger, ledger.chain
    {
      && ledger.Valid() && InWalk(rs, l.digest, n) && ledger.digest == l.digest
      && n <= |Entries(rs, l.digest)| && |keybuf| == KEY_SIZE_LIMIT && keybuf[..65] == EntryRef(l.digest)
      && Loaded(ledger.View(), count) == LoadAll(env, l, Entries(rs, l.digest)[..n], stacks)
    }

    /** Parse one fetched record and count it if it is accepted. */
    method CountRecord(env: Env, r: Record, st: Stack, count: nat) returns (count': nat)
      requires ledger.Valid() && r.value != []
      modifies ledger`last, ledger`chain, ledger`cache
      ensures ledger.Valid() && ledger.digest == old(ledger.digest)
      ensures var o := LoadOne(env, old(ledger.View()), r, st);
              Loaded(ledger.View(), count') == Loaded(o.ledger, count + if o.ok then 1 else 0)
    {
      hide LedgerOperations.ParseItemDb, LoadOne;
      LoadFilled(env, ledger.View(), r, st);
      var item := ledger.ParseItemDb(env, r.value, st);
      count' := if item != null then count + 1 else count;
    }

    /** One turn of the scan loop: fetch, compare, parse. */
    method LoadNext(env: Env, stacks: nat -> Stack, ghost l: LedgerState, n: nat, keybuf: seq<byte>, count: nat)
      returns (more: bool, keybuf': seq<byte>, count': nat)
      requires Scanned(env, stacks, l, db.committed, n, keybuf, count) && AllFilled(Entries(db.committed, l.digest))
      modifies ledger`last, ledger`chain, ledger`cache, db`cursor, db`tx
      ensures more <==> n < |Entries(db.committed, l.digest)|
      ensures more ==> Scanned(env, stacks, l, db.committed, n + 1, keybuf', count')
      ensures !more ==> ledger.Valid() && db.Valid()
                        && Loaded(ledger.View(), count') == LoadAll(env, l, Entries(db.committed, l.digest), stacks)
    {
      hide LoadOne, LoadAll, Entries, LowerBound, EntryRef;
      count' := count;
      var r;
      r, keybuf' := NextEntry(n, keybuf);
      more := r.Some?;
      if more {
        LoadStep(env, l, Entries(db.committed, l.digest), stacks, n);
        count' := CountRecord(env, r.value, stacks(n), count);
      } else {
        LoadEnds(env, l, Entries(db.committed, l.digest), stacks);
      }
    }

    /** The loop of the scan (kee-entry-item-store.c:108-125). */
    method LoadLoop(env: Env, stacks: nat -> Stack, ghost l: LedgerState, buffer: seq<byte>) returns (count: nat)
      requires Scanned(env, stacks, l, db.committed, 0, buffer, 0) && AllFilled(Entries(db.committed, l.digest))
      modifies ledger`last, ledger`chain, ledger`cache, db`cursor, db`tx
      ensures db.Valid() && ledger.Valid()
      ensures Loaded(ledger.View(), count) == LoadAll(env, l, Entries(db.committed, l.digest), stacks)
    {
      hide LoadAll, Entries, AllFilled, EntryItemStore.Scanned, Ledger.Valid, Ledger.View, DbCtx.Valid;
      var keybuf := buffer;
      var n := 0;  // call number, only to name the stack junk
      count := 0;
      var more := true;
      while more
        invariant more ==> Scanned(env, stacks, l, db.committed, n, keybuf, count)
        invariant !more ==> ledger.Valid() && db.Valid()
                            && Loaded(ledger.View(), count) == LoadAll(env, l, Entries(db.committed, l.digest), stacks)
        decreases |Entries(db.committed, l.digest)| - n, more
      {
        more, keybuf, count := LoadNext(env, stacks, l, n, keybuf, count);
        if more {
          n := n + 1;
        }
      }
    }

    /** kee_entry_item_store_scan (kee-entry-item-store.c:89-129): exactly this ledger's entries, in key order, are
        parsed onto the list; the count is that of the accepted ones. `junk` is the rest of the key buffer. */
    method Scan(env: Env, stacks: nat -> Stack, junk: seq<byte>) returns (count: nat)
      requires db.Valid() && ledger.Valid() && !db.cursor.browsing && |junk| == 63
      requires AllFilled(Entries(db.committed, ledger.digest))
      modifies db, ledger
      ensures db.Valid() && ledger.Valid() && db.committed == old(db.committed)
      ensures !db.cursor.browsing && db.tx.None?
      ensures Loaded(ledger.View(), count)
              == LoadAll(env, old(ledger.View()), old(Entries(db.committed, ledger.digest)), stacks)
    {
      ghost var l := ledger.View();
      LoadEnds(env, l, Entries(db.committed, l.digest), stacks);
      hide LoadAll, Entries, AllFilled;
      count := LoadLoop(env, stacks, l, EntryRef(ledger.digest) + junk);
      db.Rewind();
    }
  }
}
