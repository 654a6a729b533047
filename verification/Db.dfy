/** src/db.c over a sorted map: transactions that add records, and a cursor that scans a key prefix. */
module Db {
  import opened Bytes

  datatype Record = Record(key: seq<byte>, value: seq<byte>)

  const KEY_SIZE_LIMIT := 128

  /** The prefix bytes of the three kinds of record. */
  const KEY_HEAD: byte := 0x01
  const KEY_ENTRY: byte := 0x02
  const KEY_REVERSE: byte := 0xff

  /** The store's contents in key order; keys are non-empty and fit DB_KEY_SIZE_LIMIT. */
  ghost predicate Sorted(rs: seq<Record>) {
    && (forall i :: 0 <= i < |rs| ==> 0 < |rs[i].key| <= KEY_SIZE_LIMIT)
    && (forall i, j :: 0 <= i < j < |rs| ==> Below(rs[i].key, rs[j].key))
  }

  predicate HasKey(rs: seq<Record>, key: seq<byte>) {
    exists i :: 0 <= i < |rs| && rs[i].key == key
  }

  /** How many records lie below `key`: where MDB_SET_RANGE puts the cursor. */
  function LowerBound(rs: seq<Record>, key: seq<byte>): (n: nat)
    ensures n <= |rs|
  {
    if rs == [] || !Below(rs[0].key, key) then 0 else 1 + LowerBound(rs[1..], key)
  }

  function Insert(rs: seq<Record>, r: Record): seq<Record> {
    if rs == [] || !Below(rs[0].key, r.key) then [r] + rs else [rs[0]] + Insert(rs[1..], r)
  }

  lemma {:induction false} InsertMembers(rs: seq<Record>, r: Record)
    ensures forall x :: x in Insert(rs, r) <==> x == r || x in rs
  {
    if rs != [] && Below(rs[0].key, r.key) {
      InsertMembers(rs[1..], r);
      assert rs == [rs[0]] + rs[1..];
    }
  }

  lemma {:induction false} InsertSorted(rs: seq<Record>, r: Record)
    requires Sorted(rs) && !HasKey(rs, r.key) && 0 < |r.key| <= KEY_SIZE_LIMIT
    ensures Sorted(Insert(rs, r))
  {
    if rs != [] && Below(rs[0].key, r.key) {
      InsertSorted(rs[1..], r);
      InsertMembers(rs[1..], r);
      SortedFront(rs[0], Insert(rs[1..], r));
    } else {
      forall i | 0 <= i < |rs|
        ensures Below(r.key, rs[i].key)
      {
        BelowIsStrict(rs[0].key, r.key);
        if i > 0 {
          BelowIsTransitive(r.key, rs[0].key, rs[i].key);
        }
      }
      SortedFront(r, rs);
    }
  }

  lemma SortedFront(r: Record, rs: seq<Record>)
    requires Sorted(rs) && 0 < |r.key| <= KEY_SIZE_LIMIT && forall x :: x in rs ==> Below(r.key, x.key)
    ensures Sorted([r] + rs)
  {
  }

  /** An insertion adds its record and nothing else, and keeps the order. */
  lemma InsertKeeps(rs: seq<Record>, r: Record)
    requires Sorted(rs) && !HasKey(rs, r.key) && 0 < |r.key| <= KEY_SIZE_LIMIT
    ensures Sorted(Insert(rs, r))
    ensures forall x :: x in Insert(rs, r) <==> x == r || x in rs
    ensures forall k :: HasKey(Insert(rs, r), k) <==> k == r.key || HasKey(rs, k)
  {
    hide Sorted, Insert, HasKey;
    InsertSorted(rs, r);
    InsertMembers(rs, r);
    KeysByMembership(rs);
    KeysByMembership(Insert(rs, r));
  }

  lemma KeysByMembership(rs: seq<Record>)
    ensures forall k :: HasKey(rs, k) <==> exists x :: x in rs && x.key == k
  {
    forall k
      ensures HasKey(rs, k) <==> exists x :: x in rs && x.key == k
    {
      if HasKey(rs, k) {
        var i :| 0 <= i < |rs| && rs[i].key == k;
        assert rs[i] in rs;
      }
    }
  }

  // ---- prefixes

  predicate HasPrefix(key: seq<byte>, p: seq<byte>) {
    p <= key
  }

  /** The records whose key starts with `p` and is not below `from`, in key order: what a prefix scan should return. */
  function Matching(rs: seq<Record>, p: seq<byte>, from: seq<byte>): seq<Record> {
    if rs == [] then []
    else (if HasPrefix(rs[0].key, p) && !Below(rs[0].key, from) then [rs[0]] else []) + Matching(rs[1..], p, from)
  }

  /** The longest run of `p`-records from the front: what a cursor walk delivers. */
  function LeadingRun(rs: seq<Record>, p: seq<byte>): (r: seq<Record>)
    ensures r <= rs
  {
    if rs == [] || !HasPrefix(rs[0].key, p) then [] else [rs[0]] + LeadingRun(rs[1..], p)
  }

  /** Beyond the keys with prefix `p` no key has that prefix again. */
  lemma {:induction false} PrefixesEnd(a: seq<byte>, b: seq<byte>, from: seq<byte>, p: seq<byte>)
    requires HasPrefix(from, p) && !Below(a, from) && !HasPrefix(a, p) && Below(a, b)
    ensures !HasPrefix(b, p) && !Below(b, from)
  {
    assert p != [] && from != [] && a != [];
    if a[0] == from[0] && b[0] == a[0] {
      assert p == [p[0]] + p[1..] && from == [from[0]] + from[1..] && a == [a[0]] + a[1..] && b == [b[0]] + b[1..];
      PrefixesEnd(a[1..], b[1..], from[1..], p[1..]);
    }
  }

  lemma {:induction false} NothingAfter(rs: seq<Record>, last: seq<byte>, p: seq<byte>, from: seq<byte>)
    requires HasPrefix(from, p) && !Below(last, from) && !HasPrefix(last, p)
    requires forall i :: 0 <= i < |rs| ==> Below(last, rs[i].key)
    ensures Matching(rs, p, from) == []
  {
    if rs != [] {
      PrefixesEnd(last, rs[0].key, from, p);
      NothingAfter(rs[1..], last, p, from);
    }
  }

  lemma {:induction false} RunFromBound(rs: seq<Record>, p: seq<byte>, from: seq<byte>)
    requires Sorted(rs) && HasPrefix(from, p)
    requires forall i :: 0 <= i < |rs| ==> !Below(rs[i].key, from)
    ensures Matching(rs, p, from) == LeadingRun(rs, p)
  {
    if rs != [] {
      if HasPrefix(rs[0].key, p) {
        RunFromBound(rs[1..], p, from);
      } else {
        NothingAfter(rs[1..], rs[0].key, p, from);
      }
    }
  }

  /** Seeking and walking finds exactly the matching records, once each and in order. */
  lemma {:induction false} SeekFindsRun(rs: seq<Record>, p: seq<byte>, from: seq<byte>)
    requires Sorted(rs) && HasPrefix(from, p)
    ensures Matching(rs, p, from) == LeadingRun(rs[LowerBound(rs, from)..], p)
    ensures forall i :: LowerBound(rs, from) <= i < |rs| ==> !Below(rs[i].key, from)
  {
    if rs != [] {
      if Below(rs[0].key, from) {
        SeekFindsRun(rs[1..], p, from);
        assert rs[1..][LowerBound(rs[1..], from)..] == rs[LowerBound(rs, from)..];
        forall i | LowerBound(rs, from) <= i < |rs|
          ensures !Below(rs[i].key, from)
        {
          assert rs[i] == rs[1..][i - 1];
        }
      } else {
        forall i | 0 <= i < |rs|
          ensures !Below(rs[i].key, from)
        {
          if i > 0 && Below(rs[i].key, from) {
            BelowIsTransitive(rs[0].key, rs[i].key, from);
          }
        }
        RunFromBound(rs, p, from);
        assert rs[0..] == rs;
      }
    }
  }

  // ---- the zero byte db_next appends

  /** Nothing lies between a key and the key with a zero byte after it. */
  lemma {:induction false} BelowSuccessor(x: seq<byte>, k: seq<byte>)
    ensures Below(x, k + [0]) <==> x == k || Below(x, k)
  {
    if k != [] && x != [] {
      assert (k + [0])[1..] == k[1..] + [0];
      BelowSuccessor(x[1..], k[1..]);
      assert x == [x[0]] + x[1..] && k == [k[0]] + k[1..];
    }
  }

  /** A scan from `k` finds what lies at or above `k`, `k` included, if and only if `k` is not stored: a stored start
      key is itself skipped. */
  lemma {:induction false} StartKeySkipped(rs: seq<Record>, p: seq<byte>, k: seq<byte>)
    requires HasPrefix(k, p)
    ensures Matching(rs, p, k + [0]) == Matching(rs, p, k) <==> !HasKey(rs, k)
    ensures |Matching(rs, p, k + [0])| <= |Matching(rs, p, k)|
    ensures forall r :: r in Matching(rs, p, k + [0]) ==> r.key != k
  {
    hide Matching, HasKey, HasPrefix, Below;
    if rs == [] {
      NoMatch(p, k);
    } else {
      var a, b := Matching(rs[1..], p, k + [0]), Matching(rs[1..], p, k);
      StartKeySkipped(rs[1..], p, k);
      HasKeyFront(rs, k);
      MatchingFront(rs, p, k);
      assert ([rs[0]] + a)[1..] == a && ([rs[0]] + b)[1..] == b;
    }
  }

  lemma NoMatch(p: seq<byte>, k: seq<byte>)
    ensures Matching([], p, k + [0]) == Matching([], p, k) == [] && !HasKey([], k)
  {
  }

  /** A first record that is not the start key counts for both scans or for neither. */
  lemma MatchingFront(rs: seq<Record>, p: seq<byte>, k: seq<byte>)
    requires rs != [] && HasPrefix(k, p)
    ensures var a, b := Matching(rs[1..], p, k + [0]), Matching(rs[1..], p, k);
            || (rs[0].key == k && Matching(rs, p, k + [0]) == a && Matching(rs, p, k) == [rs[0]] + b)
            || (rs[0].key != k && Matching(rs, p, k + [0]) == a && Matching(rs, p, k) == b)
            || (rs[0].key != k && Matching(rs, p, k + [0]) == [rs[0]] + a && Matching(rs, p, k) == [rs[0]] + b)
  {
    BelowSuccessor(rs[0].key, k);
    BelowIsStrict(k, k);
    hide Below;
  }

  /** Without a start key a scan finds every record with the prefix. */
  lemma {:induction false} WithoutStart(rs: seq<Record>, pfx: byte, r: Record)
    requires r in rs && r.key != [] && r.key[0] == pfx
    ensures r in Matching(rs, [pfx], SeekKey(pfx, None))
  {
    assert HasPrefix(r.key, [pfx]) && !Below(r.key, [pfx]);
    if r != rs[0] {
      WithoutStart(rs[1..], pfx, r);
    }
    hide Below;
  }

  lemma HasKeyFront(rs: seq<Record>, k: seq<byte>)
    requires rs != []
    ensures HasKey(rs, k) <==> rs[0].key == k || HasKey(rs[1..], k)
  {
    if HasKey(rs, k) {
      var i :| 0 <= i < |rs| && rs[i].key == k;
      assert i > 0 ==> rs[1..][i - 1] == rs[i];
    }
  }

  // ---- the cursor

  datatype NextResult = Found(record: Record) | DB_FAIL | NOMATCH | INVALID

  /** The cursor part of struct db_ctx: the read transaction's snapshot, the position in it, and the two flags. */
  datatype Cursor = Cursor(snapshot: seq<Record>, pos: nat, current: byte, started: bool, browsing: bool)

  /** Where db_next starts: the given key with one zero byte after it, or the bare prefix byte (db.c:228-236). */
  function SeekKey(pfx: byte, start: Option<seq<byte>>): seq<byte> {
    if start.None? then [pfx] else start.value + [0]
  }

  datatype Step = Step(cursor: Cursor, result: NextResult)

  /** One call of db_next (db.c:195-258). */
  function NextStep(committed: seq<Record>, c: Cursor, pfx: byte, start: Option<seq<byte>>): Step {
    if pfx == 0 then Step(c, INVALID)
    else
      var c1 :=
        if !c.browsing then Cursor(committed, LowerBound(committed, SeekKey(pfx, start)), pfx, c.started, true)
        else if c.pos < |c.snapshot| then c.(pos := c.pos + 1)
        else c;
      if c1.pos >= |c1.snapshot| then Step(c1, DB_FAIL)
      else if HasPrefix(c1.snapshot[c1.pos].key, [c1.current])
      then Step(c1.(started := true), Found(c1.snapshot[c1.pos]))
      else Step(c1.(started := true, browsing := false), NOMATCH)
  }

  /** A mismatch ends the scan by itself, so that the next call starts a new one; running off the end does not. */
  lemma EndOfScan(committed: seq<Record>, c: Cursor, pfx: byte, start: Option<seq<byte>>)
    ensures var s := NextStep(committed, c, pfx, start);
            && (s.result == INVALID <==> pfx == 0) && (s.result == INVALID ==> s.cursor == c)
            && (s.result == NOMATCH ==> !s.cursor.browsing && s.cursor.started)
            && (s.result == DB_FAIL ==> s.cursor.browsing && s.cursor.started == c.started)
            && (s.result.Found? ==> s.cursor.browsing && s.cursor.started)
  {
    hide LowerBound, HasPrefix, SeekKey;
  }

  /** The cursor before call number `n`, counting from a rewound context. */
  function CursorAt(committed: seq<Record>, c: Cursor, pfx: byte, start: Option<seq<byte>>, n: nat): Cursor {
    if n == 0 then c else NextStep(committed, CursorAt(committed, c, pfx, start, n - 1), pfx, start).cursor
  }

  lemma {:induction false} RunAt(rs: seq<Record>, p: seq<byte>, n: nat)
    ensures n < |LeadingRun(rs, p)| ==> n < |rs| && HasPrefix(rs[n].key, p) && LeadingRun(rs, p)[n] == rs[n]
    ensures n == |LeadingRun(rs, p)| && n < |rs| ==> !HasPrefix(rs[n].key, p)
  {
    if rs != [] && HasPrefix(rs[0].key, p) && n > 0 {
      RunAt(rs[1..], p, n - 1);
    }
  }

  /** Position `n` of the walk that starts at the seek key. */
  lemma WalkAt(rs: seq<Record>, p: seq<byte>, from: seq<byte>, n: nat)
    requires Sorted(rs) && HasPrefix(from, p)
    ensures var m, lo := Matching(rs, p, from), LowerBound(rs, from);
            && lo + |m| <= |rs|
            && (n < |m| ==> m[n] == rs[lo + n] && HasPrefix(rs[lo + n].key, p))
            && (n == |m| && lo + n < |rs| ==> !HasPrefix(rs[lo + n].key, p))
            && (lo + n < |rs| ==> !Below(rs[lo + n].key, from))
  {
    hide HasPrefix;
    SeekFindsRun(rs, p, from);
    RunAt(rs[LowerBound(rs, from)..], p, n);
  }

  /** One step of the refinement: opening the cursor lands on the first matching record, a further call on the next. */
  lemma OneCall(committed: seq<Record>, c: Cursor, pfx: byte, start: Option<seq<byte>>, n: nat)
    requires Sorted(committed) && pfx != 0 && HasPrefix(SeekKey(pfx, start), [pfx])
    requires var lo := LowerBound(committed, SeekKey(pfx, start));
             if n == 0 then !c.browsing else c == Cursor(committed, lo + n - 1, pfx, true, true)
    ensures var m, lo := Matching(committed, [pfx], SeekKey(pfx, start)), LowerBound(committed, SeekKey(pfx, start));
            var s := NextStep(committed, c, pfx, start);
            && (n < |m| ==> s == Step(Cursor(committed, lo + n, pfx, true, true), Found(m[n])))
            && (n == |m| ==> s.result in {DB_FAIL, NOMATCH})
  {
    hide Matching, LowerBound, SeekKey, HasPrefix, Sorted;
    WalkAt(committed, [pfx], SeekKey(pfx, start), n);
  }

  /** Cursor refinement: from a rewound context, call number `n` returns the n-th record that has the prefix byte and a
      key at or above the seek key; the call after the last of them reports failure or mismatch. */
  lemma {:induction false} CallsReturnMatching(
      committed: seq<Record>, c: Cursor, pfx: byte, start: Option<seq<byte>>, n: nat)
    requires Sorted(committed) && pfx != 0 && !c.browsing
    requires start.Some? ==> start.value != [] && start.value[0] == pfx
    ensures var m := Matching(committed, [pfx], SeekKey(pfx, start));
            var s := NextStep(committed, CursorAt(committed, c, pfx, start, n), pfx, start);
            && (n < |m| ==>
                  var lo := LowerBound(committed, SeekKey(pfx, start));
                  s == Step(Cursor(committed, lo + n, pfx, true, true), Found(m[n])))
            && (n == |m| ==> s.result in {DB_FAIL, NOMATCH})
  {
    hide *;
    SeekKeyPrefix(pfx, start);
    CursorAtUnfolds(committed, c, pfx, start, n);
    if n == 0 {
      OneCall(committed, c, pfx, start, 0);
    } else if n <= |Matching(committed, [pfx], SeekKey(pfx, start))| {
      CallsReturnMatching(committed, c, pfx, start, n - 1);
      OneCall(committed, CursorAt(committed, c, pfx, start, n), pfx, start, n);
    }
  }

  lemma SeekKeyPrefix(pfx: byte, start: Option<seq<byte>>)
    requires start.Some? ==> start.value != [] && start.value[0] == pfx
    ensures HasPrefix(SeekKey(pfx, start), [pfx])
  {
  }

  lemma CursorAtUnfolds(committed: seq<Record>, c: Cursor, pfx: byte, start: Option<seq<byte>>, n: nat)
    ensures n == 0 ==> CursorAt(committed, c, pfx, start, n) == c
    ensures n > 0 ==> CursorAt(committed, c, pfx, start, n)
                      == NextStep(committed, CursorAt(committed, c, pfx, start, n - 1), pfx, start).cursor
  {
    hide NextStep;
  }

  // ---- the context object

  class DbCtx {
    /** What the environment holds on disk, and the copy an open write transaction works on. */
    var committed: seq<Record>
    var tx: Option<seq<Record>>
    var cursor: Cursor

    ghost predicate Valid()
      reads this
    {
      Sorted(committed) && (tx.Some? ==> Sorted(tx.value)) && Sorted(cursor.snapshot)
    }

    constructor (records: seq<Record>)
      requires Sorted(records)
      ensures Valid() && committed == records && tx.None? && !cursor.browsing
    {
      committed, tx, cursor := records, None, Cursor([], 0, 0, false, false);
    }

    /** db_start (db.c:40-53). */
    method Start()
      requires Valid()
      modifies this`tx
      ensures Valid() && tx == Some(committed)
    {
      tx := Some(committed);
    }

    /** db_add (db.c:55-74): never overwrites. */
    method Add(key: seq<byte>, value: seq<byte>) returns (ok: bool)
      requires Valid() && tx.Some? && 0 < |key| <= KEY_SIZE_LIMIT
      modifies this`tx
      ensures Valid() && (ok <==> !HasKey(old(tx.value), key))
      ensures tx == if ok then Some(Insert(old(tx.value), Record(key, value))) else old(tx)
    {
      ok := !HasKey(tx.value, key);
      if ok {
        InsertKeeps(tx.value, Record(key, value));
        tx := Some(Insert(tx.value, Record(key, value)));
      }
    }

    /** db_finish (db.c:76-86). */
    method Finish()
      requires Valid() && tx.Some?
      modifies this`tx, this`committed
      ensures Valid() && committed == old(tx.value) && tx.None?
    {
      committed, tx := tx.value, None;
    }

    /** db_rewind (db.c:262-268): an open transaction is dropped. */
    method Rewind()
      requires Valid()
      modifies this`tx, this`cursor
      ensures Valid() && tx.None? && cursor == old(cursor).(browsing := false)
    {
      tx, cursor := None, cursor.(browsing := false);
    }

    /** db_next (db.c:195-258). Opening a cursor gives the context a read transaction in place of any other. */
    method Next(pfx: byte, start: Option<seq<byte>>) returns (r: NextResult)
      requires Valid() && (!cursor.browsing && start.Some? ==> |start.value| < KEY_SIZE_LIMIT)
      modifies this`cursor, this`tx
      ensures Valid() && tx == if pfx == 0 || old(cursor).browsing then old(tx) else None
      ensures Step(cursor, r) == NextStep(committed, old(cursor), pfx, start)
    {
      hide LowerBound, SeekKey;
      if pfx == 0 {
        return INVALID;
      }
      if !cursor.browsing {
        tx := None;
        cursor := cursor.(snapshot := committed, current := pfx, browsing := true);
        cursor := cursor.(pos := LowerBound(cursor.snapshot, SeekKey(pfx, start)));
      } else if cursor.pos < |cursor.snapshot| {
        cursor := cursor.(pos := cursor.pos + 1);
      }
      if cursor.pos >= |cursor.snapshot| {
        return DB_FAIL;
      }
      cursor := cursor.(started := true);
      var found := cursor.snapshot[cursor.pos];
      if found.key[0] != cursor.current {
        cursor := cursor.(browsing := false);
        return NOMATCH;
      }
      return Found(found);
    }
  }
}
