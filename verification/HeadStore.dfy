/** The list of ledgers: index to record over the head keys (kee-entry-store.c). */
module HeadStore {
  import opened Bytes
  import opened Db

  /** What seek passes to db_next: the prefix byte and eight zero bytes. */
  const HEAD_START: seq<byte> := [KEY_HEAD] + Zeros(8)

  /** The stored heads in key order, that is by time. */
  ghost function Heads(rs: seq<Record>): seq<Record> {
    Matching(rs, [KEY_HEAD], HEAD_START + [0])
  }

  /** What further calls of db_next deliver: everything that matches for a rewound cursor, else the rest of the run the
      cursor is in, whatever was asked for when it was opened. */
  ghost function Ahead(committed: seq<Record>, c: Cursor): seq<Record> {
    if !c.browsing then Heads(committed)
    else if c.pos < |c.snapshot| then LeadingRun(c.snapshot[c.pos + 1..], [c.current])
    else []
  }

  lemma {:induction false} LeadingRunFront(rs: seq<Record>, p: seq<byte>)
    ensures var m := LeadingRun(rs, p);
            if m == [] then rs == [] || !HasPrefix(rs[0].key, p)
            else rs != [] && HasPrefix(rs[0].key, p) && m[0] == rs[0] && m[1..] == LeadingRun(rs[1..], p)
  {
  }

  /** One call delivers the first record ahead and leaves the others ahead, or fails when there is none. */
  lemma HeadCall(committed: seq<Record>, c: Cursor, key: seq<byte>)
    requires Sorted(committed) && (!c.browsing ==> key == HEAD_START)
    ensures var ahead, s := Ahead(committed, c), NextStep(committed, c, KEY_HEAD, Some(key));
            if ahead == [] then s.result in {DB_FAIL, NOMATCH}
            else s.result == Found(ahead[0]) && s.cursor.browsing && Ahead(committed, s.cursor) == ahead[1..]
  {
    hide Matching, LowerBound, LeadingRun, HasPrefix, Sorted;
    if c.browsing {
      if c.pos < |c.snapshot| {
        LeadingRunFront(c.snapshot[c.pos + 1..], [c.current]);
      }
    } else {
      assert SeekKey(KEY_HEAD, Some(HEAD_START)) == HEAD_START + [0];
      HeadStartPrefix();
      SeekFindsRun(committed, [KEY_HEAD], HEAD_START + [0]);
      LeadingRunFront(committed[LowerBound(committed, HEAD_START + [0])..], [KEY_HEAD]);
    }
  }

  lemma HeadStartPrefix()
    ensures HasPrefix(HEAD_START + [0], [KEY_HEAD])
  {
  }

  lemma HeadsAreRun(rs: seq<Record>)
    requires Sorted(rs)
    ensures Heads(rs) == LeadingRun(rs[LowerBound(rs, HEAD_START + [0])..], [KEY_HEAD])
  {
    hide Matching, LowerBound, HasPrefix, Sorted, LeadingRun;
    HeadStartPrefix();
    SeekFindsRun(rs, [KEY_HEAD], HEAD_START + [0]);
  }

  /** A cursor that an earlier seek left on head `p` has exactly the later heads ahead. */
  lemma AheadOfHead(rs: seq<Record>, p: nat)
    requires Sorted(rs) && p < |Heads(rs)|
    ensures Ahead(rs, Cursor(rs, LowerBound(rs, HEAD_START + [0]) + p, KEY_HEAD, true, true)) == Heads(rs)[p + 1..]
  {
    hide Heads, LowerBound, HasPrefix, Sorted, LeadingRun;
    var lo := LowerBound(rs, HEAD_START + [0]);
    HeadsAreRun(rs);
    RunFrom(rs[lo..], [KEY_HEAD], p + 1);
    assert rs[lo..][p + 1..] == rs[lo + p + 1..];
  }

  lemma {:induction false} RunFrom(rs: seq<Record>, p: seq<byte>, n: nat)
    requires n <= |LeadingRun(rs, p)|
    ensures LeadingRun(rs, p)[n..] == LeadingRun(rs[n..], p)
  {
    LeadingRunFront(rs, p);
    if n > 0 {
      RunFrom(rs[1..], p, n - 1);
      assert rs[1..][n - 1..] == rs[n..];
      assert LeadingRun(rs, p)[n..] == LeadingRun(rs, p)[1..][n - 1..];
    } else {
      assert rs[0..] == rs;
    }
  }

  class EntryStore {
    const db: DbCtx
    var lastIdx: int
    var lastState: int
    var lastKey: seq<byte>
    var lastValue: seq<byte>

    constructor (db: DbCtx)
      ensures this.db == db
    {
      this.db := db;
      lastIdx, lastState, lastKey, lastValue := 0, 0, [], [];
    }

    /** kee_entry_store_seek (kee-entry-store.c:93-120), from any state of the shared cursor. The record with index
        `idx` among those ahead is found when there is one; otherwise the result is how many were ahead and the
        context is rewound. */
    method Seek(idx: int) returns (i: int)
      requires db.Valid()
      modifies this, db
      ensures db.Valid() && db.committed == old(db.committed)
      ensures var ahead := Ahead(db.committed, old(db.cursor));
              && (idx < 0 ==> i == 0 && lastState == 2 && db.cursor == old(db.cursor))
              && (0 <= idx < |ahead| ==> i == idx + 1 && lastState == 1 && lastIdx == idx
                                         && Record(lastKey, lastValue) == ahead[idx]
                                         && db.cursor.browsing && Ahead(db.committed, db.cursor) == ahead[i..])
              && (0 <= idx && |ahead| <= idx ==>
                    i == |ahead| && lastState == 0 && lastIdx == |ahead| && !db.cursor.browsing)
    {
      hide Ahead, NextStep;
      ghost var rs, ahead := db.committed, Ahead(db.committed, db.cursor);
      lastKey := HEAD_START;
      i := 0;
      lastState := 2;
      while i <= idx
        invariant db.Valid() && db.committed == rs && 0 <= i <= |ahead| && (if 0 <= idx then i <= idx + 1 else i == 0)
        invariant Ahead(rs, db.cursor) == ahead[i..]
        invariant i == 0 ==> db.cursor == old(db.cursor) && lastState == 2 && lastKey == HEAD_START
        invariant i > 0 ==> db.cursor.browsing && lastState == 1 && lastIdx == i - 1
        invariant i > 0 ==> Record(lastKey, lastValue) == ahead[i - 1]
      {
        lastIdx := i;
        HeadCall(rs, db.cursor, lastKey);
        var r := db.Next(KEY_HEAD, Some(lastKey));
        if !r.Found? {
          db.Rewind();
          lastState := 0;
          return i;
        }
        lastKey, lastValue := r.record.key, r.record.value;
        lastState := 1;
        i := i + 1;
      }
    }
  }
}
