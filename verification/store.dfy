/** The `mistakes` table (main.py's `init_db`): rows are inserted one at a
    time and read back all together; nothing updates or deletes them. The
    database file itself is replaced by a sequence of rows in insertion
    order. */
module MistakeStore {

  /** A row of `mistakes(id, user_input, mistake, correction, timestamp)`. */
  datatype Row = Row(id: nat, userInput: string, mistake: string, correction: string, timestamp: string)

  /** The values an INSERT supplies: every column but the id. */
  datatype Record = Record(userInput: string, mistake: string, correction: string, timestamp: string)

  /** The three columns the review selects. */
  datatype Entry = Entry(userInput: string, mistake: string, correction: string)

  type Store = seq<Row>

  /** The largest id in the table, 0 when the table is empty. */
  function MaxId(store: Store): (m: nat)
    ensures forall i :: 0 <= i < |store| ==> store[i].id <= m
    ensures store == [] ==> m == 0
    ensures store != [] ==> exists i :: 0 <= i < |store| && store[i].id == m
    decreases |store|
  {
    if store == [] then 0
    else
      var init := store[..|store| - 1];
      var m := MaxId(init);
      assert forall i :: 0 <= i < |init| ==> init[i] == store[i];
      if store[|store| - 1].id > m then store[|store| - 1].id else m
  }

  /** Ids run 1, 2, 3, … in insertion order. */
  predicate Sequential(store: Store)
  {
    forall i :: 0 <= i < |store| ==> store[i].id == i + 1
  }

  /** `INSERT INTO mistakes (user_input, mistake, correction, timestamp)`:
      the row goes at the end, and AUTOINCREMENT gives it an id above every
      id already in the table. */
  function Insert(store: Store, rec: Record): (r: Store)
    ensures |r| == |store| + 1 && r[..|store|] == store
    ensures r[|store|].userInput == rec.userInput && r[|store|].mistake == rec.mistake
    ensures r[|store|].correction == rec.correction && r[|store|].timestamp == rec.timestamp
    ensures forall i :: 0 <= i < |store| ==> store[i].id < r[|store|].id
    ensures Sequential(store) ==> Sequential(r)
  {
    assert Sequential(store) && store != [] ==> store[|store| - 1].id == |store|;
    store + [Row(MaxId(store) + 1, rec.userInput, rec.mistake, rec.correction, rec.timestamp)]
  }

  function Project(row: Row): Entry
  {
    Entry(row.userInput, row.mistake, row.correction)
  }

  /** `SELECT user_input, mistake, correction FROM mistakes`, in the order
      the rows were inserted. */
  function SelectAll(store: Store): (entries: seq<Entry>)
    ensures |entries| == |store|
    ensures forall i :: 0 <= i < |store| ==> entries[i] == Project(store[i])
    decreases |store|
  {
    if store == [] then []
    else
      var init := store[..|store| - 1];
      assert forall i :: 0 <= i < |init| ==> init[i] == store[i];
      SelectAll(init) + [Project(store[|store| - 1])]
  }

  /** Reading the table after an insert gives the earlier rows and then the
      new record's columns. */
  lemma SelectAfterInsert(store: Store, rec: Record)
    ensures SelectAll(Insert(store, rec)) == SelectAll(store) + [Entry(rec.userInput, rec.mistake, rec.correction)]
  {
    var grown := Insert(store, rec);
    assert grown[..|store|] == store;
    forall i | 0 <= i < |store|
      ensures SelectAll(grown)[i] == SelectAll(store)[i]
    {
      assert grown[i] == store[i];
    }
  }

  /** Inserting the records one after the other, as successive turns do. */
  function InsertAll(store: Store, recs: seq<Record>): Store
    decreases |recs|
  {
    if recs == [] then store else InsertAll(Insert(store, recs[0]), recs[1..])
  }

  /** Inserting N records keeps the old rows in front and adds N rows. */
  lemma {:induction false} InsertAllAppends(store: Store, recs: seq<Record>)
    ensures |InsertAll(store, recs)| == |store| + |recs|
    ensures InsertAll(store, recs)[..|store|] == store
    decreases |recs|
  {
    if recs != [] {
      var next := Insert(store, recs[0]);
      InsertAllAppends(next, recs[1..]);
      PrefixOfPrefix(InsertAll(store, recs), next, store);
    }
  }

  /** The `k`-th record inserted lands in the `k`-th new row, verbatim. */
  lemma {:induction false} InsertAllRow(store: Store, recs: seq<Record>, k: nat)
    requires k < |recs|
    ensures |store| + k < |InsertAll(store, recs)|
    ensures Project(InsertAll(store, recs)[|store| + k]) == Entry(recs[k].userInput, recs[k].mistake, recs[k].correction)
    decreases |recs|
  {
    var next := Insert(store, recs[0]);
    InsertAllAppends(next, recs[1..]);
    if k == 0 {
      var all := InsertAll(store, recs);
      assert all[..|next|][|store|] == next[|store|];
    } else {
      InsertAllRow(next, recs[1..], k - 1);
      assert recs[1..][k - 1] == recs[k];
    }
  }

  /** Successive inserts keep the ids 1, 2, 3, …. */
  lemma {:induction false} InsertAllSequential(store: Store, recs: seq<Record>)
    requires Sequential(store)
    ensures Sequential(InsertAll(store, recs))
    decreases |recs|
  {
    if recs != [] {
      InsertAllSequential(Insert(store, recs[0]), recs[1..]);
    }
  }

  /** The columns the review reads, for records not yet inserted. */
  function Columns(recs: seq<Record>): (entries: seq<Entry>)
    ensures |entries| == |recs|
    ensures forall k :: 0 <= k < |recs| ==> entries[k] == Entry(recs[k].userInput, recs[k].mistake, recs[k].correction)
    decreases |recs|
  {
    if recs == [] then [] else [Entry(recs[0].userInput, recs[0].mistake, recs[0].correction)] + Columns(recs[1..])
  }

  /** Inserting N records and reading the table back gives the old rows,
      then exactly the N records, in order, with their columns verbatim. */
  lemma InsertAllThenSelect(store: Store, recs: seq<Record>)
    ensures SelectAll(InsertAll(store, recs)) == SelectAll(store) + Columns(recs)
  {
    var selected := SelectAll(InsertAll(store, recs));
    OldEntriesSelected(store, recs);
    NewEntriesSelected(store, recs);
    Halves(selected, |store|);
  }

  lemma Halves<T>(a: seq<T>, n: nat)
    requires n <= |a|
    ensures a == a[..n] + a[n..]
  {
  }

  lemma OldEntriesSelected(store: Store, recs: seq<Record>)
    ensures |store| <= |SelectAll(InsertAll(store, recs))|
    ensures SelectAll(InsertAll(store, recs))[..|store|] == SelectAll(store)
  {
    InsertAllAppends(store, recs);
    var all := InsertAll(store, recs);
    forall i | 0 <= i < |store|
      ensures SelectAll(all)[i] == SelectAll(store)[i]
    {
      assert all[i] == all[..|store|][i];
    }
  }

  lemma NewEntriesSelected(store: Store, recs: seq<Record>)
    ensures |store| <= |SelectAll(InsertAll(store, recs))|
    ensures SelectAll(InsertAll(store, recs))[|store|..] == Columns(recs)
  {
    InsertAllAppends(store, recs);
    var selected := SelectAll(InsertAll(store, recs));
    forall k | 0 <= k < |recs|
      ensures selected[|store|..][k] == Columns(recs)[k]
    {
      InsertAllRow(store, recs, k);
    }
  }

  lemma PrefixOfPrefix(a: Store, b: Store, c: Store)
    requires |c| <= |b| <= |a|
    requires a[..|b|] == b && b[..|c|] == c
    ensures a[..|c|] == c
  {
    assert a[..|b|][..|c|] == a[..|c|];
  }
}
