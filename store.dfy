/**
 * The status table and its record-level operations (api/db_manager.py).
 *
 * The table is keyed by library identifier (systemid). Each record's BookStatus
 * maps the ISBNs tracked at that library to a flag: false means "tracked, not yet
 * reported available", true means "already reported available". A missing key means
 * the book is not tracked at that library. The DynamoDB table itself is the field
 * `table` of class DbManager; scans enumerate it in an unspecified order.
 */
module Store {
  import opened Wrappers

  type LibraryId = string
  type Isbn = string
  type BookStatus = map<Isbn, bool>
  type Table = map<LibraryId, BookStatus>

  /** The kinds of Python exception the core raises. */
  datatype Raised = TypeError | KeyError | IndexError

  /** One item of a table scan: {Library, BookStatus}. */
  datatype Record = Record(library: LibraryId, bookStatus: BookStatus)

  /** One {Library, ISBN, Status} triple of the flattened contents; a record
      without books yields ISBN and Status None. */
  datatype FlatItem = FlatItem(library: LibraryId, isbn: Option<Isbn>, status: Option<bool>)

  /** One [library, reserveurl] pair of an update. */
  datatype Hit = Hit(library: LibraryId, reserveUrl: string)

  /** The update: ISBN -> the libraries where the book was newly found available. */
  type UpdateSet = map<Isbn, seq<Hit>>

  predicate Distinct<T(==)>(s: seq<T>) {
    forall i, j :: 0 <= i < j < |s| ==> s[i] != s[j]
  }

  /** Every ISBN tracked by at least one library. */
  function AllIsbns(t: Table): set<Isbn> {
    set l, i | l in t && i in t[l] :: i
  }

  predicate HasEmptyRecord(t: Table) {
    exists l :: l in t && t[l] == map[]
  }

  /** All records track the same ISBNs. */
  ghost predicate Uniform(t: Table) {
    forall l1, l2 :: l1 in t && l2 in t ==> t[l1].Keys == t[l2].Keys
  }

  // ----- scanning -----

  /** `items` lists every record of `t` exactly once, in some order. */
  ghost predicate IsScanOf(items: seq<Record>, t: Table) {
    && (forall r :: r in items ==> r.library in t && r.bookStatus == t[r.library])
    && (forall i, j :: 0 <= i < j < |items| ==> items[i].library != items[j].library)
    && (forall l :: l in t ==> Record(l, t[l]) in items)
  }

  /** The libraries a sequence of scanned records names. */
  function Libraries(items: seq<Record>): set<LibraryId> {
    set r | r in items :: r.library
  }

  // ----- flattening -----

  /** Whether record `l` yields a triple whose ISBN field is `k`. */
  predicate Emits(t: Table, l: LibraryId, k: Option<Isbn>)
    requires l in t
  {
    match k
    case None => t[l] == map[]
    case Some(i) => i in t[l]
  }

  /** The Status field of the triple record `l` yields for ISBN field `k`. */
  function StatusAt(t: Table, l: LibraryId, k: Option<Isbn>): Option<bool>
    requires l in t && Emits(t, l, k)
  {
    match k
    case None => None
    case Some(i) => Some(t[l][i])
  }

  /** `x` is one of the triples the flattening of `t` consists of. */
  predicate IsEntry(t: Table, x: FlatItem) {
    x.library in t && Emits(t, x.library, x.isbn) && x.status == StatusAt(t, x.library, x.isbn)
  }

  /** `x` is one of the triples the scanned record `r` yields. */
  predicate IsRecordEntry(r: Record, x: FlatItem) {
    && x.library == r.library
    && match x.isbn
       case None => r.bookStatus == map[] && x.status == None
       case Some(i) => i in r.bookStatus && x.status == Some(r.bookStatus[i])
  }

  /** The number of triples one record yields: one per book, or one if it has none. */
  function RecordCount(bs: BookStatus): nat {
    if |bs| == 0 then 1 else |bs|
  }

  /** The number of triples a scan yields. */
  function Total(items: seq<Record>): nat {
    if items == [] then 0 else Total(items[..|items| - 1]) + RecordCount(items[|items| - 1].bookStatus)
  }

  // ----- what the writes produce -----

  predicate Names(hits: seq<Hit>, l: LibraryId) {
    exists h :: h in hits && h.library == l
  }

  /** Every library named in the update has a record. */
  predicate AllRecorded(t: Table, u: UpdateSet) {
    forall i, h :: i in u && h in u[i] ==> h.library in t
  }

  /** The flags the update sets to true in record `l`. */
  function Flips(u: UpdateSet, l: LibraryId): BookStatus {
    map i | i in u && Names(u[i], l) :: true
  }

  /** The table after every (isbn, library) pair of the update is set to true. */
  function Persisted(t: Table, u: UpdateSet): Table {
    map l | l in t :: t[l] + Flips(u, l)
  }

  /** `t'` lies between `t` and Persisted(t, u): no record is created or deleted,
      no key is removed, and every changed flag is a pair of the update set to true. */
  ghost predicate PartlyPersisted(t: Table, t': Table, u: UpdateSet) {
    && t'.Keys == t.Keys
    && (forall l, i :: l in t && i in t[l] ==> i in t'[l])
    && (forall l, i :: l in t && i in t'[l] ==>
          (i in t[l] && t'[l][i] == t[l][i]) || (i in u && Names(u[i], l) && t'[l][i]))
  }

  /** The table after add_book: isbn -> false in every record. */
  function WithBook(t: Table, isbn: Isbn): Table {
    map l | l in t :: t[l][isbn := false]
  }

  /** The table after a successful delete_book. */
  function WithoutBook(t: Table, isbn: Isbn): Table {
    map l | l in t :: t[l] - {isbn}
  }

  function AllFalse(keys: set<Isbn>): BookStatus {
    map i | i in keys :: false
  }

  /** The BookStatus add_library writes, given the first scanned record (None if the scan is empty). */
  function Seed(t: Table, first: Option<LibraryId>): BookStatus {
    if first.Some? && first.value in t then AllFalse(t[first.value].Keys) else map[]
  }

  /** The table after add_library. */
  function Registered(t: Table, library: LibraryId, first: Option<LibraryId>): Table {
    t[library := Seed(t, first)]
  }

  /** The triples get_db_contents emits for one scanned record: (Library, None, None)
      when its BookStatus is empty, then one (Library, isbn, status) per entry. */
  method FlattenRecord(item: Record) returns (flat: seq<FlatItem>)
    ensures |flat| == RecordCount(item.bookStatus)
    ensures Distinct(flat)
    ensures forall x :: x in flat <==> IsRecordEntry(item, x)
  {
    flat := [];
    if item.bookStatus == map[] {
      flat := flat + [FlatItem(item.library, None, None)];
    }
    var todo := item.bookStatus.Keys;
    while todo != {}
      invariant todo <= item.bookStatus.Keys
      invariant |flat| == if item.bookStatus == map[] then 1 else |item.bookStatus.Keys| - |todo|
      invariant Distinct(flat)
      invariant forall x :: x in flat <==> IsRecordEntry(item, x) && (x.isbn.None? || x.isbn.value !in todo)
      decreases todo
    {
      var isbn :| isbn in todo;
      var x := FlatItem(item.library, Some(isbn), Some(item.bookStatus[isbn]));
      AppendFresh(flat, x);
      flat := flat + [x];
      todo := todo - {isbn};
    }
    assert |item.bookStatus.Keys| == |item.bookStatus|;
  }

  /** The DynamoDB table accessed through a DbManager. */
  class DbManager {
    var table: Table

    /** table.scan()["Items"]: every record once, in an order the store chooses. */
    method Scan() returns (items: seq<Record>)
      ensures IsScanOf(items, table)
    {
      items := [];
      var todo := table.Keys;
      while todo != {}
        invariant todo <= table.Keys
        invariant forall r :: r in items ==> r.library in table && r.library !in todo && r.bookStatus == table[r.library]
        invariant forall i, j :: 0 <= i < j < |items| ==> items[i].library != items[j].library
        invariant forall l :: l in table && l !in todo ==> Record(l, table[l]) in items
        decreases todo
      {
        var l :| l in todo;
        items := items + [Record(l, table[l])];
        todo := todo - {l};
      }
    }

    /** get_db_contents: one triple per (library, isbn) entry, one (library, None, None)
        triple per record without books, and nothing else. */
    method GetDbContents() returns (contents: seq<FlatItem>, ghost scanned: seq<Record>)
      ensures IsScanOf(scanned, table)
      ensures |contents| == Total(scanned)
      ensures Distinct(contents)
      ensures forall x :: x in contents <==> IsEntry(table, x)
    {
      var items := Scan();
      scanned := items;
      contents := [];
      ghost var seen: set<LibraryId> := {};
      for k := 0 to |items|
        invariant |contents| == Total(items[..k])
        invariant Distinct(contents)
        invariant seen == Libraries(items[..k])
        invariant forall x :: x in contents ==> IsEntry(table, x) && x.library in seen
        invariant forall x :: IsEntry(table, x) && x.library in seen ==> x in contents
      {
        var item := items[k];
        assert items[..k + 1][..k] == items[..k];
        ScanFresh(items, table, k);
        var flat := FlattenRecord(item);
        AppendDisjoint(contents, flat);
        contents := contents + flat;
        LibrariesStep(items, k);
        seen := seen + {item.library};
      }
      assert items[..|items|] == items;
      ScanCovers(items, table);
    }

    /** update_db: for every (isbn, [library, url]) of the update, query the library's
        record, set BookStatus[isbn] = True and put the record back. A library without
        a record makes `Items[0]` raise IndexError; the writes made before it stay. */
    method UpdateDb(update: UpdateSet) returns (outcome: Outcome<Raised>)
      modifies this
      ensures outcome == Pass <==> AllRecorded(old(table), update)
      ensures outcome == Pass ==> table == Persisted(old(table), update)
      ensures outcome.Fail? ==> outcome.error == IndexError && PartlyPersisted(old(table), table, update)
    {
      ghost var t0 := table;
      // the (isbn, library) pairs written so far
      ghost var written: set<(Isbn, LibraryId)> := {};
      var todo := update.Keys;
      while todo != {}
        invariant todo <= update.Keys
        invariant WriteProgress(t0, table, written, update, update.Keys - todo)
        decreases todo
      {
        var isbn :| isbn in todo;
        var libraries := update[isbn];
        for j := 0 to |libraries|
          invariant WriteProgress(t0, table, written, update, update.Keys - todo)
          invariant HitsWritten(t0, written, isbn, libraries[..j])
        {
          var library := libraries[j];
          assert library in update[isbn];
          if library.library !in table {
            WrittenIsPartlyPersisted(t0, table, written, update, update.Keys - todo);
            return Fail(IndexError);
          }
          WriteOne(t0, table, written, update, update.Keys - todo, isbn, library);
          HitsWrittenStep(t0, written, isbn, libraries, j);
          table := table[library.library := table[library.library][isbn := true]];
          written := written + {(isbn, library.library)};
        }
        assert libraries[..|libraries|] == libraries;
        WriteIsbnDone(t0, table, written, update, update.Keys - todo, isbn);
        todo := todo - {isbn};
      }
      WrittenIsPersisted(t0, table, written, update);
      return Pass;
    }

    /** add_book: every existing record maps isbn to false afterwards. */
    method AddBook(isbn: Isbn)
      modifies this
      ensures table == WithBook(old(table), isbn)
    {
      var items := Scan();
      ghost var seen: set<LibraryId> := {};
      for k := 0 to |items|
        invariant seen == Libraries(items[..k])
        invariant table == StampedIn(old(table), isbn, seen)
      {
        var item := items[k];
        StampOne(old(table), isbn, seen, item.library);
        table := table[item.library := item.bookStatus[isbn := false]];
        LibrariesStep(items, k);
        seen := seen + {item.library};
      }
      assert items[..|items|] == items;
      ScanCovers(items, old(table));
      StampedAll(old(table), isbn, seen);
    }

    /** delete_book: pop isbn from every record. pop without a default raises KeyError
        at the first record lacking isbn; the records rewritten before it (`stripped`)
        stay rewritten. */
    method DeleteBook(isbn: Isbn) returns (outcome: Outcome<Raised>, ghost stripped: set<LibraryId>)
      modifies this
      ensures outcome == Pass <==> forall l :: l in old(table) ==> isbn in old(table)[l]
      ensures outcome == Pass ==> table == WithoutBook(old(table), isbn)
      ensures outcome.Fail? ==> outcome.error == KeyError
      ensures stripped <= old(table).Keys && table == StrippedIn(old(table), isbn, stripped)
    {
      var items := Scan();
      stripped := {};
      for k := 0 to |items|
        invariant stripped == Libraries(items[..k])
        invariant table == StrippedIn(old(table), isbn, stripped)
        invariant forall l :: l in stripped ==> isbn in old(table)[l]
      {
        var item := items[k];
        if isbn !in item.bookStatus {
          assert item.bookStatus == old(table)[item.library];
          return Fail(KeyError), stripped;
        }
        StripOne(old(table), isbn, stripped, item.library);
        table := table[item.library := item.bookStatus - {isbn}];
        LibrariesStep(items, k);
        stripped := stripped + {item.library};
      }
      assert items[..|items|] == items;
      ScanCovers(items, old(table));
      StrippedAll(old(table), isbn, stripped);
      return Pass, stripped;
    }

    /** add_library: write a record for `library` whose keys are those of the first
        scanned record, all false (an empty record when there is none or it is empty).
        `first` names the record the scan happened to list first. */
    method AddLibrary(library: LibraryId) returns (ghost first: Option<LibraryId>)
      modifies this
      ensures first.Some? <==> old(table) != map[]
      ensures first.Some? ==> first.value in old(table)
      ensures table == Registered(old(table), library, first)
    {
      var items := Scan();
      first := if |items| > 0 then Some(items[0].library) else None;
      var newStatus: BookStatus := map[];
      if |items| > 0 && |items[0].bookStatus| > 0 {
        var todo := items[0].bookStatus.Keys;
        while todo != {}
          invariant todo <= items[0].bookStatus.Keys
          invariant newStatus == AllFalse(items[0].bookStatus.Keys - todo)
          decreases todo
        {
          var isbn :| isbn in todo;
          newStatus := newStatus[isbn := false];
          todo := todo - {isbn};
        }
      }
      if table != map[] {
        ghost var l :| l in table;
        assert exists i :: 0 <= i < |items| && items[i].library == l;
      }
      if |items| > 0 {
        assert items[0].bookStatus == table[items[0].library];
        assert items[0].bookStatus.Keys - {} == items[0].bookStatus.Keys;
        assert |items[0].bookStatus| == 0 ==> AllFalse(items[0].bookStatus.Keys) == map[];
      }
      table := table[library := newStatus];
    }

    /** delete_library: remove the record keyed by `library` (absent keys are ignored). */
    method DeleteLibrary(library: LibraryId)
      modifies this
      ensures table == old(table) - {library}
    {
      table := table - {library};
    }
  }

  // ----- lemmas -----

  /** A scan names exactly the libraries of the table. */
  lemma ScanCovers(items: seq<Record>, t: Table)
    requires IsScanOf(items, t)
    ensures Libraries(items) == t.Keys
  {
    forall l | l in t ensures l in Libraries(items) {
      assert Record(l, t[l]) in items;
    }
  }

  /** The k-th record of a scan names a library no earlier record names. */
  lemma ScanFresh(items: seq<Record>, t: Table, k: int)
    requires IsScanOf(items, t) && 0 <= k < |items|
    ensures items[k].library !in Libraries(items[..k])
  {
    forall r | r in items[..k] ensures r.library != items[k].library {
      var i :| 0 <= i < k && items[..k][i] == r;
      assert r == items[i];
    }
  }

  /** One more record of the scan processed. */
  lemma LibrariesStep(items: seq<Record>, k: int)
    requires 0 <= k < |items|
    ensures Libraries(items[..k + 1]) == Libraries(items[..k]) + {items[k].library}
  {
    assert items[..k + 1] == items[..k] + [items[k]];
  }

  /** Appending a value not yet present keeps a sequence free of repetitions. */
  lemma AppendFresh<T>(s: seq<T>, x: T)
    requires Distinct(s) && x !in s
    ensures Distinct(s + [x])
  {
  }

  /** Two repetition-free sequences with no common value concatenate to one. */
  lemma AppendDisjoint<T>(a: seq<T>, b: seq<T>)
    requires Distinct(a) && Distinct(b)
    requires forall x :: x in a ==> x !in b
    ensures Distinct(a + b)
  {
    forall i, j | 0 <= i < j < |a + b| ensures (a + b)[i] != (a + b)[j] {
      if j >= |a| && i < |a| {
        assert (a + b)[j] in b;
      }
    }
  }

  /** `t` with isbn -> false written into the records of `done` only. */
  function StampedIn(t: Table, isbn: Isbn, done: set<LibraryId>): Table {
    map l | l in t :: if l in done then t[l][isbn := false] else t[l]
  }

  /** `t` with isbn removed from the records of `done` only. */
  function StrippedIn(t: Table, isbn: Isbn, done: set<LibraryId>): Table {
    map l | l in t :: if l in done then t[l] - {isbn} else t[l]
  }

  /** Rewriting one more record in add_book's loop. */
  lemma StampOne(t: Table, isbn: Isbn, done: set<LibraryId>, l: LibraryId)
    requires l in t
    ensures StampedIn(t, isbn, done + {l}) == StampedIn(t, isbn, done)[l := t[l][isbn := false]]
  {
  }

  /** Rewriting one more record in delete_book's loop. */
  lemma StripOne(t: Table, isbn: Isbn, done: set<LibraryId>, l: LibraryId)
    requires l in t
    ensures StrippedIn(t, isbn, done + {l}) == StrippedIn(t, isbn, done)[l := t[l] - {isbn}]
  {
  }

  /** Once every record is rewritten, add_book's loop has produced WithBook. */
  lemma StampedAll(t: Table, isbn: Isbn, done: set<LibraryId>)
    requires t.Keys <= done
    ensures StampedIn(t, isbn, done) == WithBook(t, isbn)
  {
  }

  /** Once every record is rewritten, delete_book's loop has produced WithoutBook. */
  lemma StrippedAll(t: Table, isbn: Isbn, done: set<LibraryId>)
    requires t.Keys <= done
    ensures StrippedIn(t, isbn, done) == WithoutBook(t, isbn)
  {
  }

  /** `t'` is `t` with exactly the (isbn, library) pairs of `written` set to true. */
  ghost predicate Applied(t: Table, t': Table, written: set<(Isbn, LibraryId)>) {
    && t'.Keys == t.Keys
    && (forall l, i :: l in t ==> (i in t'[l] <==> i in t[l] || (i, l) in written))
    && (forall l, i :: l in t && i in t'[l] ==> if (i, l) in written then t'[l][i] else t'[l][i] == t[l][i])
  }

  /** update_db's loop state: `t` is `t0` with the pairs of `written` set to true, each
      of them a pair of the update, and every pair of the ISBNs in `done` is written. */
  ghost predicate WriteProgress(t0: Table, t: Table, written: set<(Isbn, LibraryId)>, u: UpdateSet, done: set<Isbn>) {
    && Applied(t0, t, written)
    && (forall i, l :: (i, l) in written ==> i in u && Names(u[i], l))
    && (forall i, h :: i in done && i in u && h in u[i] ==> h.library in t0 && (i, h.library) in written)
  }

  /** Every hit of `hits` names a record of `t0` and its pair with `isbn` is written. */
  ghost predicate HitsWritten(t0: Table, written: set<(Isbn, LibraryId)>, isbn: Isbn, hits: seq<Hit>) {
    forall h :: h in hits ==> h.library in t0 && (isbn, h.library) in written
  }

  /** Writing one more pair of the update, for a recorded library. */
  lemma WriteOne(t0: Table, t: Table, written: set<(Isbn, LibraryId)>, u: UpdateSet, done: set<Isbn>, isbn: Isbn, h: Hit)
    requires WriteProgress(t0, t, written, u, done)
    requires isbn in u && h in u[isbn] && h.library in t
    ensures WriteProgress(t0, t[h.library := t[h.library][isbn := true]], written + {(isbn, h.library)}, u, done)
  {
    assert Names(u[isbn], h.library);
    ApplyStep(t0, t, written, isbn, h.library);
  }

  lemma HitsWrittenStep(t0: Table, written: set<(Isbn, LibraryId)>, isbn: Isbn, hits: seq<Hit>, j: int)
    requires 0 <= j < |hits| && hits[j].library in t0
    requires HitsWritten(t0, written, isbn, hits[..j])
    ensures HitsWritten(t0, written + {(isbn, hits[j].library)}, isbn, hits[..j + 1])
  {
    assert hits[..j + 1] == hits[..j] + [hits[j]];
  }

  /** All pairs of `isbn` written: `isbn` joins the finished ISBNs. */
  lemma WriteIsbnDone(t0: Table, t: Table, written: set<(Isbn, LibraryId)>, u: UpdateSet, done: set<Isbn>, isbn: Isbn)
    requires WriteProgress(t0, t, written, u, done)
    requires isbn in u && HitsWritten(t0, written, isbn, u[isbn])
    ensures WriteProgress(t0, t, written, u, done + {isbn})
  {
  }

  /** Writing one more pair of a recorded library. */
  lemma ApplyStep(t: Table, t': Table, written: set<(Isbn, LibraryId)>, isbn: Isbn, l: LibraryId)
    requires Applied(t, t', written) && l in t
    ensures Applied(t, t'[l := t'[l][isbn := true]], written + {(isbn, l)})
  {
  }

  /** Once every pair of the update is written, the table is Persisted(t, u). */
  lemma WrittenIsPersisted(t: Table, t': Table, written: set<(Isbn, LibraryId)>, u: UpdateSet)
    requires WriteProgress(t, t', written, u, u.Keys)
    ensures AllRecorded(t, u)
    ensures t' == Persisted(t, u)
  {
    forall l | l in t ensures t'[l] == t[l] + Flips(u, l) {
      var f := Flips(u, l);
      forall i | i in f ensures i in t'[l] && t'[l][i] == f[i] {
        var h: Hit :| h in u[i] && h.library == l;
        assert (i, h.library) in written;
      }
      assert forall i :: i in t'[l] && i !in f ==> i in t[l] && t'[l][i] == t[l][i];
      OverrideEquals(t[l], f, t'[l]);
    }
  }

  /** A table written with part of the update lies between the old and the new state. */
  lemma WrittenIsPartlyPersisted(t: Table, t': Table, written: set<(Isbn, LibraryId)>, u: UpdateSet, done: set<Isbn>)
    requires WriteProgress(t, t', written, u, done)
    ensures PartlyPersisted(t, t', u)
  {
  }

  /** `c` is the override `a + b` when it has their keys, b's values on b's keys and a's elsewhere. */
  lemma OverrideEquals<K, V>(a: map<K, V>, b: map<K, V>, c: map<K, V>)
    requires forall k :: k in c <==> k in a || k in b
    requires forall k :: k in b ==> c[k] == b[k]
    requires forall k :: k in a && k !in b ==> c[k] == a[k]
    ensures c == a + b
  {
  }

  /** update_db with an empty update performs no writes. */
  lemma PersistNothing(t: Table)
    ensures Persisted(t, map[]) == t
  {
    var none: UpdateSet := map[];
    forall l | l in t ensures Persisted(t, none)[l] == t[l] {
      assert Flips(none, l) == map[];
    }
  }

  /** update_db is monotonic: it creates and deletes no record and no key, and
      never sets a flag to false. */
  lemma PersistMonotone(t: Table, u: UpdateSet, l: LibraryId, i: Isbn)
    requires l in t && i in t[l]
    ensures Persisted(t, u).Keys == t.Keys
    ensures i in Persisted(t, u)[l]
    ensures t[l][i] ==> Persisted(t, u)[l][i]
    ensures Persisted(t, u)[l][i] != t[l][i] ==> i in u && Names(u[i], l) && Persisted(t, u)[l][i]
  {
  }

  /** A pair named in the update is true afterwards. */
  lemma PersistSets(t: Table, u: UpdateSet, i: Isbn, h: Hit)
    requires i in u && h in u[i] && h.library in t
    ensures i in Persisted(t, u)[h.library] && Persisted(t, u)[h.library][i]
  {
    assert Names(u[i], h.library);
  }

  /** When every updated pair is already tracked, update_db keeps each record's key set. */
  lemma PersistKeepsKeys(t: Table, u: UpdateSet)
    requires forall i, h :: i in u && h in u[i] ==> h.library in t && i in t[h.library]
    ensures forall l :: l in t ==> Persisted(t, u)[l].Keys == t[l].Keys
  {
    forall l, i | l in t && i in u && Names(u[i], l) ensures i in t[l] {
      var h: Hit :| h in u[i] && h.library == l;
    }
  }

  /** add_book followed by delete_book of a book no library tracked restores the table. */
  lemma {:induction false} DeleteUndoesAdd(t: Table, isbn: Isbn)
    requires isbn !in AllIsbns(t)
    ensures WithoutBook(WithBook(t, isbn), isbn) == t
  {
    forall l | l in t ensures WithoutBook(WithBook(t, isbn), isbn)[l] == t[l] {
      assert isbn !in t[l];
    }
  }

  /** delete_book never raises right after add_book of the same ISBN. */
  lemma AddedBookIsEverywhere(t: Table, isbn: Isbn)
    ensures forall l :: l in WithBook(t, isbn) ==> isbn in WithBook(t, isbn)[l] && !WithBook(t, isbn)[l][isbn]
    ensures WithBook(t, isbn).Keys == t.Keys
  {
  }

  /** add_library followed by delete_library of a new library restores the table. */
  lemma DeleteUndoesRegister(t: Table, library: LibraryId, first: Option<LibraryId>)
    requires library !in t
    ensures Registered(t, library, first) - {library} == t
  {
    assert (Registered(t, library, first) - {library}).Keys == t.Keys;
  }

  /** In a table whose records agree, seeding from the first record gives the new
      library every tracked ISBN, all false. */
  lemma SeedIsCorpus(t: Table, library: LibraryId, first: LibraryId)
    requires Uniform(t) && first in t
    ensures Registered(t, library, Some(first))[library].Keys == AllIsbns(t)
    ensures forall i :: i in Registered(t, library, Some(first))[library] ==> !Registered(t, library, Some(first))[library][i]
  {
    forall i | i in AllIsbns(t) ensures i in t[first] {
      var l :| l in t && i in t[l];
      assert t[l].Keys == t[first].Keys;
    }
  }

  /** add_book keeps the records in agreement. */
  lemma UniformWithBook(t: Table, isbn: Isbn)
    requires Uniform(t)
    ensures Uniform(WithBook(t, isbn))
  {
    forall l1, l2 | l1 in t && l2 in t ensures WithBook(t, isbn)[l1].Keys == WithBook(t, isbn)[l2].Keys {
      assert t[l1].Keys == t[l2].Keys;
    }
  }

  /** delete_book keeps the records in agreement. */
  lemma UniformWithoutBook(t: Table, isbn: Isbn)
    requires Uniform(t)
    ensures Uniform(WithoutBook(t, isbn))
  {
    forall l1, l2 | l1 in t && l2 in t ensures WithoutBook(t, isbn)[l1].Keys == WithoutBook(t, isbn)[l2].Keys {
      assert t[l1].Keys == t[l2].Keys;
    }
  }

  /** A delete_book that raises leaves a table whose records agree unchanged: when one
      record lacks the isbn, every record does, so no record lost anything before the raise. */
  lemma FailedDeleteKeepsUniform(t: Table, isbn: Isbn, stripped: set<LibraryId>)
    requires Uniform(t) && stripped <= t.Keys
    requires !(forall l :: l in t ==> isbn in t[l])
    ensures StrippedIn(t, isbn, stripped) == t
  {
    var m :| m in t && isbn !in t[m];
    forall l | l in t ensures StrippedIn(t, isbn, stripped)[l] == t[l] {
      assert t[l].Keys == t[m].Keys;
    }
  }

  /** add_library keeps the records in agreement: the seed copies one of them. */
  lemma UniformRegistered(t: Table, library: LibraryId, first: Option<LibraryId>)
    requires Uniform(t)
    requires first.Some? <==> t != map[]
    requires first.Some? ==> first.value in t
    ensures Uniform(Registered(t, library, first))
  {
    var r := Registered(t, library, first);
    forall l1, l2 | l1 in r && l2 in r ensures r[l1].Keys == r[l2].Keys {
      if l1 != library && l2 != library {
        assert t[l1].Keys == t[l2].Keys;
      } else if first.Some? {
        assert Seed(t, first).Keys == t[first.value].Keys;
        if l1 != library { assert t[l1].Keys == t[first.value].Keys; }
        if l2 != library { assert t[l2].Keys == t[first.value].Keys; }
      }
    }
  }

  /** delete_library keeps the records in agreement. */
  lemma UniformWithoutLibrary(t: Table, library: LibraryId)
    requires Uniform(t)
    ensures Uniform(t - {library})
  {
  }

  /** An update of tracked pairs keeps the records in agreement. */
  lemma UniformPersisted(t: Table, u: UpdateSet)
    requires Uniform(t)
    requires forall i, h :: i in u && h in u[i] ==> h.library in t && i in t[h.library]
    ensures Uniform(Persisted(t, u))
  {
    PersistKeepsKeys(t, u);
  }
}
