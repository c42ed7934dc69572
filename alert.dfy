/**
 * The reconciliation engine (api/library_alert.py): one run of check_arrival reads the
 * flattened status table, asks the availability service about every tracked ISBN at
 * every tracked library (re-polling while the reply says `continue`), diffs the reply
 * against the stored flags, writes the new flags back and mails the diff when it is
 * not empty.
 *
 * The service is a function from the request and the number of identical requests
 * already issued to the reply; the mail that _send_email delivers is returned as a value.
 */
module Alert {
  import opened Wrappers
  import opened Store

  // ----- the lookup request -----

  /** At most this many identical requests are issued per run. */
  const MaxRequests: nat := 20

  /** The query parameters of one lookup: appkey, isbn, systemid, format, callback.
      The comma-joined lists are kept as the sets they are joined from. */
  datatype Payload = Payload(appkey: string, isbn: set<Isbn>, systemid: set<LibraryId>, format: string, callback: string)

  /** What the service says about one book at one library. `libkey` is empty (falsy)
      when no branch of the library holds the book. */
  datatype LibEntry = LibEntry(status: string, libkey: map<string, string>, reserveUrl: string)

  /** The `books` object of a reply: ISBN -> library -> entry. */
  type Books = map<Isbn, map<LibraryId, LibEntry>>

  /** A decoded reply: the `continue` flag and the books. */
  datatype Response = Response(cont: int, books: Books)

  /** The reply the service gives to the n-th (0-based) issue of a request. */
  type Service = (Payload, nat) -> Response

  /** The values of the ISBN field of the items (None for a library without books). */
  function IsbnField(items: seq<FlatItem>): set<Option<Isbn>> {
    set x | x in items :: x.isbn
  }

  /** The values of the Library field of the items. */
  function LibraryField(items: seq<FlatItem>): set<LibraryId> {
    set x | x in items :: x.library
  }

  /** The payload built from the items; joining the ISBN set needs every value to be a string. */
  function PayloadFor(appKey: string, items: seq<FlatItem>): Payload
    requires None !in IsbnField(items)
  {
    Payload(appKey, set k | k in IsbnField(items) :: k.value, LibraryField(items), "json", "no")
  }

  /** The number of requests the poll loop issues, given that `issued` have been issued
      and every reply but possibly the last said `continue == 1`. */
  function Polled(service: Service, p: Payload, issued: nat): (n: nat)
    requires 1 <= issued <= MaxRequests
    ensures issued <= n <= MaxRequests
    decreases MaxRequests - issued
  {
    if issued == MaxRequests || service(p, issued - 1).cont != 1 then issued else Polled(service, p, issued + 1)
  }

  /** The number of requests one run issues. */
  function RequestCount(service: Service, p: Payload): (n: nat)
    ensures 1 <= n <= MaxRequests
  {
    Polled(service, p, 1)
  }

  /** The reply _send_request returns: the last one received. */
  function LastReply(service: Service, p: Payload): Response {
    service(p, RequestCount(service, p) - 1)
  }

  /** _send_request: project the items onto their ISBN and Library fields, then issue the
      request until a reply's `continue` is not 1 or 20 requests have been issued, and
      return the last reply. A None ISBN makes ",".join raise TypeError before any request. */
  method SendRequest(appKey: string, items: seq<FlatItem>, service: Service) returns (outcome: Result<Response, Raised>)
    ensures outcome.Failure? <==> None in IsbnField(items)
    ensures outcome.Failure? ==> outcome.error == TypeError
    ensures outcome.Success? ==> outcome.value == LastReply(service, PayloadFor(appKey, items))
  {
    var isbnSet := IsbnField(items);
    var librarySet := LibraryField(items);
    if None in isbnSet {
      return Failure(TypeError);
    }
    var payload := Payload(appKey, set k | k in isbnSet :: k.value, librarySet, "json", "no");
    var status := 1;
    var maxRequest := MaxRequests;
    var r: Option<Response> := None;
    while status == 1 && maxRequest > 0
      invariant 0 <= maxRequest <= MaxRequests
      invariant r.None? <==> maxRequest == MaxRequests
      invariant r.None? ==> status == 1
      invariant r.Some? ==> r.value == service(payload, MaxRequests - maxRequest - 1) && status == r.value.cont
      invariant r.Some? ==> RequestCount(service, payload) == Polled(service, payload, MaxRequests - maxRequest)
    {
      r := Some(service(payload, MaxRequests - maxRequest));
      status := r.value.cont;
      maxRequest := maxRequest - 1;
    }
    return Success(r.value);
  }

  /** Polled counts from `issued` on: the replies before the last said `continue == 1`,
      and the last one said otherwise unless the budget ran out. */
  lemma {:induction false} PolledSpec(service: Service, p: Payload, issued: nat)
    requires 1 <= issued <= MaxRequests
    requires forall k :: 0 <= k < issued - 1 ==> service(p, k).cont == 1
    ensures forall k :: 0 <= k < Polled(service, p, issued) - 1 ==> service(p, k).cont == 1
    ensures Polled(service, p, issued) < MaxRequests ==> service(p, Polled(service, p, issued) - 1).cont != 1
    decreases MaxRequests - issued
  {
    if issued < MaxRequests && service(p, issued - 1).cont == 1 {
      PolledSpec(service, p, issued + 1);
    }
  }

  /** The poll loop issues between 1 and 20 requests, stops at the first reply whose
      `continue` is not 1, and otherwise stops after the 20th. */
  lemma RequestCountSpec(service: Service, p: Payload)
    ensures 1 <= RequestCount(service, p) <= MaxRequests
    ensures forall k :: 0 <= k < RequestCount(service, p) - 1 ==> service(p, k).cont == 1
    ensures RequestCount(service, p) < MaxRequests ==> LastReply(service, p).cont != 1
  {
    PolledSpec(service, p, 1);
  }

  /** Conversely, a count with those three properties is the one the poll loop reaches. */
  lemma {:induction false} RequestCountUnique(service: Service, p: Payload, n: nat)
    requires 1 <= n <= MaxRequests
    requires forall k :: 0 <= k < n - 1 ==> service(p, k).cont == 1
    requires n < MaxRequests ==> service(p, n - 1).cont != 1
    ensures RequestCount(service, p) == n
  {
    PolledReaches(service, p, 1, n);
  }

  lemma {:induction false} PolledReaches(service: Service, p: Payload, issued: nat, n: nat)
    requires 1 <= issued <= n <= MaxRequests
    requires forall k :: 0 <= k < n - 1 ==> service(p, k).cont == 1
    requires n < MaxRequests ==> service(p, n - 1).cont != 1
    ensures Polled(service, p, issued) == n
    decreases n - issued
  {
    if issued < n {
      assert service(p, issued - 1).cont == 1;
      PolledReaches(service, p, issued + 1, n);
    }
  }

  /** A service that answers `continue == 0` at once is asked once; one that always
      answers `continue == 1` is asked 20 times and its 20th reply is returned. */
  lemma PollExtremes(service: Service, p: Payload)
    ensures service(p, 0).cont != 1 ==> RequestCount(service, p) == 1 && LastReply(service, p) == service(p, 0)
    ensures (forall k :: 0 <= k < MaxRequests ==> service(p, k).cont == 1) ==>
              RequestCount(service, p) == MaxRequests && LastReply(service, p) == service(p, MaxRequests - 1)
  {
    RequestCountSpec(service, p);
  }

  // ----- the nested view of the items -----

  /** _convert_db_items' result: ISBN field -> Library field -> Status field. */
  type DbDict = map<Option<Isbn>, map<LibraryId, Option<bool>>>

  /** The dict after setdefault/assignment of every item in order. */
  function Nest(items: seq<FlatItem>): DbDict {
    if items == [] then map[]
    else
      var d := Nest(items[..|items| - 1]);
      var x := items[|items| - 1];
      d[x.isbn := (if x.isbn in d then d[x.isbn] else map[])[x.library := x.status]]
  }

  /** _convert_db_items: setdefault the ISBN's inner dict, then store the status under the library. */
  method ConvertDbItems(items: seq<FlatItem>) returns (dbDict: DbDict)
    ensures dbDict == Nest(items)
  {
    dbDict := map[];
    for k := 0 to |items|
      invariant dbDict == Nest(items[..k])
    {
      var db := items[k];
      if db.isbn !in dbDict {
        dbDict := dbDict[db.isbn := map[]];
      }
      dbDict := dbDict[db.isbn := dbDict[db.isbn][db.library := db.status]];
      assert items[..k + 1][..k] == items[..k];
    }
    assert items[..|items|] == items;
  }

  /** Every (ISBN, Library) of the items has an entry, holding the Status of the last
      item with that ISBN and Library. */
  lemma {:induction false} NestLastWins(items: seq<FlatItem>, i: int)
    requires 0 <= i < |items|
    requires forall j :: i < j < |items| ==> (items[j].isbn, items[j].library) != (items[i].isbn, items[i].library)
    ensures items[i].isbn in Nest(items) && items[i].library in Nest(items)[items[i].isbn]
    ensures Nest(items)[items[i].isbn][items[i].library] == items[i].status
  {
    var n := |items| - 1;
    if i < n {
      assert forall j :: i < j < n ==> items[..n][j] == items[j];
      NestLastWins(items[..n], i);
      assert items[..n][i] == items[i];
    }
  }

  /** Every entry of the dict comes from an item with that ISBN and Library and holds its Status. */
  lemma {:induction false} NestFromItems(items: seq<FlatItem>, k: Option<Isbn>, l: LibraryId)
    requires k in Nest(items) && l in Nest(items)[k]
    ensures exists i :: 0 <= i < |items| && items[i].isbn == k && items[i].library == l && items[i].status == Nest(items)[k][l]
  {
    var n := |items| - 1;
    var x := items[n];
    if (x.isbn, x.library) != (k, l) {
      NestFromItems(items[..n], k, l);
      var i :| 0 <= i < n && items[..n][i].isbn == k && items[..n][i].library == l && items[..n][i].status == Nest(items[..n])[k][l];
      assert items[i] == items[..n][i];
    }
  }

  // ----- the diff -----

  /** A reply entry reporting the book as held: not an Error, and a truthy libkey. */
  predicate Qualifies(e: LibEntry) {
    e.status != "Error" && e.libkey != map[]
  }

  /** The dict holds a flag for (isbn, lib). */
  predicate Tracked(db: DbDict, isbn: Isbn, lib: LibraryId) {
    Some(isbn) in db && lib in db[Some(isbn)]
  }

  /** (isbn, lib) is reported held and its flag is falsy: a transition to report. */
  predicate Newly(books: Books, db: DbDict, isbn: Isbn, lib: LibraryId) {
    && isbn in books && lib in books[isbn]
    && Qualifies(books[isbn][lib])
    && Tracked(db, isbn, lib)
    && db[Some(isbn)][lib] != Some(true)
  }

  /** The reply reports a held book at a pair the dict has no flag for, so the lookup
      db_items[isbn][lib] raises KeyError. */
  predicate Fails(books: Books, db: DbDict) {
    exists isbn, lib :: isbn in books && lib in books[isbn] && Qualifies(books[isbn][lib]) && !Tracked(db, isbn, lib)
  }

  /** `h` reports a transition of (isbn, h.library) with the reply's reserve URL. */
  predicate IsHit(books: Books, db: DbDict, isbn: Isbn, h: Hit) {
    Newly(books, db, isbn, h.library) && h.reserveUrl == books[isbn][h.library].reserveUrl
  }

  /** No library appears twice in a list of hits. */
  predicate LibrariesDistinct(hits: seq<Hit>) {
    forall i, j :: 0 <= i < j < |hits| ==> hits[i].library != hits[j].library
  }

  /** `u` is a diff of the reply against the dict: every list is non-empty and names each
      library once, every hit is a transition, and every transition is a hit. */
  ghost predicate IsUpdateFor(u: UpdateSet, books: Books, db: DbDict) {
    && (forall isbn :: isbn in u ==> u[isbn] != [] && LibrariesDistinct(u[isbn]))
    && (forall isbn, h :: isbn in u && h in u[isbn] ==> IsHit(books, db, isbn, h))
    && (forall isbn, lib :: Newly(books, db, isbn, lib) ==> isbn in u && Hit(lib, books[isbn][lib].reserveUrl) in u[isbn])
  }

  /** The flags of key `k` after the diff: every transition set to True. */
  function MarkedRecord(books: Books, db: DbDict, k: Option<Isbn>): map<LibraryId, Option<bool>>
    requires k in db
  {
    map l | l in db[k] :: if k.Some? && Newly(books, db, k.value, l) then Some(true) else db[k][l]
  }

  /** The dict after the diff. */
  function Marked(books: Books, db: DbDict): DbDict {
    map k | k in db :: MarkedRecord(books, db, k)
  }

  /** update.setdefault(isbn, []).append(h) */
  function Appended(u: UpdateSet, isbn: Isbn, h: Hit): (r: UpdateSet)
    ensures r.Keys == u.Keys + {isbn}
    ensures r[isbn] == (if isbn in u then u[isbn] else []) + [h]
    ensures forall i :: i in u && i != isbn ==> r[i] == u[i]
  {
    var u1 := if isbn in u then u else u[isbn := []];
    u1[isbn := u1[isbn] + [h]]
  }

  /** _status_check: walk every (isbn, lib) of the reply; skip Error entries; for a
      truthy libkey look up the flag (KeyError when there is none) and, when it is
      falsy, append [lib, reserveurl] to update[isbn] and set the flag to True.
      `flags` is the dict as the walk leaves it. */
  method StatusCheck(response: Response, db: DbDict) returns (outcome: Result<UpdateSet, Raised>, flags: DbDict)
    ensures outcome.Failure? <==> Fails(response.books, db)
    ensures outcome.Failure? ==> outcome.error == KeyError
    ensures outcome.Success? ==> IsUpdateFor(outcome.value, response.books, db) && flags == Marked(response.books, db)
  {
    var books := response.books;
    var update: UpdateSet := map[];
    flags := db;
    // the (isbn, lib) pairs of the reply walked so far
    ghost var walked: set<(Isbn, LibraryId)> := {};
    var todo := books.Keys;
    while todo != {}
      invariant todo <= books.Keys
      invariant DiffProgress(books, db, walked, update, flags)
      invariant SweptAll(books, walked, books.Keys - todo)
      decreases todo
    {
      var isbn :| isbn in todo;
      var libraries := books[isbn];
      var libs := libraries.Keys;
      SweptEnter(books, walked, books.Keys - todo, isbn);
      while libs != {}
        invariant libs <= libraries.Keys
        invariant DiffProgress(books, db, walked, update, flags)
        invariant Swept(books, walked, books.Keys - todo, isbn, libraries.Keys - libs)
        decreases libs
      {
        var lib :| lib in libs;
        var status := libraries[lib];
        SweptFresh(books, walked, books.Keys - todo, isbn, libraries.Keys - libs, lib);
        DiffLookup(books, db, walked, update, flags, isbn, lib);
        if status.status == "Error" {
          DiffSkip(books, db, walked, update, flags, isbn, lib);
        } else if status.libkey != map[] {
          if !(Some(isbn) in flags && lib in flags[Some(isbn)]) {
            FailsAt(books, db, isbn, lib);
            return Failure(KeyError), flags;
          }
          if flags[Some(isbn)][lib] != Some(true) {
            DiffRecord(books, db, walked, update, flags, isbn, lib);
            update := Appended(update, isbn, Hit(lib, status.reserveUrl));
            flags := flags[Some(isbn) := flags[Some(isbn)][lib := Some(true)]];
          } else {
            DiffSkip(books, db, walked, update, flags, isbn, lib);
          }
        } else {
          DiffSkip(books, db, walked, update, flags, isbn, lib);
        }
        walked := walked + {(isbn, lib)};
        libs := libs - {lib};
      }
      SweptExit(books, walked, books.Keys - todo, isbn);
      todo := todo - {isbn};
    }
    DiffComplete(books, db, walked, update, flags);
    return Success(update), flags;
  }

  /** The state of _status_check's walk after the pairs `walked`: no walked pair raised,
      the flags of the walked transitions are True and no other flag changed, and the
      update holds exactly the walked transitions. */
  ghost predicate DiffProgress(books: Books, db: DbDict, walked: set<(Isbn, LibraryId)>, u: UpdateSet, flags: DbDict) {
    && (forall i, l :: (i, l) in walked ==> i in books && l in books[i] && !(Qualifies(books[i][l]) && !Tracked(db, i, l)))
    && FlagsAfter(books, db, walked, flags)
    && UpdateAfter(books, db, walked, u)
  }

  /** `flags` is `db` with the walked transitions set to True. */
  ghost predicate FlagsAfter(books: Books, db: DbDict, walked: set<(Isbn, LibraryId)>, flags: DbDict) {
    && flags.Keys == db.Keys
    && (forall k :: k in db ==> flags[k].Keys == db[k].Keys)
    && (forall k, l :: k in db && l in db[k] ==>
          flags[k][l] == if k.Some? && (k.value, l) in walked && Newly(books, db, k.value, l) then Some(true) else db[k][l])
  }

  /** `u` lists exactly the walked transitions, each library once per ISBN. */
  ghost predicate UpdateAfter(books: Books, db: DbDict, walked: set<(Isbn, LibraryId)>, u: UpdateSet) {
    && (forall i :: i in u ==> u[i] != [] && LibrariesDistinct(u[i]))
    && UpdateSound(books, db, walked, u)
    && UpdateComplete(books, db, walked, u)
  }

  /** Every hit of `u` is a walked transition. */
  ghost predicate UpdateSound(books: Books, db: DbDict, walked: set<(Isbn, LibraryId)>, u: UpdateSet) {
    forall i, h :: i in u && h in u[i] ==> (i, h.library) in walked && IsHit(books, db, i, h)
  }

  /** Every walked transition is a hit of `u`. */
  ghost predicate UpdateComplete(books: Books, db: DbDict, walked: set<(Isbn, LibraryId)>, u: UpdateSet) {
    forall i, l :: (i, l) in walked && Newly(books, db, i, l) ==> i in u && Hit(l, books[i][l].reserveUrl) in u[i]
  }

  /** The walked pairs are those of the ISBNs in `done`. */
  ghost predicate SweptAll(books: Books, walked: set<(Isbn, LibraryId)>, done: set<Isbn>) {
    forall i, l :: (i, l) in walked <==> i in done && i in books && l in books[i]
  }

  /** The walked pairs are those of the ISBNs in `done` and those of `isbn` with a library in `doneLibs`. */
  ghost predicate Swept(books: Books, walked: set<(Isbn, LibraryId)>, done: set<Isbn>, isbn: Isbn, doneLibs: set<LibraryId>) {
    forall i, l :: (i, l) in walked <==> (i in done && i in books && l in books[i]) || (i == isbn && l in doneLibs)
  }

  lemma SweptEnter(books: Books, walked: set<(Isbn, LibraryId)>, done: set<Isbn>, isbn: Isbn)
    requires SweptAll(books, walked, done)
    ensures Swept(books, walked, done, isbn, {})
  {
  }

  lemma SweptFresh(books: Books, walked: set<(Isbn, LibraryId)>, done: set<Isbn>, isbn: Isbn, doneLibs: set<LibraryId>, lib: LibraryId)
    requires Swept(books, walked, done, isbn, doneLibs) && isbn !in done && lib !in doneLibs
    ensures (isbn, lib) !in walked
    ensures Swept(books, walked + {(isbn, lib)}, done, isbn, doneLibs + {lib})
  {
  }

  lemma SweptExit(books: Books, walked: set<(Isbn, LibraryId)>, done: set<Isbn>, isbn: Isbn)
    requires isbn in books && Swept(books, walked, done, isbn, books[isbn].Keys)
    ensures SweptAll(books, walked, done + {isbn})
  {
  }

  /** The flag the walk reads for an unwalked pair is the dict's original one. */
  lemma DiffLookup(books: Books, db: DbDict, walked: set<(Isbn, LibraryId)>, u: UpdateSet, flags: DbDict, isbn: Isbn, lib: LibraryId)
    requires DiffProgress(books, db, walked, u, flags) && (isbn, lib) !in walked
    ensures (Some(isbn) in flags && lib in flags[Some(isbn)]) <==> Tracked(db, isbn, lib)
    ensures Tracked(db, isbn, lib) ==> flags[Some(isbn)][lib] == db[Some(isbn)][lib]
  {
  }

  /** An untracked pair reported held makes the diff raise. */
  lemma FailsAt(books: Books, db: DbDict, isbn: Isbn, lib: LibraryId)
    requires isbn in books && lib in books[isbn] && Qualifies(books[isbn][lib]) && !Tracked(db, isbn, lib)
    ensures Fails(books, db)
  {
  }

  /** Walking a pair that is not a transition and does not raise changes nothing. */
  lemma DiffSkip(books: Books, db: DbDict, walked: set<(Isbn, LibraryId)>, u: UpdateSet, flags: DbDict, isbn: Isbn, lib: LibraryId)
    requires DiffProgress(books, db, walked, u, flags)
    requires isbn in books && lib in books[isbn]
    requires !Newly(books, db, isbn, lib) && !(Qualifies(books[isbn][lib]) && !Tracked(db, isbn, lib))
    ensures DiffProgress(books, db, walked + {(isbn, lib)}, u, flags)
  {
    FlagsSkip(books, db, walked, flags, isbn, lib);
    UpdateSkip(books, db, walked, u, isbn, lib);
  }

  lemma FlagsSkip(books: Books, db: DbDict, walked: set<(Isbn, LibraryId)>, flags: DbDict, isbn: Isbn, lib: LibraryId)
    requires FlagsAfter(books, db, walked, flags) && !Newly(books, db, isbn, lib)
    ensures FlagsAfter(books, db, walked + {(isbn, lib)}, flags)
  {
  }

  lemma UpdateSkip(books: Books, db: DbDict, walked: set<(Isbn, LibraryId)>, u: UpdateSet, isbn: Isbn, lib: LibraryId)
    requires UpdateAfter(books, db, walked, u) && !Newly(books, db, isbn, lib)
    ensures UpdateAfter(books, db, walked + {(isbn, lib)}, u)
  {
  }

  /** Walking a transition appends its hit and sets its flag. */
  lemma DiffRecord(books: Books, db: DbDict, walked: set<(Isbn, LibraryId)>, u: UpdateSet, flags: DbDict, isbn: Isbn, lib: LibraryId)
    requires DiffProgress(books, db, walked, u, flags)
    requires (isbn, lib) !in walked && Newly(books, db, isbn, lib)
    ensures DiffProgress(books, db, walked + {(isbn, lib)},
                         Appended(u, isbn, Hit(lib, books[isbn][lib].reserveUrl)),
                         flags[Some(isbn) := flags[Some(isbn)][lib := Some(true)]])
  {
    FlagsRecord(books, db, walked, flags, isbn, lib);
    UpdateRecord(books, db, walked, u, isbn, lib);
  }

  lemma FlagsRecord(books: Books, db: DbDict, walked: set<(Isbn, LibraryId)>, flags: DbDict, isbn: Isbn, lib: LibraryId)
    requires FlagsAfter(books, db, walked, flags)
    requires (isbn, lib) !in walked && Newly(books, db, isbn, lib)
    ensures FlagsAfter(books, db, walked + {(isbn, lib)}, flags[Some(isbn) := flags[Some(isbn)][lib := Some(true)]])
  {
  }

  lemma UpdateRecord(books: Books, db: DbDict, walked: set<(Isbn, LibraryId)>, u: UpdateSet, isbn: Isbn, lib: LibraryId)
    requires UpdateAfter(books, db, walked, u)
    requires (isbn, lib) !in walked && Newly(books, db, isbn, lib)
    ensures UpdateAfter(books, db, walked + {(isbn, lib)}, Appended(u, isbn, Hit(lib, books[isbn][lib].reserveUrl)))
  {
    var h := Hit(lib, books[isbn][lib].reserveUrl);
    UpdateRecordShape(books, db, walked, u, isbn, h);
    UpdateRecordSound(books, db, walked, u, isbn, h);
    UpdateRecordComplete(books, db, walked, u, isbn, h);
  }

  lemma UpdateRecordShape(books: Books, db: DbDict, walked: set<(Isbn, LibraryId)>, u: UpdateSet, isbn: Isbn, h: Hit)
    requires UpdateSound(books, db, walked, u) && (isbn, h.library) !in walked
    requires forall i :: i in u ==> u[i] != [] && LibrariesDistinct(u[i])
    ensures forall i :: i in Appended(u, isbn, h) ==> Appended(u, isbn, h)[i] != [] && LibrariesDistinct(Appended(u, isbn, h)[i])
  {
    var hits := if isbn in u then u[isbn] else [];
    forall m | 0 <= m < |hits| ensures hits[m].library != h.library {
      assert hits[m] in u[isbn];
    }
    assert LibrariesDistinct(hits + [h]);
  }

  lemma UpdateRecordSound(books: Books, db: DbDict, walked: set<(Isbn, LibraryId)>, u: UpdateSet, isbn: Isbn, h: Hit)
    requires UpdateSound(books, db, walked, u) && IsHit(books, db, isbn, h)
    ensures UpdateSound(books, db, walked + {(isbn, h.library)}, Appended(u, isbn, h))
  {
    var hits := if isbn in u then u[isbn] else [];
    var u' := Appended(u, isbn, h);
    forall i: Isbn, g: Hit | i in u' && g in u'[i] ensures (i, g.library) in walked + {(isbn, h.library)} && IsHit(books, db, i, g) {
      if i == isbn && g != h {
        assert g in hits;
      }
    }
  }

  lemma UpdateRecordComplete(books: Books, db: DbDict, walked: set<(Isbn, LibraryId)>, u: UpdateSet, isbn: Isbn, h: Hit)
    requires UpdateComplete(books, db, walked, u) && IsHit(books, db, isbn, h)
    ensures UpdateComplete(books, db, walked + {(isbn, h.library)}, Appended(u, isbn, h))
  {
    var hits := if isbn in u then u[isbn] else [];
    var u' := Appended(u, isbn, h);
    forall i, l | (i, l) in walked + {(isbn, h.library)} && Newly(books, db, i, l) ensures i in u' && Hit(l, books[i][l].reserveUrl) in u'[i] {
      if (i, l) != (isbn, h.library) && i == isbn {
        assert Hit(l, books[i][l].reserveUrl) in hits;
      }
    }
  }

  /** Once every pair is walked, the update is a diff and the flags are Marked. */
  lemma DiffComplete(books: Books, db: DbDict, walked: set<(Isbn, LibraryId)>, u: UpdateSet, flags: DbDict)
    requires DiffProgress(books, db, walked, u, flags) && SweptAll(books, walked, books.Keys)
    ensures !Fails(books, db)
    ensures IsUpdateFor(u, books, db)
    ensures flags == Marked(books, db)
  {
    forall k | k in db ensures flags[k] == MarkedRecord(books, db, k) {
    }
  }

  /** Every key of the dict is the ISBN field of some item. */
  lemma {:induction false} NestKeyFromItems(items: seq<FlatItem>, k: Option<Isbn>)
    requires k in Nest(items)
    ensures exists i :: 0 <= i < |items| && items[i].isbn == k
  {
    var n := |items| - 1;
    if items[n].isbn != k {
      NestKeyFromItems(items[..n], k);
      var i :| 0 <= i < n && items[..n][i].isbn == k;
      assert items[i] == items[..n][i];
    }
  }

  /** Every item has an entry in the dict. */
  lemma {:induction false} NestCovers(items: seq<FlatItem>, i: int)
    requires 0 <= i < |items|
    ensures items[i].isbn in Nest(items) && items[i].library in Nest(items)[items[i].isbn]
  {
    var n := |items| - 1;
    if i < n {
      NestCovers(items[..n], i);
      assert items[..n][i] == items[i];
    }
  }

  // ----- the table as the engine sees it -----

  /** The ISBN fields of the table's flattening. */
  function ViewKeys(t: Table): set<Option<Isbn>> {
    (set i | i in AllIsbns(t) :: Some(i)) + (if HasEmptyRecord(t) then {None} else {})
  }

  /** The inner dict of key `k`: each library whose record yields a triple with ISBN field `k`. */
  function ViewRecord(t: Table, k: Option<Isbn>): map<LibraryId, Option<bool>> {
    match k
    case None => map l | l in t && t[l] == map[] :: None
    case Some(i) => map l | l in t && i in t[l] :: Some(t[l][i])
  }

  /** The dict _convert_db_items builds from the flattening of `t`. */
  function View(t: Table): DbDict {
    map k | k in ViewKeys(t) :: ViewRecord(t, k)
  }

  /** The entries of the view are the triples of the flattening. */
  lemma ViewEntry(t: Table, k: Option<Isbn>, l: LibraryId)
    ensures (k in View(t) && l in View(t)[k]) <==> (l in t && Emits(t, l, k))
    ensures l in t && Emits(t, l, k) ==> View(t)[k][l] == StatusAt(t, l, k)
  {
    if l in t && Emits(t, l, k) && k.Some? {
      assert k.value in AllIsbns(t);
    }
  }

  /** Tables whose records have the same ISBNs ask the same questions and have the same dict keys. */
  lemma SameShape(t: Table, t': Table)
    requires t'.Keys == t.Keys
    requires forall l :: l in t ==> t'[l].Keys == t[l].Keys
    ensures AllIsbns(t') == AllIsbns(t)
    ensures HasEmptyRecord(t') == HasEmptyRecord(t)
    ensures ViewKeys(t') == ViewKeys(t)
  {
    forall l | l in t ensures t'[l] == map[] <==> t[l] == map[] {
      assert t'[l].Keys == t[l].Keys;
    }
  }

  /** The payload _send_request builds from the flattening of `t` without empty records. */
  function TablePayload(appKey: string, t: Table): Payload {
    Payload(appKey, AllIsbns(t), t.Keys, "json", "no")
  }

  /** The fields of a flattening of `t`: a None ISBN exactly when some record is empty,
      and otherwise a payload asking about every tracked ISBN at every library. */
  lemma ContentsFields(t: Table, contents: seq<FlatItem>, appKey: string)
    requires forall x :: x in contents <==> IsEntry(t, x)
    ensures None in IsbnField(contents) <==> HasEmptyRecord(t)
    ensures LibraryField(contents) == t.Keys
    ensures !HasEmptyRecord(t) ==> PayloadFor(appKey, contents) == TablePayload(appKey, t)
  {
    if HasEmptyRecord(t) {
      var l :| l in t && t[l] == map[];
      assert IsEntry(t, FlatItem(l, None, None));
    }
    forall l | l in t ensures l in LibraryField(contents) {
      if t[l] == map[] {
        assert IsEntry(t, FlatItem(l, None, None));
      } else {
        var i :| i in t[l];
        assert IsEntry(t, FlatItem(l, Some(i), Some(t[l][i])));
      }
    }
    if !HasEmptyRecord(t) {
      var isbns := set k | k in IsbnField(contents) :: k.value;
      forall i | i in AllIsbns(t) ensures i in isbns {
        var l :| l in t && i in t[l];
        var x := FlatItem(l, Some(i), Some(t[l][i]));
        assert IsEntry(t, x);
        assert x.isbn in IsbnField(contents);
      }
    }
  }

  /** The dict built from any flattening of `t` is View(t). */
  lemma NestIsView(t: Table, contents: seq<FlatItem>)
    requires forall x :: x in contents <==> IsEntry(t, x)
    ensures Nest(contents) == View(t)
  {
    forall k | k in Nest(contents) ensures k in View(t) {
      NestKeyFromItems(contents, k);
      var i :| 0 <= i < |contents| && contents[i].isbn == k;
      NestCovers(contents, i);
      NestEntryIsView(t, contents, k, contents[i].library);
    }
    forall k | k in View(t) ensures k in Nest(contents) && Nest(contents)[k] == View(t)[k] {
      NestRecordIsView(t, contents, k);
    }
  }

  /** A key of the view has the same inner dict in the nested items. */
  lemma NestRecordIsView(t: Table, contents: seq<FlatItem>, k: Option<Isbn>)
    requires forall x :: x in contents <==> IsEntry(t, x)
    requires k in View(t)
    ensures k in Nest(contents) && Nest(contents)[k] == View(t)[k]
  {
    var l0: LibraryId;
    if k.Some? {
      l0 :| l0 in t && k.value in t[l0];
    } else {
      l0 :| l0 in t && t[l0] == map[];
    }
    ViewEntry(t, k, l0);
    ViewEntryIsNest(t, contents, k, l0);
    forall l | l in View(t)[k] ensures l in Nest(contents)[k] {
      ViewEntry(t, k, l);
      ViewEntryIsNest(t, contents, k, l);
    }
    forall l | l in Nest(contents)[k] ensures l in View(t)[k] && Nest(contents)[k][l] == View(t)[k][l] {
      NestEntryIsView(t, contents, k, l);
    }
  }

  /** An entry of the view is an entry of the nested items. */
  lemma ViewEntryIsNest(t: Table, contents: seq<FlatItem>, k: Option<Isbn>, l: LibraryId)
    requires forall x :: x in contents <==> IsEntry(t, x)
    requires l in t && Emits(t, l, k)
    ensures k in Nest(contents) && l in Nest(contents)[k]
  {
    var x := FlatItem(l, k, StatusAt(t, l, k));
    assert IsEntry(t, x);
    var i :| 0 <= i < |contents| && contents[i] == x;
    NestCovers(contents, i);
  }

  lemma NestEntryIsView(t: Table, contents: seq<FlatItem>, k: Option<Isbn>, l: LibraryId)
    requires forall x :: x in contents <==> IsEntry(t, x)
    requires k in Nest(contents) && l in Nest(contents)[k]
    ensures k in View(t) && l in View(t)[k] && Nest(contents)[k][l] == View(t)[k][l]
  {
    NestFromItems(contents, k, l);
    var i :| 0 <= i < |contents| && contents[i].isbn == k && contents[i].library == l && contents[i].status == Nest(contents)[k][l];
    assert IsEntry(t, contents[i]);
    ViewEntry(t, k, l);
  }

  /** The view tracks exactly the table's (isbn, library) entries, with their flags. */
  lemma ViewTracked(t: Table, isbn: Isbn, lib: LibraryId)
    ensures Tracked(View(t), isbn, lib) <==> lib in t && isbn in t[lib]
    ensures Tracked(View(t), isbn, lib) ==> View(t)[Some(isbn)][lib] == Some(t[lib][isbn])
  {
    ViewEntry(t, Some(isbn), lib);
  }

  // ----- properties of the diff -----

  /** An Error entry, or one whose libkey is falsy, contributes no hit. */
  lemma ErrorEntriesIgnored(u: UpdateSet, books: Books, db: DbDict, isbn: Isbn, lib: LibraryId)
    requires IsUpdateFor(u, books, db)
    requires isbn in books && lib in books[isbn] && !Qualifies(books[isbn][lib])
    ensures isbn in u ==> forall h :: h in u[isbn] ==> h.library != lib
  {
  }

  /** A pair is reported exactly when it is reported held and its flag was falsy. */
  lemma HitIffNewly(u: UpdateSet, books: Books, db: DbDict, isbn: Isbn, lib: LibraryId)
    requires IsUpdateFor(u, books, db)
    ensures (isbn in u && Names(u[isbn], lib)) <==> Newly(books, db, isbn, lib)
  {
    if Newly(books, db, isbn, lib) {
      assert Hit(lib, books[isbn][lib].reserveUrl) in u[isbn];
    }
  }

  /** Two diffs of the same reply against the same dict differ at most in the order of their lists. */
  lemma UpdateUpToOrder(u1: UpdateSet, u2: UpdateSet, books: Books, db: DbDict)
    requires IsUpdateFor(u1, books, db) && IsUpdateFor(u2, books, db)
    ensures u1.Keys == u2.Keys
    ensures forall i, h :: i in u1 ==> (h in u1[i] <==> h in u2[i])
  {
    forall i | i in u1 ensures i in u2 {
      var h := u1[i][0];
      assert IsHit(books, db, i, h);
    }
    forall i | i in u2 ensures i in u1 {
      var h := u2[i][0];
      assert IsHit(books, db, i, h);
    }
    forall i, h | i in u1 ensures h in u1[i] <==> h in u2[i] {
      if h in u1[i] {
        assert IsHit(books, db, i, h);
      }
      if h in u2[i] {
        assert IsHit(books, db, i, h);
      }
    }
  }

  /** The marked dict keeps every key and every True flag, sets the flag of every hit to
      True, and changes no flag that is not a hit. */
  lemma MarkedSpec(u: UpdateSet, books: Books, db: DbDict)
    requires IsUpdateFor(u, books, db)
    ensures Marked(books, db).Keys == db.Keys
    ensures forall k :: k in db ==> Marked(books, db)[k].Keys == db[k].Keys
    ensures forall i, h :: i in u && h in u[i] ==> Marked(books, db)[Some(i)][h.library] == Some(true)
    ensures forall k, l :: k in db && l in db[k] && db[k][l] == Some(true) ==> Marked(books, db)[k][l] == Some(true)
    ensures forall k, l :: k in db && l in db[k] && Marked(books, db)[k][l] != db[k][l] ==> k.Some? && k.value in u && Names(u[k.value], l)
  {
    forall k, l | k in db && l in db[k] && Marked(books, db)[k][l] != db[k][l] ensures k.Some? && k.value in u && Names(u[k.value], l) {
      HitIffNewly(u, books, db, k.value, l);
    }
  }

  /** After the diff no pair is a transition any more. */
  lemma MarkedHasNoNews(books: Books, db: DbDict, isbn: Isbn, lib: LibraryId)
    ensures !Newly(books, Marked(books, db), isbn, lib)
  {
  }

  /** Diffing the same reply against the marked dict raises exactly when the first diff
      raised, and otherwise finds nothing. */
  lemma SecondDiffEmpty(books: Books, db: DbDict, u2: UpdateSet)
    ensures Fails(books, Marked(books, db)) <==> Fails(books, db)
    ensures IsUpdateFor(u2, books, Marked(books, db)) ==> u2 == map[]
  {
    if IsUpdateFor(u2, books, Marked(books, db)) && u2 != map[] {
      var i :| i in u2;
      assert IsHit(books, Marked(books, db), i, u2[i][0]);
      MarkedHasNoNews(books, db, i, u2[i][0].library);
    }
  }

  /** Every hit names an (isbn, library) entry of the table. */
  lemma UpdateTargetsRecorded(t: Table, books: Books, u: UpdateSet)
    requires IsUpdateFor(u, books, View(t))
    ensures forall i, h :: i in u && h in u[i] ==> h.library in t && i in t[h.library]
    ensures AllRecorded(t, u)
  {
    forall i, h | i in u && h in u[i] ensures h.library in t && i in t[h.library] {
      assert IsHit(books, View(t), i, h);
      ViewTracked(t, i, h.library);
    }
  }

  /** The table with every tracked pair the reply reports held set to true. */
  function MarkTable(t: Table, books: Books): Table {
    map l | l in t :: map i | i in t[l] :: t[l][i] || (i in books && l in books[i] && Qualifies(books[i][l]))
  }

  /** update_db of a diff writes MarkTable: exactly the tracked pairs reported held become true. */
  lemma PersistedIsMarkTable(t: Table, books: Books, u: UpdateSet)
    requires IsUpdateFor(u, books, View(t))
    ensures Persisted(t, u) == MarkTable(t, books)
  {
    UpdateTargetsRecorded(t, books, u);
    forall l | l in t ensures t[l] + Flips(u, l) == MarkTable(t, books)[l] {
      PersistedRecordIsMarked(t, books, u, l);
    }
  }

  lemma PersistedRecordIsMarked(t: Table, books: Books, u: UpdateSet, l: LibraryId)
    requires IsUpdateFor(u, books, View(t))
    requires forall i, h :: i in u && h in u[i] ==> h.library in t && i in t[h.library]
    requires l in t
    ensures t[l] + Flips(u, l) == MarkTable(t, books)[l]
  {
    var f := Flips(u, l);
    var m := MarkTable(t, books)[l];
    forall i | i in f ensures i in m && m[i] == f[i] {
      var h: Hit :| h in u[i] && h.library == l;
      assert IsHit(books, View(t), i, h);
      ViewTracked(t, i, l);
    }
    forall i | i in m && i !in f ensures i in t[l] && m[i] == t[l][i] {
      HitIffNewly(u, books, View(t), i, l);
      ViewTracked(t, i, l);
    }
    OverrideEquals(t[l], f, m);
  }

  /** MarkTable read back is the dict the diff marked. */
  lemma ViewOfMarkTable(t: Table, books: Books)
    ensures View(MarkTable(t, books)) == Marked(books, View(t))
  {
    SameShape(t, MarkTable(t, books));
    forall k | k in View(t) ensures View(MarkTable(t, books))[k] == Marked(books, View(t))[k] {
      ViewOfMarkRecord(t, books, k);
    }
  }

  lemma ViewOfMarkRecord(t: Table, books: Books, k: Option<Isbn>)
    requires k in View(t) && k in View(MarkTable(t, books))
    ensures View(MarkTable(t, books))[k] == Marked(books, View(t))[k]
  {
    var a := View(MarkTable(t, books))[k];
    var b := Marked(books, View(t))[k];
    assert b == MarkedRecord(books, View(t), k);
    assert b.Keys == View(t)[k].Keys;
    forall l | l in b ensures l in a {
      ViewOfMarkEntry(t, books, k, l);
    }
    forall l | l in a ensures l in b && a[l] == b[l] {
      ViewOfMarkEntry(t, books, k, l);
    }
    MapEquals(a, b);
  }

  /** Two maps with the same keys and the same value at each key are equal. The comparison
      is kept out of ViewOfMarkRecord, whose context is too large to prove it directly. */
  lemma MapEquals<K, V>(a: map<K, V>, b: map<K, V>)
    requires forall x :: x in a <==> x in b
    requires forall x :: x in a ==> a[x] == b[x]
    ensures a == b
  {
  }

  lemma ViewOfMarkEntry(t: Table, books: Books, k: Option<Isbn>, l: LibraryId)
    requires k in View(t) && k in View(MarkTable(t, books))
    ensures l in View(MarkTable(t, books))[k] <==> l in View(t)[k]
    ensures l in View(t)[k] ==> View(MarkTable(t, books))[k][l] == Marked(books, View(t))[k][l]
  {
    var m := MarkTable(t, books);
    assert View(m)[k] == ViewRecord(m, k);
    assert View(t)[k] == ViewRecord(t, k);
    if l in t {
      MarkKeys(t, books, l);
      match k
      case None =>
        assert m[l] == map[] <==> t[l] == map[];
      case Some(i) =>
        if i in t[l] {
          ViewTracked(t, i, l);
          assert m[l][i] == (t[l][i] || (i in books && l in books[i] && Qualifies(books[i][l])));
        }
    }
  }

  lemma MarkKeys(t: Table, books: Books, l: LibraryId)
    requires l in t
    ensures l in MarkTable(t, books) && MarkTable(t, books)[l].Keys == t[l].Keys
    ensures MarkTable(t, books)[l] == map[] <==> t[l] == map[]
  {
    if t[l] != map[] {
      var i :| i in t[l];
      assert i in MarkTable(t, books)[l];
    }
  }

  /** When every record tracks the same ISBNs and the service answers only about what it
      was asked, the diff never raises. */
  lemma UniformNeverFails(t: Table, books: Books)
    requires Uniform(t)
    requires forall i :: i in books ==> i in AllIsbns(t) && books[i].Keys <= t.Keys
    ensures !Fails(books, View(t))
  {
    forall i, l | i in books && l in books[i] ensures Tracked(View(t), i, l) {
      var l' :| l' in t && i in t[l'];
      assert t[l'].Keys == t[l].Keys;
      ViewTracked(t, i, l);
    }
  }

  // ----- one run of check_arrival -----

  /** What one run of check_arrival over table `t` amounts to, with `t'` the table after it
      and `sent` the update the mail carries (None when no mail goes out):
      a record without books makes the request raise TypeError, and a reply that reports a
      book held at a pair the table does not track makes the diff raise KeyError; in both
      cases nothing is written and nothing is sent. Otherwise `u` is a diff of the last
      reply against the stored flags, update_db persists it, and a mail carries it exactly
      when it is not empty. */
  ghost predicate Reconciles(t: Table, appKey: string, service: Service, outcome: Outcome<Raised>,
                             u: UpdateSet, sent: Option<UpdateSet>, t': Table)
  {
    if HasEmptyRecord(t) then
      outcome == Fail(TypeError) && sent == None && t' == t
    else
      var books := LastReply(service, TablePayload(appKey, t)).books;
      if Fails(books, View(t)) then
        outcome == Fail(KeyError) && sent == None && t' == t
      else
        && outcome == Pass
        && IsUpdateFor(u, books, View(t))
        && t' == Persisted(t, u)
        && sent == (if u == map[] then None else Some(u))
  }

  /** The job: a status table and the application key of the availability service. */
  class LibraryAlert {
    const db: DbManager
    const appKey: string

    constructor (db: DbManager, appKey: string)
      ensures this.db == db && this.appKey == appKey
    {
      this.db := db;
      this.appKey := appKey;
    }

    /** check_arrival: read the table, ask the service, diff the reply against the stored
        flags, persist the diff, and mail it when it is not empty. */
    method CheckArrival(service: Service) returns (outcome: Outcome<Raised>, update: UpdateSet, sent: Option<UpdateSet>)
      modifies db
      ensures Reconciles(old(db.table), appKey, service, outcome, update, sent, db.table)
    {
      var dbItems, scanned := db.GetDbContents();
      ContentsFields(db.table, dbItems, appKey);
      var response := SendRequest(appKey, dbItems, service);
      if response.Failure? {
        return Fail(response.error), map[], None;
      }
      var dbDict := ConvertDbItems(dbItems);
      NestIsView(db.table, dbItems);
      var checked, flags := StatusCheck(response.value, dbDict);
      if checked.Failure? {
        return Fail(checked.error), map[], None;
      }
      update := checked.value;
      UpdateTargetsRecorded(db.table, response.value.books, update);
      var stored := db.UpdateDb(update);
      assert stored == Pass;
      sent := if update != map[] then Some(update) else None;
      outcome := Pass;
    }
  }

  // ----- properties of a run -----

  /** A run deletes no record and no ISBN, and never turns a true flag false; so the only
      flags it changes go from false to true. */
  lemma ReconcileMonotone(t: Table, appKey: string, service: Service, outcome: Outcome<Raised>,
                          u: UpdateSet, sent: Option<UpdateSet>, t': Table)
    requires Reconciles(t, appKey, service, outcome, u, sent, t')
    ensures t'.Keys == t.Keys
    ensures forall l :: l in t ==> t'[l].Keys == t[l].Keys
    ensures forall l, i :: l in t && i in t[l] && t[l][i] ==> t'[l][i]
    ensures forall l, i :: l in t && i in t[l] && t'[l][i] != t[l][i] ==> t'[l][i]
  {
    if outcome == Pass {
      UpdateTargetsRecorded(t, LastReply(service, TablePayload(appKey, t)).books, u);
      PersistGrows(t, u);
    }
  }

  /** update_db of an update that names only recorded pairs keeps every key and every true flag. */
  lemma PersistGrows(t: Table, u: UpdateSet)
    requires forall i, h :: i in u && h in u[i] ==> h.library in t && i in t[h.library]
    ensures Persisted(t, u).Keys == t.Keys
    ensures forall l :: l in t ==> Persisted(t, u)[l].Keys == t[l].Keys
    ensures forall l, i :: l in t && i in t[l] && t[l][i] ==> Persisted(t, u)[l][i]
  {
    PersistKeepsKeys(t, u);
    forall l, i | l in t && i in t[l] ensures t[l][i] ==> Persisted(t, u)[l][i] {
      PersistMonotone(t, u, l, i);
    }
  }

  /** A successful run writes exactly the tracked pairs the last reply reports held. */
  lemma ReconcileWritesHeld(t: Table, appKey: string, service: Service,
                            u: UpdateSet, sent: Option<UpdateSet>, t': Table)
    requires Reconciles(t, appKey, service, Pass, u, sent, t')
    ensures t' == MarkTable(t, LastReply(service, TablePayload(appKey, t)).books)
  {
    PersistedIsMarkTable(t, LastReply(service, TablePayload(appKey, t)).books, u);
  }

  /** A successful run mails exactly when some tracked pair whose flag was false is now
      reported held, and the mail carries the update it wrote. */
  lemma NotifyIffNews(t: Table, appKey: string, service: Service,
                      u: UpdateSet, sent: Option<UpdateSet>, t': Table)
    requires Reconciles(t, appKey, service, Pass, u, sent, t')
    ensures sent.Some? <==>
              exists i, l :: Newly(LastReply(service, TablePayload(appKey, t)).books, View(t), i, l)
    ensures sent.Some? ==> sent.value == u && t' == Persisted(t, sent.value)
  {
    var books := LastReply(service, TablePayload(appKey, t)).books;
    if u != map[] {
      var i :| i in u;
      assert IsHit(books, View(t), i, u[i][0]);
      assert Newly(books, View(t), i, u[i][0].library);
    }
  }

  /** Running the job again against the same service after a successful run raises
      nothing, finds nothing, writes nothing and sends nothing. */
  lemma ReconcileIdempotent(t: Table, appKey: string, service: Service,
                            u: UpdateSet, sent: Option<UpdateSet>, t': Table,
                            outcome2: Outcome<Raised>, u2: UpdateSet, sent2: Option<UpdateSet>, t'': Table)
    requires Reconciles(t, appKey, service, Pass, u, sent, t')
    requires Reconciles(t', appKey, service, outcome2, u2, sent2, t'')
    ensures outcome2 == Pass && u2 == map[] && sent2 == None && t'' == t'
  {
    var books := LastReply(service, TablePayload(appKey, t)).books;
    PersistedShape(t, books, u);
    assert TablePayload(appKey, t') == TablePayload(appKey, t);
    SecondDiffEmpty(books, View(t), u2);
    PersistNothing(t');
  }

  /** The table a diff is persisted into asks the same question of the service, and reads
      back as the dict the diff marked. */
  lemma PersistedShape(t: Table, books: Books, u: UpdateSet)
    requires IsUpdateFor(u, books, View(t))
    ensures HasEmptyRecord(Persisted(t, u)) == HasEmptyRecord(t)
    ensures AllIsbns(Persisted(t, u)) == AllIsbns(t) && Persisted(t, u).Keys == t.Keys
    ensures View(Persisted(t, u)) == Marked(books, View(t))
  {
    PersistedIsMarkTable(t, books, u);
    forall l | l in t ensures MarkTable(t, books)[l].Keys == t[l].Keys {
      MarkKeys(t, books, l);
    }
    SameShape(t, MarkTable(t, books));
    ViewOfMarkTable(t, books);
  }

  // ----- a worked run -----

  /** The reply of the worked run: LibA holds 9780000000001 and takes reservations at http://x. */
  function ExampleBooks(): (books: Books)
    ensures books.Keys == {"9780000000001"} && books["9780000000001"].Keys == {"LibA"}
    ensures Qualifies(books["9780000000001"]["LibA"])
  {
    var e := LibEntry("OK", map["LibA" := "Available"], "http://x");
    assert "LibA" in e.libkey;
    map["9780000000001" := map["LibA" := e]]
  }

  /** A service that answers every request at once with ExampleBooks. */
  function ExampleService(): Service {
    (p: Payload, n: nat) => Response(0, ExampleBooks())
  }

  /** LibA tracks 9780000000001, not yet seen: one run reports it with its reservation URL,
      stores its flag as true, and mails the report. */
  lemma ExampleRun(appKey: string, outcome: Outcome<Raised>, u: UpdateSet, sent: Option<UpdateSet>, t': Table)
    requires Reconciles(map["LibA" := map["9780000000001" := false]], appKey, ExampleService(), outcome, u, sent, t')
    ensures outcome == Pass
    ensures u == map["9780000000001" := [Hit("LibA", "http://x")]]
    ensures t' == map["LibA" := map["9780000000001" := true]]
    ensures sent == Some(u)
  {
    var t := map["LibA" := map["9780000000001" := false]];
    var isbn := "9780000000001";
    assert isbn in t["LibA"];
    assert !HasEmptyRecord(t);
    var p := TablePayload(appKey, t);
    assert ExampleService()(p, 0) == Response(0, ExampleBooks());
    PollExtremes(ExampleService(), p);
    assert LastReply(ExampleService(), p).books == ExampleBooks();
    ExampleDiff(t, u);
    assert IsUpdateFor(u, ExampleBooks(), View(t)) && t' == Persisted(t, u);
    ExamplePersist(t, u);
  }

  lemma ExamplePersist(t: Table, u: UpdateSet)
    requires t == map["LibA" := map["9780000000001" := false]]
    requires u == map["9780000000001" := [Hit("LibA", "http://x")]]
    ensures Persisted(t, u) == map["LibA" := map["9780000000001" := true]]
  {
    assert Names(u["9780000000001"], "LibA");
    assert Flips(u, "LibA") == map["9780000000001" := true];
    assert Persisted(t, u)["LibA"] == map["9780000000001" := true];
  }

  /** The diff of ExampleBooks against the worked run's table. */
  lemma ExampleDiff(t: Table, u: UpdateSet)
    requires t == map["LibA" := map["9780000000001" := false]]
    ensures !Fails(ExampleBooks(), View(t))
    ensures IsUpdateFor(u, ExampleBooks(), View(t)) ==> u == map["9780000000001" := [Hit("LibA", "http://x")]]
  {
    var books := ExampleBooks();
    var isbn := "9780000000001";
    var hit := Hit("LibA", "http://x");
    ViewTracked(t, isbn, "LibA");
    if IsUpdateFor(u, books, View(t)) {
      assert Newly(books, View(t), isbn, "LibA");
      assert isbn in u && hit in u[isbn];
      forall i | i in u ensures i == isbn && u[i] == [hit] {
        ExampleHits(t, u, i);
      }
      assert u == map[isbn := [hit]];
    }
  }

  lemma ExampleHits(t: Table, u: UpdateSet, i: Isbn)
    requires t == map["LibA" := map["9780000000001" := false]]
    requires IsUpdateFor(u, ExampleBooks(), View(t)) && i in u
    ensures i == "9780000000001" && u[i] == [Hit("LibA", "http://x")]
  {
    var books := ExampleBooks();
    var hits := u[i];
    assert hits != [] && LibrariesDistinct(hits);
    assert IsHit(books, View(t), i, hits[0]);
    assert i in books.Keys;
    forall h | h in hits ensures h == Hit("LibA", "http://x") {
      assert IsHit(books, View(t), i, h);
      assert h.library in books[i].Keys;
    }
    SingleLibrary(hits, "LibA");
    assert hits == [hits[0]];
  }

  /** A list of hits that names one library only, and no library twice, has at most one hit. */
  lemma SingleLibrary(hits: seq<Hit>, lib: LibraryId)
    requires LibrariesDistinct(hits)
    requires forall h :: h in hits ==> h.library == lib
    ensures |hits| <= 1
  {
    FirstTwo(hits);
  }

  /** The first two hits of a list, when it has two, are in it and name different libraries.
      Stated as an implication so that the indexing is checked outside the impossible case. */
  lemma FirstTwo(hits: seq<Hit>)
    requires LibrariesDistinct(hits)
    ensures |hits| > 1 ==> hits[0] in hits && hits[1] in hits && hits[0].library != hits[1].library
  {
  }
}
