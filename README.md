# LibraryAlert in Dafny

LibraryAlert watches a list of books at a set of libraries. Its DynamoDB table holds one
record per library: the library's system id and a `BookStatus` map from ISBN to a flag. The
flag says whether the book has already been reported as held there. Each run of the job
(`check_arrival`) does five things:

1. It reads the table and flattens it into (Library, ISBN, Status) triples (`get_db_contents`).
2. It asks the Calil availability service about every ISBN at every library. It repeats the
   same request while the reply says `continue == 1`, at most 20 times (`_send_request`).
3. It nests the triples into an ISBN → library → flag dict (`_convert_db_items`).
4. It walks the reply and collects each (ISBN, library) pair that is now reported held and
   whose flag is still false. It also turns those flags to true (`_status_check`).
5. It writes the flags back (`update_db`) and mails the collected update when it is not empty.

The table is also maintained by `add_book`, `delete_book`, `add_library` and `delete_library`.

The project has three modules:

- `Wrappers` (`wrappers.dfy`): `Option`, `Result` and `Outcome`. Exceptions the Python code
  raises are modelled as values: `TypeError`, `KeyError` and `IndexError`.
- `Store` (`store.dfy`): the class `DbManager`. It holds the table as a field of type
  `map<LibraryId, map<Isbn, bool>>`. Its methods change that field the way the Python
  methods change the DynamoDB table. Each method is proved against a function of the old
  table: `Persisted`, `WithBook`, `WithoutBook` or `Registered`.
- `Alert` (`alert.dfy`): the request loop, the nesting, the diff, and the class
  `LibraryAlert` with `CheckArrival`.

The service is a parameter. `service(p, n)` is the reply to the n-th identical request
carrying payload `p`. A whole run is specified by the predicate `Reconciles`, which links
the table before the run, the outcome, the update, the mail sent and the table after it.
`CheckArrival` is proved to satisfy it.

DynamoDB scans and Python dicts are walked in an order the model does not fix. The methods
walk them with a nondeterministic choice (`:|`), so every proof holds for every order.

## Model

| member | source | states |
|---|---|---|
| Store.FlattenRecord | api/db_manager.py:19-31 | The triples emitted for one record: a (Library, None, None) triple exactly when its BookStatus is empty, then one triple per entry. The count is RecordCount, and none is repeated. |
| Store.DbManager.Scan | api/db_manager.py:16 | The scan returns every record of the table exactly once, with its current BookStatus. The single page the code reads is taken to be the whole table (see Left out). |
| Store.DbManager.GetDbContents | api/db_manager.py:15-32 | The contents are exactly the triples of the table, without repetition. Their number is the sum of the per-record counts of the scan. |
| Store.DbManager.UpdateDb | api/db_manager.py:34-42 | It succeeds iff every library named in the update has a record. On success the table becomes Persisted: each named (isbn, library) flag is set to true and nothing else changes. Otherwise it raises IndexError, and the writes already made stay. |
| Store.DbManager.AddBook | api/db_manager.py:44-49 | Every record gets isbn → false, also a record where the flag was true. No record is created or deleted. |
| Store.DbManager.DeleteBook | api/db_manager.py:51-56 | It succeeds iff every record holds the isbn, and then the isbn is removed from every record. Otherwise it raises KeyError, and the isbn is gone from exactly the records rewritten before the failing one. |
| Store.DbManager.AddLibrary | api/db_manager.py:58-64 | The new record (or the overwritten one) gets false for every ISBN of the first scanned record, and is empty when the table is empty. Nothing else changes. |
| Store.DbManager.DeleteLibrary | api/db_manager.py:66-67 | Only that library's record is removed. It is a no-op if there is none. |
| Store.ScanCovers | api/db_manager.py:16 | The libraries of a scan are exactly the table's libraries. |
| Store.StampedAll | api/db_manager.py:44-49 | Once every record has been rewritten, add_book's loop has produced WithBook. |
| Store.StrippedAll | api/db_manager.py:51-56 | Once every record has been rewritten, delete_book's loop has produced WithoutBook. |
| Store.WrittenIsPersisted | api/db_manager.py:35-42 | When the write loop finishes, every named library has a record and the table is Persisted. |
| Store.WrittenIsPartlyPersisted | api/db_manager.py:37-42 | At any point of the write loop, no record or key has been removed, and only named pairs have changed, each to true. |
| Store.PersistNothing | api/db_manager.py:34-42 | Writing an empty update leaves the table unchanged. |
| Store.PersistMonotone | api/db_manager.py:40-42 | Writing keeps every record and key, and never turns a true flag false. A flag that changes belongs to a pair of the update and becomes true. |
| Store.PersistSets | api/db_manager.py:40-42 | Every pair of the update whose library has a record reads true afterwards. |
| Store.PersistKeepsKeys | api/db_manager.py:41 | If the update names only tracked pairs, no record gains a key. |
| Store.DeleteUndoesAdd | api/db_manager.py:44-56 | Adding an ISBN no record holds, then deleting it, restores the table. |
| Store.AddedBookIsEverywhere | api/db_manager.py:44-49 | After add_book, every record holds the isbn with flag false, and the set of libraries is unchanged. |
| Store.DeleteUndoesRegister | api/db_manager.py:58-67 | Adding a new library, then deleting it, restores the table. |
| Store.SeedIsCorpus | api/db_manager.py:58-64 | When all records hold the same ISBNs, the new library gets exactly those ISBNs, all false. |
| Store.UniformWithBook | api/db_manager.py:44-49 | add_book keeps all records holding the same ISBNs. |
| Store.UniformWithoutBook | api/db_manager.py:51-56 | delete_book keeps all records holding the same ISBNs. |
| Store.UniformRegistered | api/db_manager.py:58-64 | add_library keeps all records holding the same ISBNs. |
| Store.UniformWithoutLibrary | api/db_manager.py:66-67 | delete_library keeps all records holding the same ISBNs. |
| Store.UniformPersisted | api/db_manager.py:34-42 | Writing an update of tracked pairs keeps all records holding the same ISBNs. |
| Store.FailedDeleteKeepsUniform | api/db_manager.py:51-56 | When all records hold the same ISBNs and delete_book raises, no record was changed before the raise. |
| Alert.Polled | api/library_alert.py:37-43 | The number of requests issued when the loop stops lies between the requests already issued and 20. |
| Alert.RequestCount | api/library_alert.py:37-43 | A run issues between 1 and 20 requests. |
| Alert.SendRequest | api/library_alert.py:25-44 | It raises TypeError iff some triple has a None ISBN. Otherwise it returns the reply to the last request of the polling loop. That request carries the sets of ISBN and Library values. |
| Alert.PolledSpec | api/library_alert.py:37-43 | Every reply before the last one said `continue == 1`. If fewer than 20 requests were issued, the last reply did not. |
| Alert.RequestCountSpec | api/library_alert.py:37-44 | The loop issues 1 to 20 requests. All replies but the last said continue, and the last did not unless the bound was reached. |
| Alert.RequestCountUnique | api/library_alert.py:37-43 | The request count is the only number with those properties. |
| Alert.PolledReaches | api/library_alert.py:37-43 | From any earlier point, the loop reaches that same count. |
| Alert.PollExtremes | api/library_alert.py:37-44 | If the first reply does not say continue, exactly one request is sent and its reply is returned. If every reply says continue, 20 requests are sent and the 20th reply is returned. |
| Alert.ConvertDbItems | api/library_alert.py:46-53 | The loop builds Nest, the setdefault/assign fold of the triples. |
| Alert.NestLastWins | api/library_alert.py:50-52 | For each (ISBN, Library), the dict holds the status of the last triple with that pair. |
| Alert.NestFromItems | api/library_alert.py:50-52 | Every entry of the dict comes from some triple carrying that pair and that status. |
| Alert.NestCovers | api/library_alert.py:50-52 | Every triple's (ISBN, Library) pair is an entry of the dict. |
| Alert.Appended | api/library_alert.py:62-63 | setdefault followed by append adds the hit at the end of the isbn's list, creating the list if needed. The other lists are unchanged. |
| Alert.StatusCheck | api/library_alert.py:55-65 | It raises KeyError iff some non-Error entry with a truthy libkey names a pair the dict lacks. Otherwise the update lists exactly the pairs reported held whose flag was falsy, each list non-empty and with no library twice, and the flags become Marked. |
| Alert.DiffComplete | api/library_alert.py:57-65 | When the walk over every ISBN and library of the reply ends, nothing raised, the update is a diff of the reply and the flags are Marked. |
| Alert.ErrorEntriesIgnored | api/library_alert.py:59-61 | An entry with status Error, or with a falsy libkey, never appears in the update. |
| Alert.HitIffNewly | api/library_alert.py:59-63 | A pair is in the update iff its entry is not Error, its libkey is truthy and its stored flag is falsy. |
| Alert.UpdateUpToOrder | api/library_alert.py:57-64 | Any two diffs of the same reply and dict have the same ISBNs and the same hits. They differ at most in order. |
| Alert.MarkedSpec | api/library_alert.py:64 | Marking keeps all keys and every True flag, sets every hit's flag to True, and changes no other flag. |
| Alert.MarkedHasNoNews | api/library_alert.py:61-64 | After marking, no pair is a transition. |
| Alert.SecondDiffEmpty | api/library_alert.py:55-65 | Diffing the same reply against the marked flags raises iff the first diff raised, and otherwise yields an empty update. |
| Alert.ViewEntry | api/library_alert.py:46-53 | The nested view of a table has an entry exactly for each triple get_db_contents emits, with that triple's status. |
| Alert.ContentsFields | api/library_alert.py:26-35 | For the table's contents, a None ISBN occurs iff some record is empty. The library field is the set of all libraries. The payload asks for every ISBN held by any record. |
| Alert.NestIsView | api/library_alert.py:46-53 | Nesting the table's contents, in any order, gives the table's view. |
| Alert.ViewTracked | api/library_alert.py:61 | The lookup at line 61 succeeds iff the library has a record holding the isbn, and then it reads that record's flag. |
| Alert.UpdateTargetsRecorded | api/library_alert.py:61-63 | Every hit of a successful diff names a record that holds the isbn, so the following update_db cannot raise. |
| Alert.PersistedIsMarkTable | api/library_alert.py:88-89 | Writing the diff sets to true exactly the tracked pairs the reply reports held. |
| Alert.ViewOfMarkTable | api/library_alert.py:85-88 | Read back, the marked table is the dict the diff marked. |
| Alert.UniformNeverFails | api/library_alert.py:61 | If every record holds the same ISBNs and the service answers only about what it was asked, the lookup never raises. |
| Alert.LibraryAlert.constructor | api/library_alert.py:19-23 | The job keeps the given table and application key. |
| Alert.LibraryAlert.CheckArrival | api/library_alert.py:84-92 | One run satisfies Reconciles: an empty record raises TypeError and an untracked held pair raises KeyError, in both cases writing and sending nothing. Otherwise the diff of the last reply is persisted and mailed iff it is non-empty. |
| Alert.ReconcileMonotone | api/library_alert.py:84-92 | A run keeps every record and key and never turns a true flag false, so the only flags it changes go from false to true. |
| Alert.ReconcileWritesHeld | api/library_alert.py:84-92 | A successful run writes exactly MarkTable: the tracked pairs the last reply reports held become true. |
| Alert.NotifyIffNews | api/library_alert.py:88-92 | A successful run sends mail iff some tracked pair with a false flag is reported held. The mail carries the update that was written. |
| Alert.ReconcileIdempotent | api/library_alert.py:84-92 | A second run against the same service after a successful one succeeds, finds nothing, sends nothing and leaves the table unchanged. |
| Alert.PersistedShape | api/library_alert.py:85-89 | After the write, the table asks the service the same question and reads back as the marked dict. |
| Alert.ExampleRun | api/library_alert.py:84-92 | LibA tracks 9780000000001 with flag false and the service reports it held at http://x. One run reports exactly that hit, stores true and mails the report. |

## Left out

- HTTP, DynamoDB and SMTP I/O are left out. The service is the parameter `service`, the table is the `table` field, and the mail is the returned `sent`.
- The five-second sleep between requests is left out.
- `_make_message` and `_send_email` are not modelled beyond the update the mail carries. The subject, headers and JSON text of the body are not modelled.
- `DbManager.__init__` is left out: it reads the table name from SSM and opens the DynamoDB table. The model's `DbManager` is the table itself.
- Alert.LibraryAlert.constructor: it keeps the table and the application key only. The mail address and password are used only by the mail, which is not modelled.
- `get_ssm_params`, `lambda_handler` and the `__main__` block are left out, because they only wire configuration to the job.
- The REST API (`api.py`) and the web app (`app.py`) are not part of this model.
- Alert.SendRequest: the payload holds the ISBN and library sets themselves. The comma-joined strings are not modelled, because their order comes from Python set iteration.
- Alert.SendRequest: replies are assumed to be well-formed. Missing `continue` or `books` keys, and non-JSON bodies, are not modelled.
- Alert.StatusCheck: the order of each update list is not stated, only its contents and that no library appears twice. The order follows the iteration order of the reply's dicts.
- Alert.StatusCheck: it returns the marked flags instead of mutating the caller's dict. check_arrival discards that dict anyway.
- Store.DbManager.UpdateDb: each `query` and `put_item` is a read and a write of the `table` field. So every read is taken to see all earlier writes (strong consistency). DynamoDB's `query` is eventually consistent by default, so two flips of the same library in one update could lose the first one. The model does not capture that, and `table == Persisted(...)` and Alert.ReconcileWritesHeld rely on it.
- Store.DbManager.UpdateDb: concurrent writers to the table are not modelled.
- Store.DbManager.Scan: `scan()["Items"]` returns one page of at most 1 MB, and the code never follows `LastEvaluatedKey`. The model takes that page to be the whole table, and the scan to be strongly consistent. GetDbContents, AddBook, DeleteBook and AddLibrary rely on this to cover every record.
- Store.DbManager.AddLibrary: "first record" means the first record of the scan. The scan order is the store's choice, so the contract names that record through the ghost result `first`.

Behaviours of the code to be aware of, each modelled as the code does it:

- add_book sets the flag to false in every record, overwriting a true flag. One might expect it to add the isbn only where it is missing.
- delete_book raises KeyError when a record lacks the isbn, rather than skipping that record. The records rewritten before it stay rewritten.
- The lookup in _status_check raises KeyError for a held book at an untracked pair, rather than skipping that pair.
- A record with an empty BookStatus yields a None ISBN, and the request then raises TypeError at the join.
- update_db writes every library of each update list. `library[0]` is the library id inside each [library, url] pair, not the first library of the list.
- add_library seeds the new record from the first scanned record, not from the union of all records. The Uniform lemmas show that the property "all records hold the same ISBNs" is kept by add_book, a successful delete_book, a failing delete_book (FailedDeleteKeepsUniform), add_library, delete_library, and an update_db whose pairs are all tracked (which is every update check_arrival writes, by UpdateTargetsRecorded). So while the table has that property, first-record seeding gives the new record the same ISBNs as the others.
