# Word translation store

A model of the word table behind the translation server in `servDB.py`. The
server keeps a table `words` of rows `(id, word, translation)`. In the schema,
`id` is the primary key and `word` is unique. The server exposes three
handlers:

- `add_word` refuses a word that is already stored. Otherwise it stores the
  word with the placeholder translation `word + "_translated"` under an id
  that the database picks, and returns the stored row.
- `list_words` returns every stored row.
- `delete_word` refuses an id that no row has. Otherwise it removes that row
  and answers `"Word deleted."`.

The `id` column is a 64-bit signed integer. A request the database layer
cannot serve raises an error that the handlers do not catch. One such request
is a delete with an id outside the 64-bit range, which cannot be bound to the
query. Another is an insert when no 64-bit id is left. The model gives these
requests the outcome `Fault`.

The model has two modules:

- `Words` (`words.dfy`) works on values. A row is the datatype `Word`, and the
  table is a `seq<Word>` in storage order. This module defines the
  translation, the two uniqueness constraints and the two lookups that the
  handlers run before they write (`.filter(...).first()`, written as
  recursive functions). It also proves lemmas about inserting a row and
  removing one.
- `WordServer` (`word_store.dfy`) holds the class `WordStore`. Its field
  `rows` is the table, and its methods are the handlers, each run as one
  atomic step. The two refusals are `Result` values. They carry the server's
  exact detail messages, "Word already exists." and "Word not found.". A
  successful delete returns "Word deleted.". An error the handlers do not
  catch is the third outcome, `Fault`.

The class invariant `Valid()` states four things:

- No two rows share an id.
- No two rows share a word.
- Every translation is the one computed from its word.
- Every id fits the 64-bit column.

The constructor establishes the invariant on the empty table, and both
mutating handlers preserve it.

The id of a new row is any 64-bit id that no live row uses (`var id :|
IsInt64(id) && IdFree(rows, id)`). A counting argument proves that such an id
exists while the table holds fewer rows than there are 64-bit ids. The code
leaves the choice to the database's row-id policy, which is not part of this
model. So the model promises neither increasing ids nor that a deleted id is
never used again. Ids are often assumed never to be reused, but the code does
not enforce it, and the model follows the code. Likewise, the code accepts any
string as a word, including the empty one, so `AddWord` has no precondition
on the word.

`WordServer.DeleteThenReAdd` is a client method. It shows, for any stored
row, that deleting it and then adding its word again both succeed.
`WordServer.Scenario` is a client scenario. It adds "hello" twice, lists the
table, deletes the row twice, and adds "hello" again. It proves each
answer, including the exact messages.

## Model

| member | source | states |
|---|---|---|
| `Words.Translate` | servDB.py:40 | the translation is the word itself followed by the marker `"_translated"` |
| `Words.TranslateInjective` | servDB.py:40 | two words get the same placeholder translation exactly when they are the same word |
| `Words.UniqueTranslations` | servDB.py:18-19 | in a valid table no two rows share a translation, because the translation column follows from the unique word column |
| `Words.FindByWord` | servDB.py:34 | the lookup finds nothing exactly when no row holds the word; otherwise it gives the first row whose word equals the input exactly |
| `Words.FindById` | servDB.py:59 | the lookup finds nothing exactly when no row has the id; otherwise it gives the first row with that id |
| `Words.FindByWordUnique` | servDB.py:18 | under the unique constraint on `word`, the row the lookup finds is the only row holding the word |
| `Words.FindByIdUnique` | servDB.py:17 | under the primary-key constraint, the row the lookup finds is the only row with the id |
| `Words.FullTableHasAllRows` | servDB.py:17 | a table in which every 64-bit id is in use holds at least 2^64 rows |
| `Words.FullTableUsesEveryId` | servDB.py:17 | a table with unique 64-bit ids and 2^64 rows uses every 64-bit id, so no insert can get an id |
| `Words.FreshIdExists` | servDB.py:17 | while the table holds fewer than 2^64 rows, some 64-bit id is unused, so the database can assign a fresh primary key |
| `Words.InsertKeepsValid` | servDB.py:42-44 | inserting a translated row whose word is absent and whose id is unused keeps unique ids, unique words and correct translations |
| `Words.RemoveKeepsValid` | servDB.py:63-64 | removing any one row keeps unique ids, unique words and correct translations |
| `Words.RemoveAtRecords` | servDB.py:63 | removing the row at a position removes exactly the record with that row's id and keeps every other record |
| `Words.RemoveFreesWord` | servDB.py:63-64 | after the row holding a word is removed, no row holds that word, so the duplicate check of a later add finds nothing |
| `Words.RemoveFreesId` | servDB.py:63-64 | after the row with an id is removed, no row has that id, so a second delete of it finds nothing |
| `WordServer.Failure.Detail` | servDB.py:37 | the detail of a refused add is "Word already exists." and the detail of a refused delete is "Word not found." (servDB.py:62) |
| `WordServer.DetailsDistinct` | servDB.py:37-66 | the three detail messages "Word already exists.", "Word not found." and "Word deleted." are pairwise different, so a client tells the outcomes apart by the message alone |
| `WordServer.WordStore.constructor` | servDB.py:21 | on a fresh database file the table starts empty and satisfies the invariant |
| `WordServer.WordStore.AddWord` | servDB.py:32-47 | the add fails with "Word already exists." exactly when a live row holds the word, and then the table is unchanged; it faults, leaving the table unchanged, exactly when the word is new but every 64-bit id is in use; otherwise the table gains exactly one row whose word is the input, whose translation is `word + "_translated"` and whose 64-bit id no earlier row uses, and that row is returned; the invariant is kept |
| `WordServer.WordStore.ListWords` | servDB.py:50-54 | the listing holds every live row exactly once, in no promised order, with no two listed rows sharing an id or a word; it does not change the table |
| `WordServer.DeleteThenReAdd` | servDB.py:32-66 | after the row holding a word is deleted, which succeeds with "Word deleted.", adding the same word again succeeds, because the duplicate check sees only live rows |
| `WordServer.WordStore.DeleteWord` | servDB.py:57-66 | the delete faults, leaving the table unchanged, exactly when the id does not fit the 64-bit column; it fails with "Word not found." exactly when the id fits but no row has it, and then the table is unchanged; otherwise it answers "Word deleted.", removes exactly the row with that id and keeps every other row in order; the invariant is kept |

## Left out

- The web layer is not modelled: routing, decorators, request-body validation and HTTP status codes (400, 404). The two refusals are result values that carry only their detail messages.
- The database engine, sessions and `commit`/`refresh`/`close` are not modelled. They are calls into a library and resource handling; the table is a field of the class.
- WordServer.WordStore.constructor: models the first start on a fresh database file, where table creation gives an empty table. After a restart, table creation keeps the existing table, so the server resumes from the stored rows. The model does not represent that; every handler assumes only the invariant, so it holds for any valid starting table.
- The SQLite file and its connection settings are not modelled. They are I/O and deployment configuration.
- Concurrency is not modelled: each handler is one atomic step. Two concurrent adds of the same word can both pass the duplicate check, and this model does not capture that race.
- WordServer.WordStore.AddWord: does not model the database's concrete id policy. A new id is only known to fit the 64-bit column and to be unused by the live rows. The model makes no claim that ids are positive, that they increase, or that they are never reused. The database may also report a full table before literally every id is used; the model faults only when every 64-bit id is in use.
- WordServer.WordStore.DeleteWord: models an out-of-range id as `Fault`, without the kind of error or the response the server sends for it.
- The order of `list_words` is not modelled. The query has no ordering, so `ListWords` promises the same multiset of rows, not an order.
