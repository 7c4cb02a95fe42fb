# Item list of the mercari build-training API (Python)

This project models the logic of the FastAPI service in `python/main.py`:

- the items file `items.json`, holding the document `{"items": [...]}` of records
  `{name, category, image_name}`; it is absent until the first item is saved;
- saving a record (`save_items_in_file`): the first save creates the file with
  just that record, later saves append the record unless a record equal in all
  three fields is already stored;
- the POST /items handler (`add_item`), which names the uploaded image by
  `get_hash` of its original file name before saving the record;
- GET /items (`get_items`), which returns the stored document, and
  GET /items/{item_id} (`get_items_item`), a 1-based lookup with the source's
  own bounds check;
- `get_hash`: SHA-256 of the original file name in lower-case hex, plus `.jpg`;
- the decision made by GET /image/{image_name} (`get_image`): a name not ending
  in `.jpg` is refused with status 400, otherwise the requested image is served
  when it is in the image directory and `default.jpg` when it is not.

Module `Items` (items.dfy) holds the records, the document (`Option<seq<Item>>`,
`None` while the file is absent), the class `ItemsFile` whose method
`SaveItemsInFile` reads the document, appends and writes it back into the same
field (a new sequence value, not a mutable list), the
specification function `Saved` it is proved against, `SaveAll` for a series of
requests, and the two read endpoints as functions of the document. Module
`Images` (images.dfy) holds the image naming and the image endpoint's choice.
The SHA-256 digest is a parameter of type `string -> HexDigest`, where
`HexDigest` is a string of 64 lower-case hexadecimal digits; the image
directory is a parameter of type `set<string>` (the names it contains).

What the code does, which the model follows: `python/main.py` keeps the items
in one JSON list, has no category table, and deduplicates by the whole record,
so the same name with another category or image is stored as a second item
(`SameNameOtherCategoryIsKept`). Its single-item lookup lets id 0 through its
bounds check (see Findings).

## Model

| member | source | states |
|---|---|---|
| `Images.GetHash` | python/main.py:76-78 | the stored image name is the 64-digit lower-case hex digest of the original file name followed by `.jpg`, 68 characters, so it always ends in `.jpg` |
| `Images.SameStoredNameIffSameDigest` | python/main.py:76-78 | two original file names get the same stored image name exactly when their digests are equal, so two uploads under one file name share one stored image |
| `Images.GetImage` | python/main.py:99-111 | status 400 with the detail "Image path does not end with .jpg" exactly when the name does not end in `.jpg`; otherwise the requested name is served when it is stored and `default.jpg` when it is not, and a served name always ends in `.jpg` |
| `Images.StoredNamesAreNeverRejected` | python/main.py:42-43 | every image name produced on upload passes the image endpoint's `.jpg` check |
| `Images.UploadedImageIsServed` | python/main.py:104-111 | once an image is stored under its derived name, requesting that name serves it rather than the default |
| `Items.Saved` | python/main.py:51-65 | after a save the earlier records keep their positions, the new record is present, and the list grows by one exactly when no equal record was stored |
| `Items.FirstSaveCreatesSingleton` | python/main.py:62-65 | with no items file, saving yields a list holding exactly the new record |
| `Items.SavingPresentRecordIsNoOp` | python/main.py:52-57 | saving a record equal in name, category and image name to a stored one leaves the list unchanged |
| `Items.SavingNewRecordAppends` | python/main.py:58-61 | saving a record not yet stored appends it at the end of the existing list |
| `Items.SaveIsIdempotent` | python/main.py:56-59 | saving the same record twice gives the same list as saving it once |
| `Items.SameNameOtherCategoryIsKept` | python/main.py:52-56 | deduplication compares the whole record: "shirt" in "clothes" then "shirt" in "shoes" stores both |
| `Items.SaveKeepsNoDuplicates` | python/main.py:56-61 | a list without repeated records has none after a save |
| `Items.SaveAll` | python/main.py:45 | after a series of saves the earlier list is a prefix of the result, every submitted record is stored, and nothing else is added |
| `Items.SaveAllAppendsNewInOrder` | python/main.py:58-61 | records that are new and pairwise distinct are appended after the stored list in arrival order |
| `Items.DistinctSubmissionsGetConsecutiveIds` | python/main.py:59-65 | from no file, distinct submissions are stored exactly in arrival order, so the k-th one is returned by id k |
| `Items.SavingStoredRecordsIsNoOp` | python/main.py:56-57 | any series of submissions of records already stored leaves the document unchanged |
| `Items.ReplayIsIdempotent` | python/main.py:56-59 | repeating a whole series of submissions leaves the document as the first pass did |
| `Items.SaveAllKeepsNoDuplicates` | python/main.py:56-61 | a series of saves never stores the same record twice |
| `Items.ReplayFromNoFile` | python/main.py:51-65 | from no file, a non-empty series of submissions yields each distinct submitted record exactly once and nothing else |
| `Items.ItemsFile.SaveItemsInFile` | python/main.py:51-65 | the document afterwards is the old list saved with the new record (file created if absent), and it is unchanged when an equal record was stored |
| `Items.ItemsFile.AddItem` | python/main.py:36-48 | the record saved carries the image name derived from the uploaded file name, and the reply is `item received: <name>` |
| `Items.GetItems` | python/main.py:83-86 | returns the stored list unchanged; a missing file is an error |
| `Items.GetItemsItem` | python/main.py:91-96 | as written: ids 1 to the length return that 1-based position, ids below 0 or above the length give the not-found reply, id 0 returns the last record or an index error on an empty list, and a missing file is an error |
| `Items.IdZeroReturnsLastItem` | python/main.py:94-96 | as written, id 0 on a two-record list returns the second record where the intended check returns not found |
| `Items.IdZeroOnEmptyListFails` | python/main.py:94-96 | as written, id 0 on an empty list is an index error where the intended check returns not found |
| `Items.IdZeroIsNotStable` | python/main.py:94-96 | as written, what id 0 returns changes when a record is added |
| `Items.GetItemsItemIntended` | python/main.py:94-96 | with the check `item_id < 1`: a record is found exactly at the 1-based positions of the list, it is the record at that position, and every other id gives not found (or the missing-file error) |
| `Items.AsWrittenDiffersOnlyAtZero` | python/main.py:94-96 | the lookup as written and the intended lookup agree on every id except 0 |
| `Items.LookupAgreesWithList` | python/main.py:83-96 | the single-item reply at a 1-based position is the record the list endpoint shows there |
| `Items.FirstRecordHasIdOne` | python/main.py:62-65 | after exactly one save into a missing file, id 1 returns that record and id 2 is not found, by the lookup as written and by the intended one |
| `Items.IdsAreStable` | python/main.py:59-61 | a record found at an id of 1 or more, by the lookup as written or the intended one, is found at the same id after any later series of saves, since saves only append; as written, id 0 is not stable (`IdZeroIsNotStable`) |
| `Items.AsWrittenNoRequestIsSaved` | python/main.py:51-53 | as written, the existence test raises before the file is touched, so no series of POST /items requests changes the file; from no file, GET /items keeps failing with the missing file, where the intended save leaves a readable list |

## Findings

| source | as written | input that shows it | evidently intended | confidence | as-written member | corrected member |
|---|---|---|---|---|---|---|
| python/main.py:53 | `items_file.exists(items_file)` passes the path a second time as a positional argument, which `Path.exists` does not accept | any POST /items, with or without an items file, raises TypeError before anything is saved | test whether items.json exists, `items_file.exists()` | high, not executed | `Items.SaveAllAsWritten`, `Items.AsWrittenNoRequestIsSaved` | `Items.ItemsFile.SaveItemsInFile` |
| python/main.py:94 | `item_id < 0 or item_id > len(...)` lets `item_id == 0` through, which then reads `items[-1]` | `item_id = 0`: on `[a, b]` returns `b`; on `[]` raises IndexError | `item_id < 1` is not found, as for every other id outside 1 to the length | high, not executed | `Items.GetItemsItem`, `Items.IdZeroReturnsLastItem` | `Items.GetItemsItemIntended` |

## Left out

- HTTP routing, form and upload decoding, CORS, logging and the root endpoint (python/main.py:8-40): transport only.
- Reading and writing JSON (`open`, `json.load`, `json.dump`): the file is the `Document` value; JSON round-trips of these string records are taken as exact.
- The existence test at python/main.py:53 raises TypeError as written (see Findings); the save path `SaveItemsInFile` takes the intended "does the file exist?" branch.
- Items.SaveAll: requests are modelled one at a time. `add_item` is a plain handler that FastAPI runs on a thread pool, and the read, append and rewrite of python/main.py:54-61 holds no lock, so two overlapping saves can both read the old list and the later write drops the other's record (a lost update), and a read that lands after `open(items_file, 'w')` has truncated the file sees an incomplete document. Neither case is modelled.
- `save_image` and the image bytes (python/main.py:68-73), and the serving of the chosen file by `FileResponse`: file I/O. The image directory is a set of names, and `GetImage` only returns the name to serve.
- SHA-256 itself (`hashlib`, python/main.py:77): a foreign library; it is a parameter and only its output shape (64 lower-case hex digits) is assumed. UTF-8 encoding of the file name is folded into that parameter.
- Images.GetImage: does not model what happens when `default.jpg` itself is missing, which fails inside `FileResponse`.
- Request validation of `item_id` as an integer (an HTTP 422 for other input): transport.
- The unused `requests` import: no behaviour.
