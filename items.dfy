/**
 * The item list behind the `/items` endpoints. The persisted state is the JSON
 * document `{"items": [...]}` in items.json, which does not exist until the
 * first item is saved. Here it is a `Document`: `None` while the file is
 * absent, `Some(items)` once it holds a list of records.
 */
module Items {
  import Images

  datatype Option<T> = None | Some(value: T)

  /** One record of the list. Datatype equality compares all three fields, as dict equality does. */
  datatype Item = Item(name: string, category: string, imageName: string)

  /** The items file: `None` while it does not exist, otherwise its "items" list. */
  type Document = Option<seq<Item>>

  /**
   * The exceptions the endpoints raise: a missing file and an index out of
   * range on the read paths, and the TypeError of the existence test as written.
   */
  datatype Error = FileMissing | IndexError | TypeError

  datatype Result<T> = Ok(value: T) | Err(error: Error)

  /** The reply of the single-item endpoint; `NotFound` is the `{"message": "item not found"}` body. */
  datatype Lookup = Found(item: Item) | NotFound | Failed(error: Error)

  /** The records in the document, none when the file is absent. */
  function Listed(doc: Document): seq<Item> {
    if doc.Some? then doc.value else []
  }

  predicate NoDuplicates(s: seq<Item>) {
    forall i, j :: 0 <= i < j < |s| ==> s[i] != s[j]
  }

  // ---------------------------------------------------------------------------
  // Saving a record
  // ---------------------------------------------------------------------------

  /**
   * The existence test of the save path as written, `items_file.exists(items_file)`:
   * `Path.exists` takes no positional argument besides the path itself, so the
   * call raises TypeError whether or not the file exists.
   */
  function FileExistsAsWritten(doc: Document): Result<bool> {
    Err(TypeError)
  }

  /**
   * `save_items_in_file` as written: the existence test comes first, so its
   * exception ends the call before the file is read or written.
   */
  function SaveAsWritten(doc: Document, item: Item): Result<seq<Item>> {
    match FileExistsAsWritten(doc)
    case Err(e) => Err(e)
    case Ok(_) => Ok(Saved(doc, item))
  }

  /**
   * A series of POST /items requests as written: a request whose save raises
   * leaves the file as it was.
   */
  function SaveAllAsWritten(doc: Document, subs: seq<Item>): Document
    decreases |subs|
  {
    if subs == [] then doc
    else
      var next := match SaveAsWritten(doc, subs[0])
                  case Ok(items) => Some(items)
                  case Err(_) => doc;
      SaveAllAsWritten(next, subs[1..])
  }

  /**
   * As written, no series of POST /items requests changes the file: starting
   * from no file, GET /items still fails for want of one, where the intended
   * save leaves a list holding the submissions.
   */
  lemma {:induction false} AsWrittenNoRequestIsSaved(doc: Document, subs: seq<Item>)
    ensures SaveAllAsWritten(doc, subs) == doc
    ensures doc.None? ==> GetItems(SaveAllAsWritten(doc, subs)) == Err(FileMissing)
    ensures doc.None? && subs != [] ==> GetItems(SaveAll(doc, subs)).Ok?
    decreases |subs|
  {
    if subs != [] {
      assert SaveAsWritten(doc, subs[0]) == Err(TypeError);
      AsWrittenNoRequestIsSaved(doc, subs[1..]);
    }
  }

  /**
   * The list written back after saving `item` into `doc`: the earlier records
   * keep their positions, `item` is present, and the list grows by one exactly
   * when an equal record was not there before.
   */
  function Saved(doc: Document, item: Item): (r: seq<Item>)
    ensures Listed(doc) <= r
    ensures item in r
    ensures |r| == |Listed(doc)| + (if item in Listed(doc) then 0 else 1)
  {
    match doc
    case None => [item]
    case Some(items) => if item in items then items else items + [item]
  }

  /** With no items file, the first save yields exactly the one record. */
  lemma FirstSaveCreatesSingleton(item: Item)
    ensures Saved(None, item) == [item]
  {
  }

  /** Saving a record equal, field by field, to one already stored changes nothing. */
  lemma SavingPresentRecordIsNoOp(items: seq<Item>, item: Item)
    requires item in items
    ensures Saved(Some(items), item) == items
  {
  }

  /** Saving a record not yet stored appends it and leaves every earlier record in place. */
  lemma SavingNewRecordAppends(items: seq<Item>, item: Item)
    requires item !in items
    ensures Saved(Some(items), item) == items + [item]
  {
  }

  /** Saving the same record twice leaves the same list as saving it once. */
  lemma SaveIsIdempotent(doc: Document, item: Item)
    ensures Saved(Some(Saved(doc, item)), item) == Saved(doc, item)
  {
  }

  /** Deduplication is on the whole record: a second record with the same name but another category is kept. */
  lemma SameNameOtherCategoryIsKept()
    ensures var shirt := Item("shirt", "clothes", "a.jpg");
            var other := Item("shirt", "shoes", "b.jpg");
            Saved(Some(Saved(None, shirt)), other) == [shirt, other]
  {
  }

  /** A list without repeated records keeps that property under a save. */
  lemma SaveKeepsNoDuplicates(doc: Document, item: Item)
    requires NoDuplicates(Listed(doc))
    ensures NoDuplicates(Saved(doc, item))
  {
  }

  // ---------------------------------------------------------------------------
  // A series of saves, one per POST /items request, one request at a time
  // ---------------------------------------------------------------------------

  /** The document after saving each of `subs` in turn, starting from `doc`. */
  function SaveAll(doc: Document, subs: seq<Item>): (r: Document)
    ensures doc.Some? || subs != [] ==> r.Some?
    ensures Listed(doc) <= Listed(r)
    ensures forall x :: x in subs ==> x in Listed(r)
    ensures forall x :: x in Listed(r) ==> x in Listed(doc) || x in subs
    decreases |subs|
  {
    if subs == [] then doc
    else
      SaveAll(Some(Saved(doc, subs[0])), subs[1..])
  }

  /** Saves of records that are all already stored change nothing. */
  lemma {:induction false} SavingStoredRecordsIsNoOp(items: seq<Item>, subs: seq<Item>)
    requires forall x :: x in subs ==> x in items
    ensures SaveAll(Some(items), subs) == Some(items)
    decreases |subs|
  {
    if subs != [] {
      assert subs[0] in items;
      assert Saved(Some(items), subs[0]) == items;
      assert forall x :: x in subs[1..] ==> x in subs;
      SavingStoredRecordsIsNoOp(items, subs[1..]);
    }
  }

  /** Replaying a series of submissions a second time leaves the document as the first replay did. */
  lemma ReplayIsIdempotent(doc: Document, subs: seq<Item>)
    ensures SaveAll(SaveAll(doc, subs), subs) == SaveAll(doc, subs)
  {
    var r := SaveAll(doc, subs);
    if r.Some? {
      SavingStoredRecordsIsNoOp(r.value, subs);
    }
  }

  /** A series of saves never stores the same record twice. */
  lemma {:induction false} SaveAllKeepsNoDuplicates(doc: Document, subs: seq<Item>)
    requires NoDuplicates(Listed(doc))
    ensures NoDuplicates(Listed(SaveAll(doc, subs)))
    decreases |subs|
  {
    if subs != [] {
      SaveKeepsNoDuplicates(doc, subs[0]);
      SaveAllKeepsNoDuplicates(Some(Saved(doc, subs[0])), subs[1..]);
    }
  }

  /**
   * Records that are new and pairwise distinct are appended in arrival order:
   * the k-th of them lands right after the records already stored.
   */
  lemma {:induction false} SaveAllAppendsNewInOrder(doc: Document, subs: seq<Item>)
    requires AllNew(Listed(doc), subs)
    ensures Listed(SaveAll(doc, subs)) == Listed(doc) + subs
    decreases |subs|
  {
    if subs != [] {
      var stored := Listed(doc) + [subs[0]];
      assert Saved(doc, subs[0]) == stored;
      assert SaveAll(doc, subs) == SaveAll(Some(stored), subs[1..]);
      NewRecordsStayNew(Listed(doc), subs);
      SaveAllAppendsNewInOrder(Some(stored), subs[1..]);
      ConcatFirstRest(Listed(doc), subs);
    }
  }

  lemma ConcatFirstRest(items: seq<Item>, subs: seq<Item>)
    requires subs != []
    ensures items + [subs[0]] + subs[1..] == items + subs
  {
    assert [subs[0]] + subs[1..] == subs;
  }

  /** Each of `subs` is absent from `items` and from the submissions before it. */
  predicate AllNew(items: seq<Item>, subs: seq<Item>) {
    forall i :: 0 <= i < |subs| ==> subs[i] !in items && subs[i] !in subs[..i]
  }

  /** After the first of a series of new, distinct records is appended, the rest are still new and distinct. */
  lemma NewRecordsStayNew(items: seq<Item>, subs: seq<Item>)
    requires subs != [] && AllNew(items, subs)
    ensures AllNew(items + [subs[0]], subs[1..])
  {
    forall i | 0 <= i < |subs| - 1
      ensures subs[1..][i] !in items + [subs[0]] && subs[1..][i] !in subs[1..][..i]
    {
      assert subs[1..][i] == subs[i + 1];
      assert subs[..i + 1] == [subs[0]] + subs[1..][..i];
    }
  }

  /**
   * From no file, distinct submissions are stored in arrival order, so the k-th
   * submission has id k.
   */
  lemma DistinctSubmissionsGetConsecutiveIds(subs: seq<Item>, k: int)
    requires NoDuplicates(subs) && 1 <= k <= |subs|
    ensures SaveAll(None, subs) == Some(subs)
    ensures GetItemsItem(SaveAll(None, subs), k) == Found(subs[k - 1])
  {
    assert AllNew(Listed(None), subs);
    SaveAllAppendsNewInOrder(None, subs);
    var r := SaveAll(None, subs);
    assert Listed(None) + subs == subs;
    assert r.Some? && r.value == Listed(r);
  }

  /**
   * Starting with no items file, a non-empty series of submissions yields a file
   * that holds each distinct submitted record exactly once and nothing else.
   */
  lemma ReplayFromNoFile(subs: seq<Item>)
    requires subs != []
    ensures var r := SaveAll(None, subs);
            r.Some? && NoDuplicates(r.value) && (forall x :: x in r.value <==> x in subs)
  {
    SaveAllKeepsNoDuplicates(None, subs);
  }

  // ---------------------------------------------------------------------------
  // The file as a mutable object, and the POST /items endpoint
  // ---------------------------------------------------------------------------

  class ItemsFile {
    /** The contents of items.json, `None` while the file does not exist. */
    var document: Document

    constructor (initial: Document)
      ensures document == initial
    {
      document := initial;
    }

    /**
     * Saves one record: creates the file holding just that record, or appends it
     * to the stored list unless an equal record is already there.
     */
    method SaveItemsInFile(name: string, category: string, imageName: string)
      modifies this
      ensures document == Some(Saved(old(document), Item(name, category, imageName)))
      ensures old(document).Some? && Item(name, category, imageName) in old(document).value
              ==> document == old(document)
    {
      var newItem := Item(name, category, imageName);
      match document {
        case Some(currentData) =>
          if newItem in currentData {
            return;
          }
          document := Some(currentData + [newItem]);
        case None =>
          document := Some([newItem]);
      }
    }

    /**
     * The POST /items handler: derives the stored image name from the uploaded
     * file's name, saves the record and returns the acknowledgement message.
     */
    method AddItem(name: string, category: string, fileName: string, sha256: string -> Images.HexDigest)
      returns (message: string)
      modifies this
      ensures document == Some(Saved(old(document), Item(name, category, Images.GetHash(sha256, fileName))))
      ensures message == "item received: " + name
    {
      var hashedImage := Images.GetHash(sha256, fileName);
      SaveItemsInFile(name, category, hashedImage);
      message := "item received: " + name;
    }
  }

  // ---------------------------------------------------------------------------
  // Reading: GET /items and GET /items/{item_id}
  // ---------------------------------------------------------------------------

  /** GET /items: the stored list unchanged, or the error of opening a missing file. */
  function GetItems(doc: Document): (r: Result<seq<Item>>)
    ensures r.Ok? <==> doc.Some?
    ensures r.Ok? ==> r.value == doc.value
    ensures r.Err? ==> r.error == FileMissing
  {
    match doc
    case None => Err(FileMissing)
    case Some(items) => Ok(items)
  }

  /** Python's `s[i]`: a negative index counts from the end. */
  function PyIndex(s: seq<Item>, i: int): Lookup {
    if 0 <= i < |s| then Found(s[i])
    else if -|s| <= i < 0 then Found(s[|s| + i])
    else Failed(IndexError)
  }

  /**
   * GET /items/{item_id} as written: ids 1 to the list length pick that
   * position, ids below 0 or beyond the length give the not-found reply, and
   * id 0 slips through the check and reads index -1.
   */
  function GetItemsItem(doc: Document, itemId: int): (r: Lookup)
    ensures doc.None? ==> r == Failed(FileMissing)
    ensures doc.Some? && 1 <= itemId <= |doc.value| ==> r == Found(doc.value[itemId - 1])
    ensures doc.Some? && (itemId < 0 || itemId > |doc.value|) ==> r == NotFound
    ensures doc.Some? && itemId == 0 && doc.value != [] ==> r == Found(doc.value[|doc.value| - 1])
    ensures doc.Some? && itemId == 0 && doc.value == [] ==> r == Failed(IndexError)
  {
    match doc
    case None => Failed(FileMissing)
    case Some(items) =>
      if itemId < 0 || itemId > |items| then NotFound
      else PyIndex(items, itemId - 1)
  }

  /** Id 0 returns the last record of a non-empty list instead of the not-found reply. */
  lemma IdZeroReturnsLastItem()
    ensures var a := Item("shirt", "clothes", "a.jpg");
            var b := Item("pants", "clothes", "b.jpg");
            GetItemsItem(Some([a, b]), 0) == Found(b) &&
            GetItemsItemIntended(Some([a, b]), 0) == NotFound
  {
  }

  /** Id 0 on an empty list is an index error instead of the not-found reply. */
  lemma IdZeroOnEmptyListFails()
    ensures GetItemsItem(Some([]), 0) == Failed(IndexError)
    ensures GetItemsItemIntended(Some([]), 0) == NotFound
  {
  }

  /** What id 0 returns as written changes with every new record, so it names no stable item. */
  lemma IdZeroIsNotStable()
    ensures var a := Item("shirt", "clothes", "a.jpg");
            var b := Item("pants", "clothes", "b.jpg");
            GetItemsItem(Some([a]), 0) != GetItemsItem(Some(Saved(Some([a]), b)), 0)
  {
  }

  /**
   * GET /items/{item_id} with the evidently intended check `item_id < 1`: a
   * record is found exactly for the 1-based positions of the list, and no id
   * raises an index error.
   */
  function GetItemsItemIntended(doc: Document, itemId: int): (r: Lookup)
    ensures r.Found? <==> doc.Some? && 1 <= itemId <= |doc.value|
    ensures r.Found? ==> r.item == doc.value[itemId - 1]
    ensures !r.Found? ==> r == (if doc.None? then Failed(FileMissing) else NotFound)
  {
    match doc
    case None => Failed(FileMissing)
    case Some(items) =>
      if itemId < 1 || itemId > |items| then NotFound
      else PyIndex(items, itemId - 1)
  }

  /** The code as written and the intended check differ on id 0 only. */
  lemma AsWrittenDiffersOnlyAtZero(doc: Document, itemId: int)
    requires itemId != 0
    ensures GetItemsItem(doc, itemId) == GetItemsItemIntended(doc, itemId)
  {
  }

  /** The single-item endpoint agrees with the list endpoint at every 1-based position. */
  lemma LookupAgreesWithList(doc: Document, itemId: int)
    requires GetItems(doc).Ok? && 1 <= itemId <= |GetItems(doc).value|
    ensures GetItemsItemIntended(doc, itemId) == Found(GetItems(doc).value[itemId - 1])
    ensures GetItemsItem(doc, itemId) == Found(GetItems(doc).value[itemId - 1])
  {
  }

  /** After exactly one save into a missing file, id 1 returns that record. */
  lemma FirstRecordHasIdOne(item: Item)
    ensures GetItemsItemIntended(Some(Saved(None, item)), 1) == Found(item)
    ensures GetItemsItemIntended(Some(Saved(None, item)), 2) == NotFound
    ensures GetItemsItem(Some(Saved(None, item)), 1) == Found(item)
    ensures GetItemsItem(Some(Saved(None, item)), 2) == NotFound
  {
  }

  /**
   * Ids from 1 up are stable: a record found at such an id, by the lookup as
   * written or the intended one, is found there after any later series of saves.
   * Id 0 as written is not (see IdZeroIsNotStable).
   */
  lemma IdsAreStable(doc: Document, subs: seq<Item>, itemId: int)
    requires itemId >= 1 && GetItemsItem(doc, itemId).Found?
    ensures GetItemsItem(SaveAll(doc, subs), itemId) == GetItemsItem(doc, itemId)
    ensures GetItemsItemIntended(SaveAll(doc, subs), itemId) == GetItemsItemIntended(doc, itemId)
  {
  }
}
