/** The request handlers of src/app/api/productcategoryapi/route.ts over the category
    collection: `POST` (spreadsheet import or JSON create), `PUT` and `DELETE`. Each
    handler is a function from the collection, the request body and the identifier
    counter to the response, the new collection and the new counter. */
module CategoryRoute {
  import opened Common
  import opened Ids
  import opened CategoryModel
  import opened CategoryImport

  /** The responses the handlers send, by status. */
  datatype Response =
    | Created(category: Category)              // 201, the new record
    | CreatedBatch(categories: seq<Category>)  // 201, the imported records
    | Updated(category: Category)              // 200, the record after the update
    | Deleted(category: Category)              // 200, { message, deleted }
    | BadRequest(error: string)                // 400
    | NotFound(error: string)                  // 404
    | ServerError(error: string)               // 500, any exception caught by the handler

  function Status(r: Response): (code: int)
    ensures code in {200, 201, 400, 404, 500}
  {
    match r
    case Created(_) => 201
    case CreatedBatch(_) => 201
    case Updated(_) => 200
    case Deleted(_) => 200
    case BadRequest(_) => 400
    case NotFound(_) => 404
    case ServerError(_) => 500
  }

  const NoFileUploaded := "No file uploaded"
  const NameRequired := "Category name is required"
  const IdRequired := "Category ID is required"
  const CategoryNotFound := "Category not found"
  const CreateFailed := "Failed to create category"
  const UpdateFailed := "Failed to update category"

  /** What a handler returns: the response, the collection afterwards, the counter afterwards. */
  datatype Outcome = Outcome(response: Response, store: seq<Category>, next: nat)

  /** A `subcategories` field of a request body: absent (or falsy), a value that
      is truthy but not an array, or an array of objects. */
  datatype ListField = Missing | NotAList | Items(items: seq<SubcategoryInput>)

  /** No identifier of the collection is one the counter would issue from `next` on:
      the freshness `uuidv4()` is relied on for. */
  predicate IdsBefore(store: seq<Category>, next: nat) {
    forall k :: 0 <= k < |store| ==> SerialOf(store[k].id).None? || SerialOf(store[k].id).value < next
  }

  /** Under `IdsBefore`, no stored identifier is one the counter issues from `next` on,
      and the empty collection satisfies it for every counter value. */
  lemma IdsBeforeExcludesFutureIds(store: seq<Category>, next: nat)
    ensures IdsBefore(store, next) ==> forall n: nat, k :: next <= n && 0 <= k < |store| ==> store[k].id != FreshId(n)
    ensures IdsBefore([], next)
  {
    if IdsBefore(store, next) {
      forall n: nat, k | next <= n && 0 <= k < |store| ensures store[k].id != FreshId(n) {
        SerialOfFreshId(n);
      }
    }
  }

  // ---------------------------------------------------------------------------
  // POST, spreadsheet import (lines 30-80)
  // ---------------------------------------------------------------------------

  /** A category built by the import loop, as the document handed to the schema. */
  function AsInput(c: Category): (r: CategoryInput)
    ensures r.id == Some(c.id) && r.name == Some(c.name) && r.excelFile == c.excelFile
    ensures |r.subcategories| == |c.subcategories|
    ensures forall j :: 0 <= j < |c.subcategories| ==>
      r.subcategories[j] == SubcategoryInput(Some(c.subcategories[j].id), Some(c.subcategories[j].name))
  {
    CategoryInput(Some(c.id), Some(c.name), c.excelFile,
      seq(|c.subcategories|, j requires 0 <= j < |c.subcategories| =>
        SubcategoryInput(Some(c.subcategories[j].id), Some(c.subcategories[j].name))))
  }

  /** The documents `insertMany` receives: one per category of the import loop. */
  function Documents(cats: seq<Category>): (docs: seq<CategoryInput>)
    ensures |docs| == |cats| && forall k :: 0 <= k < |cats| ==> docs[k] == AsInput(cats[k])
  {
    seq(|cats|, k requires 0 <= k < |cats| => AsInput(cats[k]))
  }

  /** `rec` is what `CategorySchema` makes of the document `doc`: it passes the
      validators, its name and subcategory names are trimmed, and the identifiers
      and `excel_file` the document carries are kept. */
  predicate CastsCategoryTo(doc: CategoryInput, rec: Category) {
    && CategoryAccepted(doc)
    && StoredCategory(rec)
    && rec.name == Trim(doc.name.value)
    && (doc.id.Some? ==> rec.id == doc.id.value)
    && rec.excelFile == doc.excelFile
    && SubcategoriesCastTo(doc.subcategories, rec.subcategories)
  }

  predicate SubcategoriesCastTo(inputs: seq<SubcategoryInput>, subs: seq<Subcategory>)
    requires AllAccepted(inputs)
  {
    && |subs| == |inputs|
    && forall j :: 0 <= j < |inputs| ==>
      && subs[j].name == Trim(inputs[j].name.value)
      && (inputs[j].id.Some? ==> subs[j].id == inputs[j].id.value)
  }

  /** Each record is what the schema makes of the document at the same position. */
  predicate AllCastTo(docs: seq<CategoryInput>, recs: seq<Category>)
    decreases |docs|
  {
    && |docs| == |recs|
    && (docs != [] ==> CastsCategoryTo(docs[0], recs[0]) && AllCastTo(docs[1..], recs[1..]))
  }

  lemma {:induction false} AllCastToAt(docs: seq<CategoryInput>, recs: seq<Category>, k: nat)
    requires AllCastTo(docs, recs) && k < |docs|
    ensures CastsCategoryTo(docs[k], recs[k])
  {
    if k > 0 {
      AllCastToAt(docs[1..], recs[1..], k - 1);
    }
  }

  lemma AllCastToStored(docs: seq<CategoryInput>, recs: seq<Category>)
    requires AllCastTo(docs, recs)
    ensures forall k :: 0 <= k < |recs| ==> StoredCategory(recs[k])
  {
    forall k | 0 <= k < |recs| ensures StoredCategory(recs[k]) {
      AllCastToAt(docs, recs, k);
    }
  }

  /** The schema accepts every document, stated one document at a time. */
  predicate DocsAccepted(docs: seq<CategoryInput>)
    decreases |docs|
  {
    docs != [] ==> CategoryAccepted(docs[0]) && DocsAccepted(docs[1..])
  }

  lemma {:induction false} DocsAcceptedEach(docs: seq<CategoryInput>)
    ensures DocsAccepted(docs) <==> forall k :: 0 <= k < |docs| ==> CategoryAccepted(docs[k])
    decreases |docs|
  {
    if docs != [] {
      DocsAcceptedEach(docs[1..]);
      assert forall k :: 1 <= k < |docs| ==> docs[k] == docs[1..][k - 1];
    }
  }

  /** The validation pass of `Category.insertMany(docs)`: every document is cast and
      validated before anything is written, and one failure refuses the whole batch
      (`DocsAcceptedEach` restates acceptance per document, `CastAllCasts` says what
      each record is). */
  function CastAll(docs: seq<CategoryInput>, next: nat): (r: (Result<seq<Category>, StoreError>, nat))
    ensures next <= r.1
    ensures r.0.Ok? <==> DocsAccepted(docs)
    ensures r.0.Ok? ==> |r.0.value| == |docs|
  {
    if docs == [] then (Ok([]), next)
    else
      var head := CastCategory(docs[0], next);
      var tail := CastAll(docs[1..], head.1);
      if head.0.Err? then (Err(head.0.error), tail.1)
      else if tail.0.Err? then (Err(tail.0.error), tail.1)
      else
        var recs := [head.0.value] + tail.0.value;
        assert recs[0] == head.0.value && recs[1..] == tail.0.value;
        (Ok(recs), tail.1)
  }

  /** Each record of a validated batch is what the schema makes of its document. */
  lemma {:induction false} CastAllCasts(docs: seq<CategoryInput>, next: nat)
    requires CastAll(docs, next).0.Ok?
    ensures AllCastTo(docs, CastAll(docs, next).0.value)
    decreases |docs|
  {
    if docs != [] {
      var head := CastCategory(docs[0], next);
      CastAllCasts(docs[1..], head.1);
      var recs := CastAll(docs, next).0.value;
      assert recs[0] == head.0.value && recs[1..] == CastAll(docs[1..], head.1).0.value;
    }
  }

  /** The write pass of an ordered `insertMany`: the records are inserted one after the
      other and the first duplicate key stops the batch, the records before it staying
      written. */
  datatype Written = Written(store: seq<Category>, count: nat, failed: bool)

  function InsertInOrder(store: seq<Category>, recs: seq<Category>): (w: Written)
    ensures w.count <= |recs| && w.store == store + recs[..w.count]
    ensures !w.failed ==> w.count == |recs|
    ensures w.failed ==> w.count < |recs| && Insert(store + recs[..w.count], recs[w.count]).Err?
  {
    if recs == [] then
      assert store + recs[..0] == store;
      Written(store, 0, false)
    else
      var n := |recs| - 1;
      var w := InsertInOrder(store, recs[..n]);
      assert recs[..n][..w.count] == recs[..w.count];
      if w.failed then
        assert recs[..n][w.count] == recs[w.count];
        w
      else match Insert(w.store, recs[n])
        case Err(_) => Written(w.store, n, true)
        case Ok(store') =>
          assert recs[..n] + [recs[n]] == recs[..n + 1];
          Written(store', n + 1, false)
  }

  /** Each write keeps the collection's invariant, so the ordered write pass does. */
  lemma {:induction false} InsertInOrderKeepsStoreValid(store: seq<Category>, recs: seq<Category>)
    requires forall k :: 0 <= k < |recs| ==> StoredCategory(recs[k])
    ensures StoreValid(store) ==> StoreValid(InsertInOrder(store, recs).store)
  {
    if recs != [] {
      var n := |recs| - 1;
      assert forall k :: 0 <= k < n ==> recs[..n][k] == recs[k];
      InsertInOrderKeepsStoreValid(store, recs[..n]);
    }
  }

  /** `await Category.insertMany(importedCategories)` and the response that follows it. */
  function SaveBatch(store: seq<Category>, cats: seq<Category>, next: nat): (o: Outcome)
    ensures o.response.ServerError? || o.response.CreatedBatch?
    ensures o.response.ServerError? ==> o.response.error == CreateFailed
    ensures o.response.CreatedBatch? ==> o.store == store + o.response.categories
    ensures |store| <= |o.store| && o.store[..|store|] == store
  {
    var cast := CastAll(Documents(cats), next);
    if cast.0.Err? then Outcome(ServerError(CreateFailed), store, cast.1)
    else
      var recs := cast.0.value;
      var w := InsertInOrder(store, recs);
      assert w.store[..|store|] == store;
      if w.failed then Outcome(ServerError(CreateFailed), w.store, cast.1)
      else Outcome(CreatedBatch(recs), w.store, cast.1)
  }

  /** Whatever part of the batch is written, the collection's invariant holds after it. */
  lemma SaveBatchKeepsStoreValid(store: seq<Category>, cats: seq<Category>, next: nat)
    requires StoreValid(store)
    ensures StoreValid(SaveBatch(store, cats, next).store)
  {
    var docs := Documents(cats);
    var cast := CastAll(docs, next);
    if cast.0.Ok? {
      CastAllCasts(docs, next);
      AllCastToStored(docs, cast.0.value);
      InsertInOrderKeepsStoreValid(store, cast.0.value);
    }
  }

  /** `POST` with a multipart body. `file == None` is a form without a `file` entry;
      otherwise `file` holds the rows of its first sheet. */
  function PostImport(store: seq<Category>, file: Option<seq<Row>>, next: nat): (o: Outcome)
    ensures file.None? ==> o == Outcome(BadRequest(NoFileUploaded), store, next)
    ensures o.response.ServerError? ==> o.response.error == CreateFailed
    ensures o.response.CreatedBatch? ==> o.store == store + o.response.categories
    ensures o.response.BadRequest? || o.response.ServerError? || o.response.CreatedBatch?
    ensures |store| <= |o.store| && o.store[..|store|] == store
    ensures StoreValid(store) ==> StoreValid(o.store)
  {
    match file
    case None => Outcome(BadRequest(NoFileUploaded), store, next)
    case Some(rows) =>
      var batch := ImportRows(rows, next);
      if StoreValid(store) then
        SaveBatchKeepsStoreValid(store, batch.categories, batch.next);
        SaveBatch(store, batch.categories, batch.next)
      else SaveBatch(store, batch.categories, batch.next)
  }

  /** `rec` is the import loop's category `c` as stored: same identifier, name trimmed,
      same `excel_file`, and each subcategory with its identifier and its name trimmed,
      in the same order. */
  predicate SavedAs(c: Category, rec: Category) {
    && rec.id == c.id
    && rec.name == Trim(c.name)
    && rec.excelFile == c.excelFile
    && |rec.subcategories| == |c.subcategories|
    && forall j :: 0 <= j < |c.subcategories| ==>
      rec.subcategories[j] == Subcategory(c.subcategories[j].id, Trim(c.subcategories[j].name))
  }

  lemma CastOfImported(c: Category, rec: Category)
    requires CastsCategoryTo(AsInput(c), rec)
    ensures SavedAs(c, rec)
  {
    var doc := AsInput(c);
    forall j | 0 <= j < |c.subcategories|
      ensures rec.subcategories[j] == Subcategory(c.subcategories[j].id, Trim(c.subcategories[j].name))
    {
      assert doc.subcategories[j] == SubcategoryInput(Some(c.subcategories[j].id), Some(c.subcategories[j].name));
    }
  }

  /** What the import stores: one record per category of the import loop, in the same
      order, each as `SavedAs` describes and with no `excel_file`. */
  lemma ImportStoresBatch(store: seq<Category>, rows: seq<Row>, next: nat)
    requires PostImport(store, Some(rows), next).response.CreatedBatch?
    ensures var batch := ImportRows(rows, next).categories;
      var saved := PostImport(store, Some(rows), next).response.categories;
      && |saved| == |batch|
      && forall k :: 0 <= k < |batch| ==> SavedAs(batch[k], saved[k]) && saved[k].excelFile.None?
  {
    var batch := ImportRows(rows, next);
    var docs := Documents(batch.categories);
    var saved := CastAll(docs, batch.next).0.value;
    CastAllCasts(docs, batch.next);
    forall k | 0 <= k < |batch.categories|
      ensures SavedAs(batch.categories[k], saved[k]) && saved[k].excelFile.None?
    {
      ImportedHaveNoExcelFile(rows, next, k);
      AllCastToAt(docs, saved, k);
      CastOfImported(batch.categories[k], saved[k]);
    }
  }

  lemma {:induction false} ImportedHaveNoExcelFile(rows: seq<Row>, next: nat, k: nat)
    requires k < |ImportRows(rows, next).categories|
    ensures ImportRows(rows, next).categories[k].excelFile.None?
  {
    var prefix := rows[..|rows| - 1];
    var b := ImportRows(prefix, next);
    var row := rows[|rows| - 1];
    if Truthy(row.category) {
      var b1 := EnsureCategory(b, row.category.value);
      if k < |b.categories| {
        ImportedHaveNoExcelFile(prefix, next, k);
      }
      assert b1.categories[k].excelFile.None?;
    } else {
      ImportedHaveNoExcelFile(prefix, next, k);
    }
  }

  /** The import loop on two rows naming distinct categories and no subcategory. */
  lemma TwoCategoryRows(rows: seq<Row>, a: string, b: string, next: nat)
    requires a != "" && b != "" && a != b
    requires rows == [Row(Some(a), None), Row(Some(b), None)]
    ensures var batch := ImportRows(rows, next);
      && |batch.categories| == 2 && batch.next == next + 2
      && batch.categories[0] == NewCategory(FreshId(next), a)
      && batch.categories[1] == NewCategory(FreshId(next + 1), b)
  {
    assert rows[..1] == [Row(Some(a), None)] && rows[..1][..0] == [];
    var ca := NewCategory(FreshId(next), a);
    assert ImportRows(rows[..1], next) == Batch([ca], next + 1);
    assert IndexOfName([ca], b) == None;
  }

  /** Two category cells that differ only in surrounding white space are distinct
      keys of the import loop but one name once trimmed: the unique index on `name`
      refuses the second record after the first has been written, so the request
      fails while the collection keeps the first record. */
  lemma WhitespaceVariantsPartlyWritten(store: seq<Category>, rows: seq<Row>, a: string, b: string, next: nat)
    requires a != "" && b != "" && a != b && Trim(a) == Trim(b) && Trim(a) != ""
    requires rows == [Row(Some(a), None), Row(Some(b), None)]
    requires forall k :: 0 <= k < |store| ==> store[k].name != Trim(a) && store[k].id != FreshId(next)
    ensures var o := PostImport(store, Some(rows), next);
      && o.response == ServerError(CreateFailed)
      && o.store == store + [Category(FreshId(next), Trim(a), None, [])]
  {
    TwoCategoryRows(rows, a, b, next);
    PostImportSaves(store, rows, next);
    var batch := ImportRows(rows, next);
    var recs := TwoDocumentsCast(batch.categories, a, b, next);
    SaveBatchWrites(store, batch.categories, next + 2, recs);
    SecondRecordRefused(store, recs);
  }

  lemma PostImportSaves(store: seq<Category>, rows: seq<Row>, next: nat)
    ensures PostImport(store, Some(rows), next)
      == SaveBatch(store, ImportRows(rows, next).categories, ImportRows(rows, next).next)
  {
  }

  /** Once the batch is cast, `SaveBatch` answers as its write pass went. */
  lemma SaveBatchWrites(store: seq<Category>, cats: seq<Category>, next: nat, recs: seq<Category>)
    requires CastAll(Documents(cats), next).0 == Ok(recs)
    ensures var w := InsertInOrder(store, recs);
      && SaveBatch(store, cats, next).store == w.store
      && SaveBatch(store, cats, next).response == if w.failed then ServerError(CreateFailed) else CreatedBatch(recs)
  {
  }

  /** An ordered write of two records with the same name, the first of them new to
      the collection: the first is written and the second refused. */
  lemma SecondRecordRefused(store: seq<Category>, recs: seq<Category>)
    requires |recs| == 2 && recs[1].name == recs[0].name
    requires forall k :: 0 <= k < |store| ==> store[k].name != recs[0].name && store[k].id != recs[0].id
    ensures InsertInOrder(store, recs) == Written(store + [recs[0]], 1, true)
  {
    var store' := store + [recs[0]];
    assert Insert(store, recs[0]) == Ok(store');
    DuplicateNameRefused(store', recs[1], |store|);
    var first := recs[..1];
    assert first[..0] == [] && first[0] == recs[0];
    assert InsertInOrder(store, first) == Written(store', 1, false);
  }

  /** What the schema makes of a category the import loop created. */
  lemma NewCategoryCast(id: Id, name: string, rec: Category)
    requires CastsCategoryTo(AsInput(NewCategory(id, name)), rec)
    ensures rec == Category(id, Trim(name), None, [])
  {
    CastOfImported(NewCategory(id, name), rec);
  }

  lemma NewCategoryAccepted(id: Id, name: string)
    requires id != "" && Trim(name) != ""
    ensures CategoryAccepted(AsInput(NewCategory(id, name)))
  {
  }

  /** The two records the schema makes of the documents of `TwoCategoryRows`. */
  lemma TwoDocumentsCast(cats: seq<Category>, a: string, b: string, next: nat) returns (recs: seq<Category>)
    requires Trim(a) != "" && Trim(b) != ""
    requires |cats| == 2 && cats[0] == NewCategory(FreshId(next), a) && cats[1] == NewCategory(FreshId(next + 1), b)
    ensures CastAll(Documents(cats), next + 2).0 == Ok(recs)
    ensures |recs| == 2
    ensures recs[0] == Category(FreshId(next), Trim(a), None, [])
    ensures recs[1] == Category(FreshId(next + 1), Trim(b), None, [])
  {
    var docs := Documents(cats);
    TwoDocumentsAccepted(docs, FreshId(next), a, FreshId(next + 1), b);
    recs := CastAll(docs, next + 2).0.value;
    CastAllCasts(docs, next + 2);
    TwoRecordsCast(docs, recs, FreshId(next), a, FreshId(next + 1), b);
  }

  lemma TwoDocumentsAccepted(docs: seq<CategoryInput>, i0: Id, a: string, i1: Id, b: string)
    requires i0 != "" && i1 != "" && Trim(a) != "" && Trim(b) != ""
    requires |docs| == 2 && docs[0] == AsInput(NewCategory(i0, a)) && docs[1] == AsInput(NewCategory(i1, b))
    ensures DocsAccepted(docs)
  {
    NewCategoryAccepted(i0, a);
    NewCategoryAccepted(i1, b);
    var rest := docs[1..];
    assert rest[1..] == [] && rest[0] == docs[1];
    assert DocsAccepted(rest);
  }

  lemma TwoRecordsCast(docs: seq<CategoryInput>, recs: seq<Category>, i0: Id, a: string, i1: Id, b: string)
    requires |docs| == 2 && docs[0] == AsInput(NewCategory(i0, a)) && docs[1] == AsInput(NewCategory(i1, b))
    requires AllCastTo(docs, recs)
    ensures |recs| == 2
    ensures recs[0] == Category(i0, Trim(a), None, [])
    ensures recs[1] == Category(i1, Trim(b), None, [])
  {
    assert docs[1..][0] == docs[1] && recs[1..][0] == recs[1];
    NewCategoryCast(i0, a, recs[0]);
    NewCategoryCast(i1, b, recs[1]);
  }

  // ---------------------------------------------------------------------------
  // When an import answers 201, and the identifiers it leaves
  // ---------------------------------------------------------------------------

  /** No record of `recs` shares an identifier or a name with a stored record or with
      another record of `recs`: what the unique indexes demand of a batch. */
  predicate FitsIndexes(store: seq<Category>, recs: seq<Category>) {
    && (forall k, j :: 0 <= k < |recs| && 0 <= j < |store| ==> store[j].id != recs[k].id && store[j].name != recs[k].name)
    && (forall k, l :: 0 <= k < l < |recs| ==> recs[k].id != recs[l].id && recs[k].name != recs[l].name)
  }

  /** A batch fits the indexes when its first records do and its last record is new to
      the collection and to them. */
  lemma FitsIndexesSnoc(store: seq<Category>, recs: seq<Category>)
    requires recs != []
    ensures var n := |recs| - 1; var before := store + recs[..n];
      FitsIndexes(store, recs) <==>
        && FitsIndexes(store, recs[..n])
        && forall k :: 0 <= k < |before| ==> before[k].id != recs[n].id && before[k].name != recs[n].name
  {
    var n := |recs| - 1;
    var init := recs[..n];
    var before := store + init;
    assert forall k :: 0 <= k < n ==> init[k] == recs[k];
    var last := forall k :: 0 <= k < |before| ==> before[k].id != recs[n].id && before[k].name != recs[n].name;
    if FitsIndexes(store, recs) {
      forall k | 0 <= k < |before| ensures before[k].id != recs[n].id && before[k].name != recs[n].name {
        if k >= |store| {
          assert before[k] == recs[k - |store|];
        }
      }
    }
    if FitsIndexes(store, init) && last {
      forall k, l | 0 <= k < l < |recs| ensures recs[k].id != recs[l].id && recs[k].name != recs[l].name {
        if l == n {
          assert before[|store| + k] == recs[k];
        }
      }
      forall k, j | 0 <= k < |recs| && 0 <= j < |store| ensures store[j].id != recs[k].id && store[j].name != recs[k].name {
        assert before[j] == store[j];
      }
    }
  }

  /** The ordered write stores every record exactly when the batch fits the indexes. */
  lemma {:induction false} InsertInOrderSucceedsIff(store: seq<Category>, recs: seq<Category>)
    ensures !InsertInOrder(store, recs).failed <==> FitsIndexes(store, recs)
  {
    if recs != [] {
      var n := |recs| - 1;
      var w := InsertInOrder(store, recs[..n]);
      InsertInOrderSucceedsIff(store, recs[..n]);
      FitsIndexesSnoc(store, recs);
      if !w.failed {
        assert w.store == store + recs[..n];
        var ins := Insert(w.store, recs[n]);
        assert InsertInOrder(store, recs).failed <==> ins.Err?;
      }
    }
  }

  /** The collection invariant is exactly what the unique indexes allow to be built:
      a collection is valid when its records are in stored form and could have been
      written one by one, in order, into an empty collection. */
  lemma StoreValidIffWritable(store: seq<Category>)
    ensures StoreValid(store) <==>
      (forall k :: 0 <= k < |store| ==> StoredCategory(store[k])) && !InsertInOrder([], store).failed
  {
    InsertInOrderSucceedsIff([], store);
    assert FitsIndexes([], store) <==> UniqueIds(store) && UniqueNames(store);
  }

  /** Every category and subcategory name of the batch is non-blank. */
  predicate NamesNotBlank(cats: seq<Category>) {
    forall k :: 0 <= k < |cats| ==>
      && !Blank(cats[k].name)
      && forall j :: 0 <= j < |cats[k].subcategories| ==> !Blank(cats[k].subcategories[j].name)
  }

  /** The batch's category names, once trimmed, are pairwise distinct and not stored. */
  predicate TrimmedNamesFree(store: seq<Category>, cats: seq<Category>) {
    && (forall k, l :: 0 <= k < l < |cats| ==> Trim(cats[k].name) != Trim(cats[l].name))
    && (forall k, j :: 0 <= k < |cats| && 0 <= j < |store| ==> store[j].name != Trim(cats[k].name))
  }

  /** The documents of a batch whose identifiers are all drawn pass the schema exactly
      when no name in it is blank. */
  lemma DocumentsAccepted(cats: seq<Category>, lo: nat, hi: nat)
    requires IdsIssuedIn(cats, lo, hi)
    ensures DocsAccepted(Documents(cats)) <==> NamesNotBlank(cats)
  {
    var docs := Documents(cats);
    DocsAcceptedEach(docs);
    forall k | 0 <= k < |cats| ensures CategoryAccepted(docs[k]) <==>
      (!Blank(cats[k].name) && forall j :: 0 <= j < |cats[k].subcategories| ==> !Blank(cats[k].subcategories[j].name))
    {
      assert IssuedIn(IdAt(cats, CategorySlot(k)), lo, hi);
      var subs := docs[k].subcategories;
      forall j | 0 <= j < |subs| ensures SubcategoryAccepted(subs[j]) <==> !Blank(cats[k].subcategories[j].name) {
        assert IssuedIn(IdAt(cats, SubcategorySlot(k, j)), lo, hi);
      }
    }
  }

  /** Each record of a validated batch is its category as `SavedAs` describes. */
  lemma BatchRecords(cats: seq<Category>, next: nat)
    requires CastAll(Documents(cats), next).0.Ok?
    ensures var recs := CastAll(Documents(cats), next).0.value;
      |recs| == |cats| && forall k :: 0 <= k < |cats| ==> SavedAs(cats[k], recs[k])
  {
    var docs := Documents(cats);
    var recs := CastAll(docs, next).0.value;
    CastAllCasts(docs, next);
    forall k | 0 <= k < |cats| ensures SavedAs(cats[k], recs[k]) {
      AllCastToAt(docs, recs, k);
      CastOfImported(cats[k], recs[k]);
    }
  }

  /** Records saved from a batch of freshly drawn, distinct identifiers fit the indexes
      exactly when their trimmed names are distinct and not stored. */
  lemma SavedRecordsFit(store: seq<Category>, cats: seq<Category>, recs: seq<Category>, lo: nat, hi: nat)
    requires IdsBefore(store, lo) && IdsDistinct(cats) && IdsIssuedIn(cats, lo, hi)
    requires |recs| == |cats| && forall k :: 0 <= k < |cats| ==> SavedAs(cats[k], recs[k])
    ensures FitsIndexes(store, recs) <==> TrimmedNamesFree(store, cats)
  {
    assert forall k :: 0 <= k < |cats| ==> recs[k].id == cats[k].id && recs[k].name == Trim(cats[k].name);
    RecordIdsFresh(store, cats, recs, lo, hi);
    FitsByNames(store, cats, recs);
  }

  /** Records carrying a batch's freshly drawn, distinct identifiers clash with no
      stored identifier and with no other record's identifier. */
  lemma RecordIdsFresh(store: seq<Category>, cats: seq<Category>, recs: seq<Category>, lo: nat, hi: nat)
    requires IdsBefore(store, lo) && IdsDistinct(cats) && IdsIssuedIn(cats, lo, hi)
    requires |recs| == |cats| && forall k :: 0 <= k < |cats| ==> recs[k].id == cats[k].id
    ensures forall k, j :: 0 <= k < |recs| && 0 <= j < |store| ==> store[j].id != recs[k].id
    ensures forall k, l :: 0 <= k < l < |recs| ==> recs[k].id != recs[l].id
  {
    forall k, j | 0 <= k < |recs| && 0 <= j < |store| ensures store[j].id != recs[k].id {
      assert IssuedIn(IdAt(cats, CategorySlot(k)), lo, hi);
    }
    forall k, l | 0 <= k < l < |recs| ensures recs[k].id != recs[l].id {
      assert IdAt(cats, CategorySlot(k)) != IdAt(cats, CategorySlot(l));
    }
  }

  /** With the identifiers clear, records named by the trimmed batch names fit the
      indexes exactly when those names are distinct and not stored. */
  lemma FitsByNames(store: seq<Category>, cats: seq<Category>, recs: seq<Category>)
    requires |recs| == |cats| && forall k :: 0 <= k < |cats| ==> recs[k].name == Trim(cats[k].name)
    requires forall k, j :: 0 <= k < |recs| && 0 <= j < |store| ==> store[j].id != recs[k].id
    requires forall k, l :: 0 <= k < l < |recs| ==> recs[k].id != recs[l].id
    ensures FitsIndexes(store, recs) <==> TrimmedNamesFree(store, cats)
  {
  }

  /** Under `IdsBefore`, a spreadsheet import answers 201 exactly when every category and
      subcategory name the loop collected is non-blank and the trimmed category names
      are pairwise distinct and not stored yet. */
  lemma PostImportSucceedsIff(store: seq<Category>, rows: seq<Row>, next: nat)
    requires IdsBefore(store, next)
    ensures var cats := ImportRows(rows, next).categories;
      PostImport(store, Some(rows), next).response.CreatedBatch? <==>
        NamesNotBlank(cats) && TrimmedNamesFree(store, cats)
  {
    var b := ImportRows(rows, next);
    var cats := b.categories;
    ImportIds(rows, next);
    PostImportSaves(store, rows, next);
    DocumentsAccepted(cats, next, b.next);
    var cast := CastAll(Documents(cats), b.next);
    if cast.0.Ok? {
      var recs := cast.0.value;
      BatchRecords(cats, b.next);
      InsertInOrderSucceedsIff(store, recs);
      SavedRecordsFit(store, cats, recs, next, b.next);
    }
  }

  /** Appending records whose identifiers were issued before `next` keeps `IdsBefore`. */
  lemma AppendKeepsIdsBefore(store: seq<Category>, added: seq<Category>, next: nat)
    requires IdsBefore(store, next)
    requires forall k :: 0 <= k < |added| ==> IssuedIn(added[k].id, 0, next)
    ensures IdsBefore(store + added, next)
  {
    var s' := store + added;
    assert forall k :: |store| <= k < |s'| ==> s'[k] == added[k - |store|];
  }

  /** Records saved from a batch carry the batch's identifiers, all issued before `hi`. */
  lemma SavedRecordIdsIssued(cats: seq<Category>, recs: seq<Category>, lo: nat, hi: nat, count: nat)
    requires IdsIssuedIn(cats, lo, hi)
    requires |recs| == |cats| && forall k :: 0 <= k < |cats| ==> SavedAs(cats[k], recs[k])
    requires count <= |recs|
    ensures forall k :: 0 <= k < count ==> IssuedIn(recs[..count][k].id, 0, hi)
  {
    forall k | 0 <= k < count ensures IssuedIn(recs[..count][k].id, 0, hi) {
      assert recs[..count][k] == recs[k];
      assert IssuedIn(IdAt(cats, CategorySlot(k)), lo, hi);
    }
  }

  /** `IdsBefore` is weaker for a later counter value. */
  lemma IdsBeforeGrows(store: seq<Category>, lo: nat, hi: nat)
    requires IdsBefore(store, lo) && lo <= hi
    ensures IdsBefore(store, hi)
  {
  }

  /** Saving a batch of identifiers drawn while the counter ran through `[lo, hi)`
      keeps `IdsBefore`. */
  lemma SaveBatchKeepsIdsBefore(store: seq<Category>, cats: seq<Category>, lo: nat, hi: nat)
    requires IdsIssuedIn(cats, lo, hi) && lo <= hi
    ensures var o := SaveBatch(store, cats, hi);
      IdsBefore(store, lo) ==> IdsBefore(o.store, o.next)
  {
    var o := SaveBatch(store, cats, hi);
    var cast := CastAll(Documents(cats), hi);
    if IdsBefore(store, lo) {
      IdsBeforeGrows(store, lo, hi);
      if cast.0.Ok? {
        var recs := cast.0.value;
        var w := InsertInOrder(store, recs);
        BatchRecords(cats, hi);
        SavedRecordIdsIssued(cats, recs, lo, hi, w.count);
        AppendKeepsIdsBefore(store, recs[..w.count], hi);
        assert o.store == w.store;
      } else {
        assert o.store == store;
      }
      IdsBeforeGrows(o.store, hi, o.next);
    }
  }

  /** A spreadsheet import keeps `IdsBefore`, whatever part of the batch is written. */
  lemma PostImportKeepsIdsBefore(store: seq<Category>, file: Option<seq<Row>>, next: nat)
    requires IdsBefore(store, next)
    ensures var o := PostImport(store, file, next);
      IdsBefore(o.store, o.next) && next <= o.next
  {
    if file.Some? {
      var rows := file.value;
      var batch := ImportRows(rows, next);
      ImportIds(rows, next);
      PostImportSaves(store, rows, next);
      SaveBatchKeepsIdsBefore(store, batch.categories, next, batch.next);
      var cast := CastAll(Documents(batch.categories), batch.next);
      assert PostImport(store, file, next).next == cast.1;
    }
  }

  // ---------------------------------------------------------------------------
  // POST, JSON body (lines 83-118)
  // ---------------------------------------------------------------------------

  /** The JSON body of a create request. */
  datatype CreateBody = CreateBody(name: Option<string>, subcategories: ListField)

  /** `body.subcategories.map(sub => ({ id: uuidv4(), name: sub.name }))`; any supplied id is dropped. */
  function FreshSubcategories(items: seq<SubcategoryInput>, next: nat): (r: seq<SubcategoryInput>)
    ensures |r| == |items|
    ensures forall k :: 0 <= k < |items| ==> r[k].name == items[k].name
    ensures forall k :: 0 <= k < |items| ==> r[k].id.Some? && IssuedIn(r[k].id.value, next, next + |items|)
    ensures forall k, l :: 0 <= k < l < |items| ==> r[k].id != r[l].id
  {
    FreshIdsInRange(next, next + |items|);
    FreshIdsDistinct();
    seq(|items|, k requires 0 <= k < |items| => SubcategoryInput(Some(FreshId(next + k)), items[k].name))
  }

  /** The document a create request builds: a fresh `id`, the name as sent, the
      subcategories with fresh identifiers when `subcategories` is an array and none otherwise. */
  function CreateDocument(body: CreateBody, next: nat): CategoryInput
  {
    CategoryInput(Some(FreshId(next)), body.name, None,
      if body.subcategories.Items? then FreshSubcategories(body.subcategories.items, next + 1) else [])
  }

  /** The create document carries a fresh identifier, the name as sent and no
      `excel_file`; under an array `subcategories`, one entry per element, with the
      element's name and a fresh identifier each, all distinct. */
  lemma CreateDocumentFields(body: CreateBody, next: nat)
    ensures var d := CreateDocument(body, next);
      && d.id == Some(FreshId(next)) && d.name == body.name && d.excelFile.None?
      && (body.subcategories.Items? ==> |d.subcategories| == |body.subcategories.items|)
      && (!body.subcategories.Items? ==> d.subcategories == [])
      && (forall k :: 0 <= k < |d.subcategories| ==>
        && d.subcategories[k].name == body.subcategories.items[k].name
        && d.subcategories[k].id.Some? && IssuedIn(d.subcategories[k].id.value, next + 1, next + 1 + |d.subcategories|))
      && (forall k, l :: 0 <= k < l < |d.subcategories| ==> d.subcategories[k].id != d.subcategories[l].id)
  {
  }

  /** `POST` with a JSON body. */
  function PostJson(store: seq<Category>, body: CreateBody, next: nat): (o: Outcome)
    ensures !Truthy(body.name) ==> o == Outcome(BadRequest(NameRequired), store, next)
    ensures o.response.ServerError? ==> o.store == store && o.response.error == CreateFailed
    ensures o.response.Created? ==> o.store == store + [o.response.category]
    ensures o.response.BadRequest? || o.response.ServerError? || o.response.Created?
    ensures StoreValid(store) ==> StoreValid(o.store)
  {
    if !Truthy(body.name) then Outcome(BadRequest(NameRequired), store, next)
    else
      var doc := CreateDocument(body, next);
      var (rec, next') := CastCategory(doc, next + 1 + |doc.subcategories|);
      if rec.Err? then Outcome(ServerError(CreateFailed), store, next')
      else match Insert(store, rec.value)
        case Err(_) => Outcome(ServerError(CreateFailed), store, next')
        case Ok(store') => Outcome(Created(rec.value), store', next')
  }

  /** A created record: fresh identifier, the name trimmed, no `excel_file`, and one
      subcategory per element of an array `subcategories` (none otherwise), each with
      the element's name trimmed and its own fresh identifier. */
  lemma CreatedRecord(store: seq<Category>, body: CreateBody, next: nat)
    requires PostJson(store, body, next).response.Created?
    ensures var c := PostJson(store, body, next).response.category;
      var items := if body.subcategories.Items? then body.subcategories.items else [];
      && c.id == FreshId(next)
      && c.name == Trim(body.name.value)
      && c.excelFile.None?
      && |c.subcategories| == |items|
      && (forall k :: 0 <= k < |items| ==> c.subcategories[k].name == Trim(items[k].name.value))
      && (forall k :: 0 <= k < |items| ==> IssuedIn(c.subcategories[k].id, next + 1, next + 1 + |items|))
      && (forall k, l :: 0 <= k < l < |items| ==> c.subcategories[k].id != c.subcategories[l].id)
  {
  }

  /** A create whose trimmed name is already stored (exactly) fails, and nothing is saved. */
  lemma CreateDuplicateNameFails(store: seq<Category>, body: CreateBody, next: nat, k: nat)
    requires Truthy(body.name) && k < |store| && store[k].name == Trim(body.name.value)
    ensures PostJson(store, body, next) == Outcome(ServerError(CreateFailed), store, PostJson(store, body, next).next)
  {
    var doc := CreateDocument(body, next);
    var rec := CastCategory(doc, next + 1 + |doc.subcategories|).0;
    if rec.Ok? {
      assert rec.value.name == store[k].name;
      DuplicateNameRefused(store, rec.value, k);
    }
  }

  /** Every element of a sent subcategory list has a non-blank `name`. */
  predicate NamesSent(items: seq<SubcategoryInput>) {
    forall k :: 0 <= k < |items| ==> items[k].name.Some? && !Blank(items[k].name.value)
  }

  lemma CreateDocumentAccepted(body: CreateBody, next: nat)
    requires body.name.Some?
    ensures CategoryAccepted(CreateDocument(body, next)) <==>
      !Blank(body.name.value) && (body.subcategories.Items? ==> NamesSent(body.subcategories.items))
  {
    var doc := CreateDocument(body, next);
    if body.subcategories.Items? {
      var items := body.subcategories.items;
      assert forall k :: 0 <= k < |items| ==> doc.subcategories[k].name == items[k].name;
      assert AllAccepted(doc.subcategories) <==> NamesSent(items);
    }
  }

  /** A create succeeds exactly when the name is not blank, every array element has a
      non-blank name, and no stored record has the trimmed name (given that the
      counter has not issued any stored identifier yet). */
  lemma CreateSucceedsIff(store: seq<Category>, body: CreateBody, next: nat)
    requires IdsBefore(store, next)
    ensures PostJson(store, body, next).response.Created? <==>
      && Truthy(body.name) && !Blank(body.name.value)
      && (body.subcategories.Items? ==> NamesSent(body.subcategories.items))
      && forall k :: 0 <= k < |store| ==> store[k].name != Trim(body.name.value)
  {
    if Truthy(body.name) {
      var doc := CreateDocument(body, next);
      CreateDocumentAccepted(body, next);
      var rec := CastCategory(doc, next + 1 + |doc.subcategories|).0;
      if rec.Ok? {
        SerialOfFreshId(next);
        assert forall k :: 0 <= k < |store| ==> store[k].id != rec.value.id;
      }
    }
  }

  /** A create keeps `IdsBefore`: the new record's identifier was drawn at `next`, and
      the counter has moved past it. */
  lemma PostJsonKeepsIdsBefore(store: seq<Category>, body: CreateBody, next: nat)
    requires IdsBefore(store, next)
    ensures var o := PostJson(store, body, next);
      IdsBefore(o.store, o.next) && next <= o.next
  {
    var o := PostJson(store, body, next);
    if Truthy(body.name) {
      var doc := CreateDocument(body, next);
      assert next + 1 <= o.next;
      IdsBeforeGrows(store, next, o.next);
      if o.response.Created? {
        CreatedRecord(store, body, next);
        SerialOfFreshId(next);
        AppendKeepsIdsBefore(store, [o.response.category], o.next);
      }
    }
  }

  // ---------------------------------------------------------------------------
  // PUT (lines 150-196)
  // ---------------------------------------------------------------------------

  /** The JSON body of an update request: `categoryId` and the fields to set. */
  datatype UpdateBody = UpdateBody(categoryId: Option<string>, name: Option<string>, subcategories: ListField)

  /** `subcategories.map(sub => ({ ...sub, id: sub.id || uuidv4() }))`: an element keeps
      a truthy identifier and draws a fresh one otherwise. */
  function FillIds(items: seq<SubcategoryInput>, next: nat): (r: (seq<SubcategoryInput>, nat))
    ensures |r.0| == |items| && next <= r.1
    ensures forall k :: 0 <= k < |items| ==> r.0[k].name == items[k].name
    ensures forall k :: 0 <= k < |items| ==> Truthy(r.0[k].id)
    ensures forall k :: 0 <= k < |items| && Truthy(items[k].id) ==> r.0[k].id == items[k].id
    ensures forall k :: 0 <= k < |items| && !Truthy(items[k].id) ==> r.0[k].id.Some? && IssuedIn(r.0[k].id.value, next, r.1)
  {
    if items == [] then ([], next)
    else
      var n := |items| - 1;
      var init := FillIds(items[..n], next);
      var last := items[n];
      var id := if Truthy(last.id) then last.id.value else FreshId(init.1);
      var hi := if Truthy(last.id) then init.1 else init.1 + 1;
      SerialOfFreshId(init.1);
      (init.0 + [SubcategoryInput(Some(id), last.name)], hi)
  }

  /** The identifiers `FillIds` draws are pairwise distinct. */
  lemma {:induction false} FillIdsDistinct(items: seq<SubcategoryInput>, next: nat)
    ensures var r := FillIds(items, next).0;
      forall k, l :: 0 <= k < l < |items| && !Truthy(items[k].id) && !Truthy(items[l].id) ==> r[k].id != r[l].id
  {
    if items != [] {
      var n := |items| - 1;
      var init := FillIds(items[..n], next);
      FillIdsDistinct(items[..n], next);
      var r := FillIds(items, next).0;
      assert forall j :: 0 <= j < n ==> r[j] == init.0[j] && items[j] == items[..n][j];
      forall k | 0 <= k < n && !Truthy(items[k].id) && !Truthy(items[n].id)
        ensures r[k].id != r[n].id
      {
        IssuedElsewhereDiffers(init.0[k].id.value, next, init.1, init.1);
      }
    }
  }

  /** The subcategory list an update stores for the sent `items`: same length and
      order, every name trimmed, every truthy identifier kept, every missing one
      drawn while the counter ran through `[lo, hi)`, the drawn ones distinct. */
  predicate SentListStored(items: seq<SubcategoryInput>, subs: seq<Subcategory>, lo: nat, hi: nat) {
    && |subs| == |items|
    && (forall k :: 0 <= k < |items| ==> StoredSubcategory(subs[k]))
    && (forall k :: 0 <= k < |items| ==> items[k].name.Some? && subs[k].name == Trim(items[k].name.value))
    && (forall k :: 0 <= k < |items| && Truthy(items[k].id) ==> subs[k].id == items[k].id.value)
    && (forall k :: 0 <= k < |items| && !Truthy(items[k].id) ==> IssuedIn(subs[k].id, lo, hi))
    && (forall k, l :: 0 <= k < l < |items| && !Truthy(items[k].id) && !Truthy(items[l].id) ==> subs[k].id != subs[l].id)
  }

  lemma {:induction false} NoMissingIds(inputs: seq<SubcategoryInput>)
    requires forall k :: 0 <= k < |inputs| ==> inputs[k].id.Some?
    ensures MissingIds(inputs) == 0
  {
    if inputs != [] {
      assert forall k :: 0 <= k < |inputs[1..]| ==> inputs[1..][k] == inputs[k + 1];
      NoMissingIds(inputs[1..]);
    }
  }

  /** The sent list after `FillIds` and the subcategory schema. */
  lemma FilledListCast(items: seq<SubcategoryInput>, next: nat)
    ensures var filled := FillIds(items, next);
      var cast := CastSubcategories(filled.0, filled.1);
      && cast.1 == filled.1
      && (cast.0.Ok? <==> NamesSent(items))
      && (cast.0.Ok? ==> SentListStored(items, cast.0.value, next, filled.1))
  {
    var filled := FillIds(items, next);
    NoMissingIds(filled.0);
    FillIdsDistinct(items, next);
    var cast := CastSubcategories(filled.0, filled.1);
    assert AllAccepted(filled.0) <==> NamesSent(items) by {
      assert forall k :: 0 <= k < |items| ==> (SubcategoryAccepted(filled.0[k]) <==> items[k].name.Some? && !Blank(items[k].name.value));
    }
    if cast.0.Ok? {
      var subs := cast.0.value;
      forall k | 0 <= k < |items|
        ensures StoredSubcategory(subs[k]) && items[k].name.Some? && subs[k].name == Trim(items[k].name.value)
        ensures subs[k].id == filled.0[k].id.value
      {
        assert CastsTo(filled.0[k], subs[k], filled.1, filled.1);
      }
      forall k, l | 0 <= k < l < |items| && !Truthy(items[k].id) && !Truthy(items[l].id)
        ensures subs[k].id != subs[l].id
      {
        assert filled.0[k].id != filled.0[l].id;
      }
    }
  }

  /** The update document after `FillIds`, the `trim` setters and the update
      validators (`runValidators: true`): the new name and subcategory list, if sent. */
  datatype Changes = Changes(name: Option<string>, subcategories: Option<seq<Subcategory>>)

  function ValidateUpdate(body: UpdateBody, next: nat): (r: (Result<Changes, StoreError>, nat))
    requires !body.subcategories.NotAList?
    ensures next <= r.1
    ensures r.0.Ok? <==>
      (body.name.Some? ==> !Blank(body.name.value)) && (body.subcategories.Items? ==> NamesSent(body.subcategories.items))
    ensures r.0.Ok? ==> (r.0.value.name.Some? <==> body.name.Some?)
    ensures r.0.Ok? && body.name.Some? ==>
      r.0.value.name.value == Trim(body.name.value) && r.0.value.name.value != "" && IsTrimmed(r.0.value.name.value)
    ensures r.0.Ok? ==> (r.0.value.subcategories.Some? <==> body.subcategories.Items?)
    ensures r.0.Ok? && body.subcategories.Items? ==>
      SentListStored(body.subcategories.items, r.0.value.subcategories.value, next, r.1)
  {
    var newName := if body.name.Some? then Some(CastName(body.name, "name")) else None;
    var name := if newName.Some? && newName.value.Ok? then Some(newName.value.value) else None;
    if body.subcategories.Items? then
      var filled := FillIds(body.subcategories.items, next);
      var subs := CastSubcategories(filled.0, filled.1);
      FilledListCast(body.subcategories.items, next);
      if newName.Some? && newName.value.Err? then (Err(newName.value.error), filled.1)
      else if subs.0.Err? then (Err(subs.0.error), filled.1)
      else (Ok(Changes(name, Some(subs.0.value))), filled.1)
    else
      if newName.Some? && newName.value.Err? then (Err(newName.value.error), next)
      else (Ok(Changes(name, None)), next)
  }

  /** The record `c` with the changes applied: a sent list replaces the stored one whole. */
  function ApplyChanges(c: Category, ch: Changes): (r: Category)
    ensures r.id == c.id && r.excelFile == c.excelFile
    ensures r.name == (if ch.name.Some? then ch.name.value else c.name)
    ensures r.subcategories == (if ch.subcategories.Some? then ch.subcategories.value else c.subcategories)
  {
    c.(name := if ch.name.Some? then ch.name.value else c.name,
       subcategories := if ch.subcategories.Some? then ch.subcategories.value else c.subcategories)
  }

  /** Some record other than the one at `i` is named `name`. */
  predicate NameTakenByOther(store: seq<Category>, i: nat, name: string) {
    exists j :: 0 <= j < |store| && j != i && store[j].name == name
  }

  /** `PUT`: validate, look the record up by `categoryId`, apply the changes. */
  function Put(store: seq<Category>, body: UpdateBody, next: nat): (o: Outcome)
    ensures !Truthy(body.categoryId) ==> o == Outcome(BadRequest(IdRequired), store, next)
    ensures body.subcategories.NotAList? && Truthy(body.categoryId) ==> o == Outcome(ServerError(UpdateFailed), store, next)
    ensures !o.response.Updated? ==> o.store == store
    ensures o.response.ServerError? ==> o.response.error == UpdateFailed
    ensures o.response.NotFound? ==> o.response.error == CategoryNotFound
    ensures o.response.BadRequest? || o.response.ServerError? || o.response.NotFound? || o.response.Updated?
  {
    if !Truthy(body.categoryId) then Outcome(BadRequest(IdRequired), store, next)
    else if body.subcategories.NotAList? then Outcome(ServerError(UpdateFailed), store, next)
    else
      var validated := ValidateUpdate(body, next);
      if validated.0.Err? then Outcome(ServerError(UpdateFailed), store, validated.1)
      else match IndexOfId(store, body.categoryId.value)
        case None => Outcome(NotFound(CategoryNotFound), store, validated.1)
        case Some(i) =>
          var updated := ApplyChanges(store[i], validated.0.value);
          if validated.0.value.name.Some? && NameTakenByOther(store, i, updated.name)
          then Outcome(ServerError(UpdateFailed), store, validated.1)
          else Outcome(Updated(updated), store[i := updated], validated.1)
  }

  /** An update succeeds exactly when it names a record, is an array or no list, passes
      the validators, and any name it sends is not another record's name once trimmed. */
  lemma PutSucceedsIff(store: seq<Category>, body: UpdateBody, next: nat)
    ensures Put(store, body, next).response.Updated? <==>
      && Truthy(body.categoryId) && !body.subcategories.NotAList?
      && ValidateUpdate(body, next).0.Ok?
      && IndexOfId(store, body.categoryId.value).Some?
      && !(body.name.Some? && NameTakenByOther(store, IndexOfId(store, body.categoryId.value).value, Trim(body.name.value)))
  {
  }

  /** An update the validators accept, addressed to an identifier no record has,
      answers 404; whatever it holds, an unknown identifier leaves the collection unchanged. */
  lemma PutUnknownId(store: seq<Category>, body: UpdateBody, next: nat)
    requires Truthy(body.categoryId)
    requires forall k :: 0 <= k < |store| ==> store[k].id != body.categoryId.value
    ensures Put(store, body, next).store == store
    ensures !Put(store, body, next).response.Updated?
    ensures !body.subcategories.NotAList? && ValidateUpdate(body, next).0.Ok? ==>
      Put(store, body, next).response == NotFound(CategoryNotFound)
  {
  }

  /** A successful update replaces the first record with that identifier and
      nothing else; the record keeps its identifier and `excel_file`; a sent name is
      stored trimmed; a sent subcategory list replaces the stored one whole (see
      `SentListStored`), an absent one leaves it as it was. */
  lemma PutUpdates(store: seq<Category>, body: UpdateBody, next: nat)
    requires Put(store, body, next).response.Updated?
    ensures var o := Put(store, body, next);
      var c := o.response.category;
      var i := IndexOfId(store, body.categoryId.value);
      && i.Some?
      && o.store == store[i.value := c]
      && c.id == body.categoryId.value == store[i.value].id
      && c.excelFile == store[i.value].excelFile
      && c.name == (if body.name.Some? then Trim(body.name.value) else store[i.value].name)
      && (body.subcategories.Missing? ==> c.subcategories == store[i.value].subcategories)
      && (body.subcategories.Items? ==> SentListStored(body.subcategories.items, c.subcategories, next, o.next))
  {
    var validated := ValidateUpdate(body, next);
    assert validated.0.Ok?;
  }

  /** An update that renames a record to a name another record has fails, and nothing changes. */
  lemma PutDuplicateNameFails(store: seq<Category>, body: UpdateBody, next: nat, i: nat, j: nat)
    requires Truthy(body.categoryId) && !body.subcategories.NotAList?
    requires IndexOfId(store, body.categoryId.value) == Some(i)
    requires body.name.Some? && j < |store| && j != i && store[j].name == Trim(body.name.value)
    ensures Put(store, body, next).response == ServerError(UpdateFailed)
    ensures Put(store, body, next).store == store
  {
    var validated := ValidateUpdate(body, next);
    if validated.0.Ok? {
      var updated := ApplyChanges(store[i], validated.0.value);
      assert store[j].name == updated.name;
      assert NameTakenByOther(store, i, updated.name);
    }
  }

  /** `PUT` keeps the collection's invariant. */
  lemma PutKeepsStoreValid(store: seq<Category>, body: UpdateBody, next: nat)
    requires StoreValid(store)
    ensures StoreValid(Put(store, body, next).store)
  {
    var o := Put(store, body, next);
    if o.response.Updated? {
      var i := IndexOfId(store, body.categoryId.value).value;
      var validated := ValidateUpdate(body, next);
      var updated := ApplyChanges(store[i], validated.0.value);
      assert StoredCategory(updated);
      ReplaceKeepsStoreValid(store, i, updated);
    }
  }

  /** `PUT` keeps `IdsBefore`: the record keeps its identifier, and the counter only advances. */
  lemma PutKeepsIdsBefore(store: seq<Category>, body: UpdateBody, next: nat)
    requires IdsBefore(store, next)
    ensures var o := Put(store, body, next);
      IdsBefore(o.store, o.next) && next <= o.next
  {
    var o := Put(store, body, next);
    IdsBeforeGrows(store, next, o.next);
    if o.response.Updated? {
      PutUpdates(store, body, next);
      var i := IndexOfId(store, body.categoryId.value).value;
      assert forall k :: 0 <= k < |o.store| ==> o.store[k].id == store[k].id;
    }
  }

  // ---------------------------------------------------------------------------
  // DELETE (lines 198-235)
  // ---------------------------------------------------------------------------

  datatype DeleteBody = DeleteBody(categoryId: Option<string>)

  /** `DELETE`: `findOneAndDelete({ id: categoryId })`; the response and the collection afterwards. */
  function Delete(store: seq<Category>, body: DeleteBody): (r: (Response, seq<Category>))
    ensures !Truthy(body.categoryId) ==> r == (BadRequest(IdRequired), store)
    ensures r.0.NotFound? ==> r.0.error == CategoryNotFound && r.1 == store
    ensures r.0.Deleted? ==> r.0.category in store && r.0.category.id == body.categoryId.value
    ensures r.0.BadRequest? || r.0.NotFound? || r.0.Deleted?
  {
    if !Truthy(body.categoryId) then (BadRequest(IdRequired), store)
    else match IndexOfId(store, body.categoryId.value)
      case None => (NotFound(CategoryNotFound), store)
      case Some(i) => (Deleted(store[i]), store[..i] + store[i + 1..])
  }

  /** Deleting an identifier no record has answers 404 and changes nothing. */
  lemma DeleteUnknownId(store: seq<Category>, id: Id)
    requires id != ""
    requires forall k :: 0 <= k < |store| ==> store[k].id != id
    ensures Delete(store, DeleteBody(Some(id))) == (NotFound(CategoryNotFound), store)
  {
  }

  /** In a valid collection, deleting an existing identifier removes exactly that
      record, with its embedded subcategories, keeps the others in order, and keeps
      the invariant. */
  lemma DeleteRemovesExactlyOne(store: seq<Category>, id: Id)
    requires StoreValid(store) && id != ""
    requires exists k :: 0 <= k < |store| && store[k].id == id
    ensures var r := Delete(store, DeleteBody(Some(id)));
      && r.0.Deleted? && r.0.category.id == id
      && r.1 == WithoutId(store, id)
      && |r.1| == |store| - 1
      && StoreValid(r.1)
  {
    var k :| 0 <= k < |store| && store[k].id == id;
    IndexOfIdUnique(store, id, k);
    WithoutIdRemovesOne(store, k);
    RemoveKeepsStoreValid(store, k);
  }

  /** A delete answers 200 exactly when `categoryId` is truthy and some record has it. */
  lemma DeleteSucceedsIff(store: seq<Category>, body: DeleteBody)
    ensures Delete(store, body).0.Deleted? <==>
      Truthy(body.categoryId) && exists k :: 0 <= k < |store| && store[k].id == body.categoryId.value
  {
    if Truthy(body.categoryId) {
      var id := body.categoryId.value;
      if exists k :: 0 <= k < |store| && store[k].id == id {
        var k :| 0 <= k < |store| && store[k].id == id;
        assert IndexOfId(store, id).Some?;
      } else {
        DeleteUnknownId(store, id);
      }
    }
  }

  /** A delete keeps `IdsBefore`: it only removes records. */
  lemma DeleteKeepsIdsBefore(store: seq<Category>, body: DeleteBody, next: nat)
    requires IdsBefore(store, next)
    ensures IdsBefore(Delete(store, body).1, next)
  {
    var r := Delete(store, body);
    if r.0.Deleted? {
      var i := IndexOfId(store, body.categoryId.value).value;
      assert r.1 == store[..i] + store[i + 1..];
      assert forall k :: 0 <= k < |r.1| ==> r.1[k] == (if k < i then store[k] else store[k + 1]);
    }
  }
}
