# Category management, modelled in Dafny

This project models the core of a small category-management web application. A
category has an identifier, a unique name, an optional `excel_file` record and a list
of embedded subcategories, each with its own identifier and name. The model covers
four parts:

- **The storage schema and model registry** (`src/models/categoryModel.ts`). Module
  `CategoryModel` holds:
  - the records;
  - what the two schemas make of a document: default identifiers, the `trim` setter
    on names, the `required` validators, and `excel_file` defaulting to null;
  - the unique indexes on a category's `id` and `name`, which together give the
    collection invariant `StoreValid`;
  - `getModelForSchema` as a get-or-create registry class.
- **The request handlers** (`src/app/api/productcategoryapi/route.ts`).
  - Module `CategoryImport` holds the spreadsheet import loop. It is written as a
    `while` loop over the rows with a map from name to position. The source's map holds
    the category objects themselves and adds subcategories through that alias
    (route.ts lines 47 and 64-69); the position into the batch stands for the alias.
    The loop is proved equal to a fold `ImportRows`. About that fold the model
    proves:
    - the names it yields: one per distinct truthy category cell, in order of first
      occurrence;
    - the subcategories of each name;
    - the number of records;
    - that the drawn identifiers are fresh and distinct.
  - Module `CategoryRoute` holds `POST` (spreadsheet import and JSON create), `PUT`
    and `DELETE` as functions. Each goes from the collection, the request body and
    the identifier counter to the response, the new collection and the new counter.
    Each handler's success condition is stated as an if-and-only-if. For the JSON
    create and the import this holds under `IdsBefore`: no stored identifier is one
    the counter is still to issue. Each handler is proved to keep `StoreValid` and
    `IdsBefore`.
- **The client cache** (`src/store/category.slice.ts`). Module `CategorySlice` holds:
  - the reducer as a function `Reduce` over the slice state;
  - a class `CategoryCache` whose fields are the slice state, with one method per
    reducer case;
  - lemmas showing that, after a request succeeds, its fulfilled action makes the
    cache equal to the collection again.
- **The page's decision logic** (`src/app/page.tsx`). Module `CategoryPage` holds:
  - for each handler, which request it dispatches, if any, given the cached list and
    the input fields;
  - a class `CategoryManagement` holding the component's `useState` fields;
  - lemmas about the requests the page sends for a list mirroring a valid
    collection. The route accepts every create (given `IdsBefore`), every rename
    from the edit field, every added or removed subcategory and every delete. It
    accepts the rename that `addCategory` sends exactly when no other record has the
    typed name exactly.

Module `Common` holds what the sources take from JavaScript: truthiness of an
optional string, `trim`, and `toLowerCase`. Module `Ids` replaces `uuidv4()` and
`ObjectId` with a counter: the identifier drawn at counter value `n` is the decimal
numeral of `n`.

Behaviours the model makes explicit:

- The import groups rows by the raw cell value, while the schema trims names. Two
  cells such as `"Fruit"` and `" Fruit"` therefore become two records with the same
  stored name. The ordered `insertMany` writes the first record, refuses the second,
  and the request answers 500 with the first record left in the collection
  (`CategoryRoute.WhitespaceVariantsPartlyWritten`).
- The page compares names ignoring case, but the store compares them exactly. A
  create the page sends (given `IdsBefore`), and a rename from the edit field, are
  therefore always accepted (`CategoryPage.PageCreateSucceeds`,
  `CategoryPage.PageRenameSucceeds`).
- `addCategory` with a name already listed, ignoring case, does not create anything.
  It sends a rename of the first matching category to the typed spelling. The route
  refuses that rename when another category has exactly that spelling. For example,
  with `Books` and `books` listed, typing `books` renames `Books` to `books`, and the
  unique name index rejects it (`CategoryPage.AddCategoryRenameRefused`,
  `CategoryPage.PageAddCategoryRenameIff`).

## Model

| member | source | states |
|---|---|---|
| Common.Trim | src/models/categoryModel.ts:11-15 | The trimmed string has no white space at either end. It is empty exactly when the input is all white space. An already-trimmed string is unchanged. |
| Common.TrimDropsOnlyEnds | src/models/categoryModel.ts:11-15 | What `trim` keeps is a contiguous middle part of the input, with only white space before and after it. |
| Common.TrimIdempotent | src/app/page.tsx:75-79 | Trimming a trimmed name changes nothing. |
| Common.ToLower | src/app/page.tsx:79 | Lower-casing keeps the length and lowers each ASCII letter, leaving every other character alone. |
| Common.LowerCaseIsEqualIgnoringCase | src/app/page.tsx:113 | A name and its lower-cased form compare equal ignoring case. |
| Ids.DecimalRoundTrip | src/app/api/productcategoryapi/route.ts:107 | Reading back the numeral of a counter value gives that value. |
| Ids.SerialOfFreshId | src/app/api/productcategoryapi/route.ts:107 | The counter value at which a drawn identifier was issued can be recovered from it. |
| Ids.FreshIdInjective | src/app/api/productcategoryapi/route.ts:107-111 | Two draws give the same identifier exactly when they were made at the same counter value. |
| Ids.FreshIdsDistinct | src/app/api/productcategoryapi/route.ts:109-111 | The generator never issues the same identifier twice. |
| Ids.FreshIdsInRange | src/app/api/productcategoryapi/route.ts:109-111 | Every identifier drawn while the counter runs through a range is marked as issued in that range. |
| Ids.IssuedElsewhereDiffers | src/app/api/productcategoryapi/route.ts:168 | An identifier issued in one counter range differs from any identifier drawn outside it. |
| CategoryModel.IndexOfId | src/store/category.slice.ts:137 | Returns the first position holding the identifier. It returns none exactly when no record has it. |
| CategoryModel.IndexOfName | src/models/categoryModel.ts:26-31 | Returns the first position holding exactly the name. It returns none exactly when no record has it. |
| CategoryModel.IndexOfIdUnique | src/models/categoryModel.ts:20-25 | Under the unique `id` index, looking up a record's identifier finds that record. |
| CategoryModel.WithoutId | src/store/category.slice.ts:148 | Filtering by identifier leaves no record with that identifier and never lengthens the list. |
| CategoryModel.WithoutIdKeepsOrder | src/store/category.slice.ts:148 | Filtering distributes over concatenation, so the kept records stay in order. |
| CategoryModel.WithoutIdMembers | src/store/category.slice.ts:148 | A record survives the filter exactly when it was listed and has another identifier. |
| CategoryModel.WithoutAbsentId | src/store/category.slice.ts:148 | Filtering out an identifier nobody has changes nothing. |
| CategoryModel.WithoutOnlyHolder | src/store/category.slice.ts:148 | Filtering out an identifier held only at position k removes exactly position k. |
| CategoryModel.WithoutIdRemovesOne | src/app/api/productcategoryapi/route.ts:212 | Under unique identifiers, filtering out a record's identifier removes exactly that record. |
| CategoryModel.RemoveKeepsStoreValid | src/app/api/productcategoryapi/route.ts:212 | Removing one record keeps the collection invariant: stored shape, unique names, unique identifiers. |
| CategoryModel.ReplaceKeepsStoreValid | src/app/api/productcategoryapi/route.ts:172-176 | Replacing a record by a stored-form record with the same identifier, and a name no other record has, keeps the invariant. |
| CategoryModel.CastId | src/models/categoryModel.ts:5-10 | An `id` is accepted exactly when it is absent or non-empty. An absent one takes a freshly drawn identifier and advances the counter by one. A given one is kept. |
| CategoryModel.CastName | src/models/categoryModel.ts:11-15 | A `name` is accepted exactly when it is present and not blank. The stored value is the trimmed name. |
| CategoryModel.CastSubcategory | src/models/categoryModel.ts:4-16 | A subcategory is accepted exactly when both its paths pass. The result is in stored form, with the trimmed name and the given or fresh identifier. The counter advances only for a default. |
| CategoryModel.CastSubcategories | src/models/categoryModel.ts:40 | An embedded array is accepted exactly when every element is. The result has the same length, each element cast in place. The counter advances once per missing identifier. |
| CategoryModel.CastCategory | src/models/categoryModel.ts:19-43 | A category is accepted exactly when its id, its name and all its subcategories pass. The result is in stored form, with the trimmed name, the given id, the given `excel_file`, and subcategories cast position by position. |
| CategoryModel.ExcelFileDefaultsToNull | src/models/categoryModel.ts:32-39 | A document without `excel_file` is stored with null there. |
| CategoryModel.Insert | src/models/categoryModel.ts:20-31 | Saving succeeds exactly when no stored record has the new record's identifier or name. On success the record is appended. A refusal is a duplicate-key error. Inserting a stored-form record keeps the invariant. |
| CategoryModel.DuplicateNameRefused | src/models/categoryModel.ts:26-31 | A record whose name is already stored, compared exactly, is refused with a duplicate key. |
| CategoryModel.ModelRegistry.constructor | src/models/categoryModel.ts:51 | The registry starts empty and valid. |
| CategoryModel.ModelRegistry.GetModelForSchema | src/models/categoryModel.ts:46-57 | A registered name returns its existing model and changes nothing, whatever schema is passed. An unregistered name registers and returns a new model built from the schema. Every entry keeps its own name. |
| CategoryModel.GetModelForSchemaIdempotent | src/models/categoryModel.ts:46-57 | Two lookups under one name return the same model, even with different schemas. Only that one name is registered. |
| CategoryModel.CategoryModelOf | src/models/categoryModel.ts:59-61 | The exported model is the one named `Category`. It is built from the category schema unless a model of that name was already registered. |
| CategoryImport.EnsureCategoryProperties | src/app/api/productcategoryapi/route.ts:53-61 | After the create step, the name is present and names stay unique. The name is appended exactly when it was new. |
| CategoryImport.NewCategoryFields | src/app/api/productcategoryapi/route.ts:54-58 | A category the loop creates has the drawn identifier, the cell's name, no `excel_file` and an empty subcategory list. |
| CategoryImport.AppendSubcategoryPushes | src/app/api/productcategoryapi/route.ts:66-69 | Pushing a subcategory keeps the category's other fields and its list, and puts the new entry last. |
| CategoryImport.EnsureCategoryEffect | src/app/api/productcategoryapi/route.ts:53-61 | The create step keeps the categories collected so far, and afterwards some category has the name. The batch is unchanged when a category had the name already. Otherwise it gains one new category with the next identifier. |
| CategoryImport.AddSubcategoryToEffect | src/app/api/productcategoryapi/route.ts:63-71 | The append step keeps every category's identifier, name and `excel_file`. It changes nothing when no category has the name. Otherwise it draws one identifier, and the only list that changes is one of a category with that name, which gains the new subcategory at its end. |
| CategoryImport.ImportStepEffect | src/app/api/productcategoryapi/route.ts:49-72 | A row without a truthy category changes nothing. Otherwise a category with the row's name exists afterwards. One row adds at most one category and draws at most two identifiers. |
| CategoryImport.ImportRowsBounds | src/app/api/productcategoryapi/route.ts:46-72 | The import yields at most one category per row and draws at most two identifiers per row. |
| CategoryImport.AddSubcategoryToKeepsNames | src/app/api/productcategoryapi/route.ts:63-71 | Appending a subcategory leaves the category names as they were. |
| CategoryImport.MapAgreesWithSearch | src/app/api/productcategoryapi/route.ts:53 | `categoryMap.has`/`get` answer as a search of `importedCategories` by name. |
| CategoryImport.IndexesAfterNew | src/app/api/productcategoryapi/route.ts:59-60 | `set` and `push` of a new category keep the map pointing at each name's category. |
| CategoryImport.IndexesAfterUpdate | src/app/api/productcategoryapi/route.ts:64-69 | Updating a category in place keeps the map's positions right. |
| CategoryImport.ImportRowsStep | src/app/api/productcategoryapi/route.ts:49-72 | One more row is one more pass of the loop body. |
| CategoryImport.CreateStep | src/app/api/productcategoryapi/route.ts:53-61 | Creating a category for an unmapped name is the fold's create step. It keeps the map and unique names. |
| CategoryImport.AppendStep | src/app/api/productcategoryapi/route.ts:63-71 | Appending to the mapped category is the fold's append step. It keeps the map and unique names. |
| CategoryImport.Import | src/app/api/productcategoryapi/route.ts:46-72 | The loop with its map returns exactly the batch and counter of the fold `ImportRows`. |
| CategoryImport.StepNames | src/app/api/productcategoryapi/route.ts:49-72 | One pass adds the row's category name exactly when it is truthy and new. Otherwise the names are unchanged. |
| CategoryImport.ImportNames | src/app/api/productcategoryapi/route.ts:46-72 | The imported names are the truthy category cells without repeats, in order of first occurrence, compared exactly. |
| CategoryImport.ImportUniqueNames | src/app/api/productcategoryapi/route.ts:53 | No two imported categories share a name. |
| CategoryImport.ImportedNameIffListed | src/app/api/productcategoryapi/route.ts:53-61 | A name gets a category exactly when some row carries it as a truthy category cell. |
| CategoryImport.UnlistedNameHasNoSubcategories | src/app/api/productcategoryapi/route.ts:63 | A name no row carries collects no subcategory. |
| CategoryImport.SubcategoryNamesForStep | src/app/api/productcategoryapi/route.ts:63-71 | A further row adds to a name's subcategory list at most its own subcategory. |
| CategoryImport.EnsureCategoryKeepsMatch | src/app/api/productcategoryapi/route.ts:53-61 | Creating a category keeps each category's subcategories equal to those of its rows. |
| CategoryImport.RowWithoutPairKeepsMatch | src/app/api/productcategoryapi/route.ts:63 | A row lacking a truthy category or subcategory adds no subcategory. |
| CategoryImport.AddSubcategoryKeepsMatch | src/app/api/productcategoryapi/route.ts:63-71 | Appending a row's subcategory to its category keeps the match. |
| CategoryImport.StepSubcategories | src/app/api/productcategoryapi/route.ts:49-72 | One pass keeps each category's subcategories equal to those of its rows. |
| CategoryImport.ImportSubcategories | src/app/api/productcategoryapi/route.ts:63-71 | Each imported category's subcategory names are the truthy subcategory cells of the rows with that category name, in file order, repeats included. |
| CategoryImport.TotalSubcategoriesUpdate | src/app/api/productcategoryapi/route.ts:66-69 | Replacing one category changes the subcategory total by the difference in its list lengths. |
| CategoryImport.AddOneIdKeepsIds | src/app/api/productcategoryapi/route.ts:55 | Adding one freshly drawn identifier keeps the identifiers distinct and issued in range. |
| CategoryImport.EnsureCategoryIds | src/app/api/productcategoryapi/route.ts:55 | The create step keeps the identifiers distinct, drawn in range, and one per draw. |
| CategoryImport.AddSubcategoryIds | src/app/api/productcategoryapi/route.ts:67 | The append step keeps the identifiers distinct, drawn in range, and one per draw. |
| CategoryImport.StepIds | src/app/api/productcategoryapi/route.ts:49-72 | One pass keeps the identifier invariant. |
| CategoryImport.ImportIds | src/app/api/productcategoryapi/route.ts:55-67 | No identifier occurs twice among the imported categories and subcategories. All were drawn during the import. The counter advances once per category plus once per subcategory. |
| CategoryImport.StepSubcategoryCount | src/app/api/productcategoryapi/route.ts:63-71 | One pass adds a subcategory exactly when the row's category and subcategory cells are both truthy. |
| CategoryImport.ImportSubcategoryCount | src/app/api/productcategoryapi/route.ts:63-71 | The batch has one subcategory per row with both cells truthy. |
| CategoryImport.ImportCounts | src/app/api/productcategoryapi/route.ts:46-72 | There is one category per distinct truthy category cell, and one subcategory per row with both cells truthy. |
| CategoryImport.UnnamedRowsIgnored | src/app/api/productcategoryapi/route.ts:53-63 | Rows with a falsy category cell contribute nothing, not even their subcategory, and draw no identifier. |
| CategoryImport.CategoryOnlyRowCreatesCategory | src/app/api/productcategoryapi/route.ts:53-61 | A row with a truthy category and a falsy subcategory still yields that category. |
| CategoryImport.RowListed | src/app/api/productcategoryapi/route.ts:50-53 | A row's truthy category cell is among the listed category names. |
| CategoryImport.FruitAndVegExample | src/app/api/productcategoryapi/route.ts:46-72 | Rows (Fruit, Apple), (Fruit, Banana), (Veg, Carrot) yield Fruit with Apple and Banana, then Veg with Carrot, with identifiers drawn in row order. |
| CategoryImport.ExampleFirstRow | src/app/api/productcategoryapi/route.ts:53-71 | The first row of that example creates Fruit and appends Apple. |
| CategoryImport.ExampleSecondRow | src/app/api/productcategoryapi/route.ts:63-71 | The second row appends Banana to the existing Fruit. |
| CategoryImport.ExampleThirdRow | src/app/api/productcategoryapi/route.ts:53-71 | The third row creates Veg after Fruit and appends Carrot. |
| CategoryRoute.Status | src/app/api/productcategoryapi/route.ts:116-127 | Every response carries one of the statuses the handlers use: 200, 201, 400, 404 or 500. |
| CategoryRoute.AsInput | src/app/api/productcategoryapi/route.ts:75 | A loop-built category is handed to the schema with its identifiers and names as given. |
| CategoryRoute.Documents | src/app/api/productcategoryapi/route.ts:75 | `insertMany` receives one document per imported category, in order. |
| CategoryRoute.DocsAcceptedEach | src/app/api/productcategoryapi/route.ts:75 | A batch passes validation exactly when each document does. |
| CategoryRoute.CastAll | src/app/api/productcategoryapi/route.ts:75 | Validation of the batch succeeds exactly when every document is accepted, with one record per document. |
| CategoryRoute.CastAllCasts | src/app/api/productcategoryapi/route.ts:75 | Each validated record is what the schema makes of the document at its position. |
| CategoryRoute.AllCastToAt | src/app/api/productcategoryapi/route.ts:75 | The record at each position is the cast of the document there. |
| CategoryRoute.AllCastToStored | src/app/api/productcategoryapi/route.ts:75 | Validated records are in stored form. |
| CategoryRoute.InsertInOrder | src/app/api/productcategoryapi/route.ts:75 | The ordered write stores a prefix of the records. It stops only at a record the unique indexes refuse, with everything before it written. |
| CategoryRoute.InsertInOrderKeepsStoreValid | src/app/api/productcategoryapi/route.ts:75 | However far the ordered write gets, the invariant holds. |
| CategoryRoute.SaveBatch | src/app/api/productcategoryapi/route.ts:74-79 | The answer is 201 with the records, which then follow the old collection, or else 500 with the create error. The old collection is always kept as a prefix. |
| CategoryRoute.SaveBatchKeepsStoreValid | src/app/api/productcategoryapi/route.ts:74-75 | Saving the batch keeps the invariant, whatever part of it is written. |
| CategoryRoute.IdsBeforeExcludesFutureIds | src/app/api/productcategoryapi/route.ts:107 | Under `IdsBefore`, no stored identifier equals one the counter still issues. The empty collection satisfies it for every counter value. |
| CategoryRoute.StoreValidIffWritable | src/models/categoryModel.ts:20-31 | A collection satisfies the invariant exactly when each record is in stored form and all of them could be written one by one, in order, through the two unique indexes. |
| CategoryRoute.InsertInOrderSucceedsIff | src/app/api/productcategoryapi/route.ts:75 | The ordered write pass stores the whole batch exactly when no record shares an identifier or a name with a stored record or with another record of the batch. |
| CategoryRoute.DocumentsAccepted | src/app/api/productcategoryapi/route.ts:74-75 | The loop's documents all pass the schema exactly when every collected category and subcategory name is non-blank. |
| CategoryRoute.BatchRecords | src/app/api/productcategoryapi/route.ts:74-75 | A validated batch has one record per category. Each keeps its identifier and `excel_file`, has its name trimmed, and keeps its subcategories in order with their names trimmed. |
| CategoryRoute.SavedRecordsFit | src/app/api/productcategoryapi/route.ts:74-75 | Under `IdsBefore`, records cast from a batch of freshly drawn, distinct identifiers fit the indexes exactly when their trimmed names are pairwise distinct and not stored. |
| CategoryRoute.PostImportSucceedsIff | src/app/api/productcategoryapi/route.ts:30-80 | Under `IdsBefore`, importing a file answers 201 exactly when every collected name is non-blank and the trimmed category names are pairwise distinct and none is stored. |
| CategoryRoute.SaveBatchKeepsIdsBefore | src/app/api/productcategoryapi/route.ts:74-75 | Saving a batch whose identifiers were drawn from the counter keeps `IdsBefore`, whatever part of the batch is written. |
| CategoryRoute.PostImportKeepsIdsBefore | src/app/api/productcategoryapi/route.ts:30-80 | An import keeps `IdsBefore`, and the counter never goes back. |
| CategoryRoute.PostImport | src/app/api/productcategoryapi/route.ts:30-80 | A form without a file answers 400 and changes nothing. Otherwise the answer is 201 with the stored records appended, or 500. Existing records are never touched, and the invariant is kept. |
| CategoryRoute.PostImportSaves | src/app/api/productcategoryapi/route.ts:46-75 | A file's import saves exactly the batch the loop built, with the counter after the loop. |
| CategoryRoute.CastOfImported | src/app/api/productcategoryapi/route.ts:75 | A stored import record is its loop category with names trimmed and identifiers kept. |
| CategoryRoute.ImportStoresBatch | src/app/api/productcategoryapi/route.ts:74-79 | A successful import answers with one record per loop category, in order, each as built with names trimmed and no `excel_file`. |
| CategoryRoute.ImportedHaveNoExcelFile | src/app/api/productcategoryapi/route.ts:54-58 | Loop-built categories carry no `excel_file`. |
| CategoryRoute.TwoCategoryRows | src/app/api/productcategoryapi/route.ts:49-61 | Two rows with distinct category cells and no subcategory yield two new categories with consecutive identifiers. |
| CategoryRoute.WhitespaceVariantsPartlyWritten | src/app/api/productcategoryapi/route.ts:53-79 | Two category cells equal after trimming but not before: the request answers 500, while the first record stays written. |
| CategoryRoute.SaveBatchWrites | src/app/api/productcategoryapi/route.ts:75-79 | Once validation passes, the answer and the collection follow the ordered write. |
| CategoryRoute.SecondRecordRefused | src/app/api/productcategoryapi/route.ts:75 | In the ordered write of two records with one name, the first is written and the second refused. |
| CategoryRoute.NewCategoryCast | src/app/api/productcategoryapi/route.ts:54-58 | The schema stores a loop-created category with its identifier, the trimmed name, no file and no subcategories. |
| CategoryRoute.NewCategoryAccepted | src/app/api/productcategoryapi/route.ts:54-58 | A loop-created category with a non-blank name passes the schema. |
| CategoryRoute.TwoDocumentsCast | src/app/api/productcategoryapi/route.ts:75 | The two documents of that example validate to the two records with trimmed names. |
| CategoryRoute.TwoDocumentsAccepted | src/app/api/productcategoryapi/route.ts:75 | Both documents of that example are accepted. |
| CategoryRoute.TwoRecordsCast | src/app/api/productcategoryapi/route.ts:75 | The cast records of two new categories are those categories with trimmed names. |
| CategoryRoute.FreshSubcategories | src/app/api/productcategoryapi/route.ts:109-112 | The list keeps each element's name, drops any sent id, and gives every element its own fresh identifier. |
| CategoryRoute.PostJson | src/app/api/productcategoryapi/route.ts:96-128 | A falsy name answers 400 and changes nothing. A 500 changes nothing. A 201 appends exactly the returned record. The invariant is kept. |
| CategoryRoute.CreatedRecord | src/app/api/productcategoryapi/route.ts:105-118 | The created record has a fresh identifier, the trimmed name, and no `excel_file`. It has one subcategory per element of an array `subcategories` and none otherwise, each with its trimmed name and a distinct fresh identifier. |
| CategoryRoute.CreateDuplicateNameFails | src/app/api/productcategoryapi/route.ts:115-127 | A create whose trimmed name is already stored answers 500 and saves nothing. |
| CategoryRoute.CreateDocumentAccepted | src/app/api/productcategoryapi/route.ts:106-113 | The create document passes the schema exactly when the name is not blank and every array element has a non-blank name. |
| CategoryRoute.CreateDocumentFields | src/app/api/productcategoryapi/route.ts:106-113 | The create document has a fresh identifier, the sent name and no `excel_file`. Under an array it has one entry per element, each with the element's name and a fresh identifier, all distinct. Otherwise it has no entries. |
| CategoryRoute.PostJsonKeepsIdsBefore | src/app/api/productcategoryapi/route.ts:97-118 | A JSON create keeps `IdsBefore`, and the counter never goes back. |
| CategoryRoute.CreateSucceedsIff | src/app/api/productcategoryapi/route.ts:96-118 | A create answers 201 exactly when the name is truthy and not blank, every array element has a non-blank name, and no stored record has the trimmed name. |
| CategoryRoute.FillIds | src/app/api/productcategoryapi/route.ts:164-170 | Each element keeps its name and a truthy id. A falsy id is replaced by one drawn during this call. Afterwards every element has a truthy id. |
| CategoryRoute.FillIdsDistinct | src/app/api/productcategoryapi/route.ts:168 | The identifiers drawn for different elements differ. |
| CategoryRoute.NoMissingIds | src/app/api/productcategoryapi/route.ts:164-170 | After the ids are filled, the schema draws no default identifier. |
| CategoryRoute.FilledListCast | src/app/api/productcategoryapi/route.ts:164-176 | The filled list passes the subcategory schema exactly when every element has a non-blank name. It is then stored with names trimmed, sent ids kept, and drawn ids fresh and distinct. |
| CategoryRoute.ValidateUpdate | src/app/api/productcategoryapi/route.ts:164-176 | The update passes the validators exactly when any sent name is not blank and any sent list has only non-blank names. A sent name is stored trimmed. A sent list is stored as `SentListStored` says. |
| CategoryRoute.ApplyChanges | src/app/api/productcategoryapi/route.ts:172-176 | The record keeps its id and `excel_file`. A sent name replaces the old one, and a sent list replaces the old list whole. |
| CategoryRoute.Put | src/app/api/productcategoryapi/route.ts:150-196 | A falsy `categoryId` answers 400. A truthy non-array `subcategories` answers 500. Every answer but 200 leaves the collection unchanged. A 404 carries "Category not found". |
| CategoryRoute.PutSucceedsIff | src/app/api/productcategoryapi/route.ts:150-186 | An update answers 200 exactly when it has an id, a list or none, passes the validators, finds the record, and sends no name another record has once trimmed. |
| CategoryRoute.PutUnknownId | src/app/api/productcategoryapi/route.ts:172-182 | An unknown identifier changes nothing. Past validation, it answers 404. |
| CategoryRoute.PutUpdates | src/app/api/productcategoryapi/route.ts:172-186 | A 200 replaces exactly the record with that identifier. It keeps the id and `excel_file`. A sent name is stored trimmed. A missing list keeps the old one, and a sent list is stored per `SentListStored`. |
| CategoryRoute.PutDuplicateNameFails | src/app/api/productcategoryapi/route.ts:172-194 | Renaming to another record's name answers 500 and changes nothing. |
| CategoryRoute.PutKeepsStoreValid | src/app/api/productcategoryapi/route.ts:150-196 | `PUT` keeps the invariant. |
| CategoryRoute.PutKeepsIdsBefore | src/app/api/productcategoryapi/route.ts:150-196 | An update keeps `IdsBefore`: the record keeps its identifier and the counter never goes back. |
| CategoryRoute.Delete | src/app/api/productcategoryapi/route.ts:198-225 | A falsy id answers 400, and a 404 changes nothing. A deleted record was stored, under the requested identifier. |
| CategoryRoute.DeleteUnknownId | src/app/api/productcategoryapi/route.ts:212-218 | Deleting an identifier no record has answers 404 and changes nothing. |
| CategoryRoute.DeleteRemovesExactlyOne | src/app/api/productcategoryapi/route.ts:212-225 | In a valid collection, deleting an existing identifier returns that record and removes exactly it, keeping the others in order and the invariant. |
| CategoryRoute.DeleteSucceedsIff | src/app/api/productcategoryapi/route.ts:198-225 | A delete answers 200 exactly when `categoryId` is truthy and some record has it. |
| CategoryRoute.DeleteKeepsIdsBefore | src/app/api/productcategoryapi/route.ts:212 | A delete keeps `IdsBefore`. |
| CategorySlice.ReplaceFirst | src/store/category.slice.ts:136-141 | Only the first entry with the payload's identifier is replaced. Identifiers and length are kept. A list without that identifier is unchanged. |
| CategorySlice.Reduce | src/store/category.slice.ts:104-163 | Only fetch actions change `loading`. Only `resetError` and rejections change `error`. |
| CategorySlice.FetchTransitions | src/store/category.slice.ts:115-125 | Pending marks loading. Fulfilled replaces the list and marks success. Rejected marks failure and records the message. |
| CategorySlice.RejectionsSetOnlyError | src/store/category.slice.ts:109-161 | A rejected create, update, delete or import only records its message. `resetError` only clears it. |
| CategorySlice.PendingMutationsIgnored | src/store/category.slice.ts:127-161 | The pending actions of the four mutations leave the state unchanged. |
| CategorySlice.CreateAppends | src/store/category.slice.ts:128-130 | A fulfilled create appends the record after the old list. |
| CategorySlice.DeleteFilters | src/store/category.slice.ts:147-149 | A fulfilled delete keeps exactly the entries with another identifier, in order. |
| CategorySlice.ImportConcatenates | src/store/category.slice.ts:155-158 | A fulfilled import yields the old list followed by the batch. |
| CategorySlice.CacheFollowsCreate | src/store/category.slice.ts:128-130 | A cache equal to the collection equals it again after a successful create is reduced. |
| CategorySlice.CacheFollowsImport | src/store/category.slice.ts:155-158 | The same holds after a successful import. |
| CategorySlice.CacheFollowsUpdate | src/store/category.slice.ts:136-141 | The same holds after a successful update. |
| CategorySlice.CacheFollowsDelete | src/store/category.slice.ts:147-149 | The same holds after a successful delete of a valid collection. |
| CategorySlice.CategoryCache.constructor | src/store/category.slice.ts:31-35 | The slice starts with the initial state: no categories, idle, no error. |
| CategorySlice.CategoryCache.ResetError | src/store/category.slice.ts:109-111 | The new state is the reducer's state for `resetError`. |
| CategorySlice.CategoryCache.FetchPending | src/store/category.slice.ts:115-117 | The new state is the reducer's state for the fetch pending action. |
| CategorySlice.CategoryCache.FetchFulfilled | src/store/category.slice.ts:118-121 | The new state is the reducer's state for the fetch fulfilled action. |
| CategorySlice.CategoryCache.FetchRejected | src/store/category.slice.ts:122-125 | The new state is the reducer's state for the fetch rejected action. |
| CategorySlice.CategoryCache.CreateFulfilled | src/store/category.slice.ts:128-130 | The new state is the reducer's state for the create fulfilled action. |
| CategorySlice.CategoryCache.CreateRejected | src/store/category.slice.ts:131-133 | The new state is the reducer's state for the create rejected action. |
| CategorySlice.CategoryCache.UpdateFulfilled | src/store/category.slice.ts:136-141 | An update by index in place gives the reducer's state for the update fulfilled action. |
| CategorySlice.CategoryCache.UpdateRejected | src/store/category.slice.ts:142-144 | The new state is the reducer's state for the update rejected action. |
| CategorySlice.CategoryCache.DeleteFulfilled | src/store/category.slice.ts:147-149 | The new state is the reducer's state for the delete fulfilled action. |
| CategorySlice.CategoryCache.DeleteRejected | src/store/category.slice.ts:150-152 | The new state is the reducer's state for the delete rejected action. |
| CategorySlice.CategoryCache.ImportFulfilled | src/store/category.slice.ts:155-158 | The new state is the reducer's state for the import fulfilled action. |
| CategorySlice.CategoryCache.ImportRejected | src/store/category.slice.ts:159-161 | The new state is the reducer's state for the import rejected action. |
| CategoryPage.FindNameIgnoringCase | src/app/page.tsx:78-80 | Returns the first category whose name matches ignoring case. It returns none exactly when no name matches. |
| CategoryPage.WithoutSubcategory | src/app/page.tsx:153-155 | No entry with the identifier remains, and the list never grows. |
| CategoryPage.WithoutSubcategoryMembers | src/app/page.tsx:153-155 | An entry is kept exactly when it was listed and has another identifier. |
| CategoryPage.WithoutSubcategoryKeepsOrder | src/app/page.tsx:153-155 | The filter keeps relative order: it distributes over concatenation. |
| CategoryPage.AddCategoryDecision | src/app/page.tsx:74-75 | Nothing is sent exactly when the input is blank. |
| CategoryPage.AddCategoryDecisionCases | src/app/page.tsx:77-98 | For a non-blank input, a create with the trimmed name and no subcategories is sent exactly when no listed name matches ignoring case. Otherwise a rename to the trimmed input is sent for a category whose name matches. |
| CategoryPage.AddSubcategoryDecision | src/app/page.tsx:104-133 | Nothing is sent exactly when the input is absent or blank, the category is not cached, or it already has that name ignoring case. Otherwise an update is sent: the old list plus one new entry with the trimmed name. |
| CategoryPage.RemoveSubcategoryDecision | src/app/page.tsx:147-160 | Nothing is sent exactly when the category is not cached. Otherwise an update is sent, and its list is exactly the category's list with every entry under that subcategory identifier dropped, the rest in their order. |
| CategoryPage.RenameDecision | src/app/page.tsx:167-194 | The rename is ignored exactly when nothing is being edited or the name is blank. It is dropped exactly when another category has the trimmed name ignoring case. Otherwise a rename to the trimmed name is sent. |
| CategoryPage.PageCreateSucceeds | src/app/page.tsx:90-97 | A create the page sends for a list equal to the collection answers 201, given `IdsBefore`. |
| CategoryPage.PageRenameSucceeds | src/app/page.tsx:184-189 | A rename the page sends, for a valid collection it mirrors, answers 200. |
| CategoryPage.PageAddSubcategorySucceeds | src/app/page.tsx:122-133 | A new-subcategory update the page sends, for a valid collection it mirrors, answers 200. |
| CategoryPage.PageAddCategoryRenameIff | src/app/page.tsx:74-98 | When the typed name matches a listed name ignoring case, the page sends a rename of the first such category to the trimmed input. The route applies it exactly when no other record has exactly that name. |
| CategoryPage.AddCategoryRenameRefused | src/app/page.tsx:78-89 | With two listed names that differ only in case, typing the later one exactly sends a rename of an earlier category. The route refuses it with 500 and nothing changes. |
| CategoryPage.PageRemoveSubcategorySucceeds | src/app/page.tsx:147-160 | The update that `removeSubcategory` sends for a valid collection it mirrors is applied. |
| CategoryPage.PageRemoveCategorySucceeds | src/app/page.tsx:142-145 | The delete that `removeCategory` sends for a stored category answers 200 with that record and removes exactly it. |
| CategoryPage.CategoryManagement.constructor | src/app/page.tsx:50-60 | The component starts with no unsaved changes, no edit, and empty inputs. |
| CategoryPage.CategoryManagement.AddCategory | src/app/page.tsx:74-102 | Sends the `addCategory` decision. When something is sent, it clears the input and marks unsaved changes. Every other field is unchanged. |
| CategoryPage.CategoryManagement.AddSubcategory | src/app/page.tsx:104-140 | Sends the `addSubcategory` decision. When something is sent, it clears that category's input and marks unsaved changes. Every other field is unchanged. |
| CategoryPage.CategoryManagement.RemoveCategory | src/app/page.tsx:142-145 | Always sends the delete and marks unsaved changes. |
| CategoryPage.CategoryManagement.RemoveSubcategory | src/app/page.tsx:147-160 | Sends the `removeSubcategory` decision and marks unsaved changes only when something is sent. |
| CategoryPage.CategoryManagement.StartEditingCategory | src/app/page.tsx:162-165 | Records the edited category's id and name. Nothing else changes. |
| CategoryPage.CategoryManagement.UpdateCategoryName | src/app/page.tsx:167-194 | Sends the rename only when the decision is to send. The edit fields are cleared unless the handler returned at its first check. Unsaved changes are marked only when something is sent. |

## Left out

- The spreadsheet parsing (`XLSX.read`, `sheet_to_json`) is not modelled, because it is a foreign library. The import takes the rows of the first sheet as given, and cells are strings or empty. Numeric or date cells are not modelled.
- The database connection (`connect`), the CORS headers and the `OPTIONS` handler are left out. They do not affect the collection.
- A body that is not valid JSON answers 400 in `POST` and 500 in `PUT` and `DELETE`. This is left out: the handlers take a parsed body, so the `DELETE` handler's 500 answer ("Failed to delete category") has no path in the model.
- `GET` and its `createdAt` order are left out, together with the `timestamps` fields, because they need a clock.
- The schema's `unique` flag on `subcategories.id` is left out. An index on an embedded array field spans documents, and that is Mongoose and MongoDB behaviour this model does not represent. Only the category `id` and `name` indexes are modelled.
- `PUT`: only the `name` and `subcategories` fields of the update are modelled. Any other field sent (`excel_file`, `id`, timestamps) is not. An explicit `null` is treated like an absent field.
- CategoryRoute.PostJson: a falsy non-array `subcategories` is treated as missing, which gives the same result as the source's empty list. Non-string `name` values are not modelled.
- Common.Trim: only ASCII white space is removed, not the full Unicode set that JavaScript's `trim` removes.
- Common.ToLower: only ASCII letters are mapped, unlike JavaScript's full Unicode `toLowerCase`.
- Identifiers come from a counter standing in for `uuidv4()` and `ObjectId`. That counter is one sequence threaded through the handler. Randomness and global uniqueness are not modelled. The model relies on freshness only: `IdsBefore` states that stored identifiers were not issued from the current counter on.
- CategoryPage.CategoryManagement.AddSubcategory: the `uuidv4()` the page draws is a parameter.
- `insertMany` is modelled as Mongoose's ordered default. Every document is validated first, and one failure refuses the whole batch. The records are then written in order until the first duplicate key, and those already written remain. Write concerns and server-side errors other than duplicate keys are not modelled.
- The request thunks of the slice (`fetchCategories` … `importCategoriesFromExcel`) are left out, because they are network calls through `axios`. Their outcomes appear as the pending, fulfilled and rejected actions of `Event`, and the rejection message is a parameter.
- The page's rendering (JSX), the `useEffect` fetch on mount, drag-and-drop, and `handleFileUpload` (a dispatch of the import for a chosen file) are left out. They are user-interface and file I/O. The page's requests are values (`Request`), and their effect is taken through the route's handlers.
- The model registry keeps only model names and schemas. Mongoose's compiled model internals are not modelled.
