/** The records of src/models/categoryModel.ts and the constraints its two schemas
    declare: identifiers required and defaulted, names required and trimmed, category
    identifiers and names unique, `excel_file` defaulting to null; and the
    get-or-create model registry `getModelForSchema`. */
module CategoryModel {
  import opened Common
  import opened Ids

  /** The `excel_file` sub-document; `uploadedAt` is a timestamp. */
  datatype ExcelFile = ExcelFile(name: string, path: string, uploadedAt: int)

  datatype Subcategory = Subcategory(id: Id, name: string)

  /** `excelFile == None` is the stored `null`. */
  datatype Category = Category(id: Id, name: string, excelFile: Option<ExcelFile>, subcategories: seq<Subcategory>)

  /** A subcategory as handed to the schema, before defaults, setters and validators
      apply; `None` is an absent (`undefined`) field. */
  datatype SubcategoryInput = SubcategoryInput(id: Option<string>, name: Option<string>)

  /** A category as handed to the schema. `excelFile == None` covers both an absent and a `null` value. */
  datatype CategoryInput = CategoryInput(id: Option<string>, name: Option<string>, excelFile: Option<ExcelFile>, subcategories: seq<SubcategoryInput>)

  /** The two ways a write can be refused: a validator of the schema fails, or a
      unique index already holds the value. */
  datatype StoreError = ValidationFailed(path: string) | DuplicateKey(path: string)

  // ---------------------------------------------------------------------------
  // The shape every stored record has
  // ---------------------------------------------------------------------------

  /** A stored subcategory: `id` and `name` present and non-empty, `name` trimmed. */
  predicate StoredSubcategory(s: Subcategory) {
    s.id != "" && s.name != "" && IsTrimmed(s.name)
  }

  /** A stored category: `id` and `name` present and non-empty, `name` trimmed, and
      every embedded subcategory stored. */
  predicate StoredCategory(c: Category) {
    && c.id != ""
    && c.name != ""
    && IsTrimmed(c.name)
    && forall j :: 0 <= j < |c.subcategories| ==> StoredSubcategory(c.subcategories[j])
  }

  /** The unique index on `name` (an exact, case-sensitive comparison). */
  predicate UniqueNames(store: seq<Category>) {
    forall i, j :: 0 <= i < j < |store| ==> store[i].name != store[j].name
  }

  /** The unique index on `id`. */
  predicate UniqueIds(store: seq<Category>) {
    forall i, j :: 0 <= i < j < |store| ==> store[i].id != store[j].id
  }

  /** The invariant of the category collection. */
  predicate StoreValid(store: seq<Category>) {
    && (forall i :: 0 <= i < |store| ==> StoredCategory(store[i]))
    && UniqueNames(store)
    && UniqueIds(store)
  }

  // ---------------------------------------------------------------------------
  // Lookups shared by the route, the client cache and the page
  // ---------------------------------------------------------------------------

  /** The index of the first record with identifier `id` (`findIndex`, `findOne`). */
  function IndexOfId(cats: seq<Category>, id: Id): (r: Option<nat>)
    ensures r.Some? ==> r.value < |cats| && cats[r.value].id == id
    ensures r.Some? ==> forall k :: 0 <= k < r.value ==> cats[k].id != id
    ensures r.None? <==> forall k :: 0 <= k < |cats| ==> cats[k].id != id
  {
    if cats == [] then None
    else if cats[0].id == id then Some(0)
    else match IndexOfId(cats[1..], id)
      case None => None
      case Some(k) => Some(k + 1)
  }

  /** The index of the first record named exactly `name`: the search by name, beside
      the search by identifier above. The import loop's `categoryMap` lookup is this
      search over the categories collected so far; the page's case-insensitive search
      is a different one (`FindNameIgnoringCase`). */
  function IndexOfName(cats: seq<Category>, name: string): (r: Option<nat>)
    ensures r.Some? ==> r.value < |cats| && cats[r.value].name == name
    ensures r.Some? ==> forall k :: 0 <= k < r.value ==> cats[k].name != name
    ensures r.None? <==> forall k :: 0 <= k < |cats| ==> cats[k].name != name
  {
    if cats == [] then None
    else if cats[0].name == name then Some(0)
    else match IndexOfName(cats[1..], name)
      case None => None
      case Some(k) => Some(k + 1)
  }

  /** In a collection whose identifiers are unique, the record with a given
      identifier is the only one. */
  lemma IndexOfIdUnique(store: seq<Category>, id: Id, k: nat)
    requires UniqueIds(store)
    requires k < |store| && store[k].id == id
    ensures IndexOfId(store, id) == Some(k)
  {
  }

  /** The records whose identifier is not `id`, in their original order
      (`categories.filter(cat => cat.id !== id)`). */
  function WithoutId(cats: seq<Category>, id: Id): (r: seq<Category>)
    ensures |r| <= |cats|
    ensures forall k :: 0 <= k < |r| ==> r[k].id != id
  {
    if cats == [] then []
    else if cats[0].id == id then WithoutId(cats[1..], id)
    else [cats[0]] + WithoutId(cats[1..], id)
  }

  /** Filtering distributes over concatenation, so it keeps the relative order of
      the records it keeps. */
  lemma {:induction false} WithoutIdKeepsOrder(a: seq<Category>, b: seq<Category>, id: Id)
    ensures WithoutId(a + b, id) == WithoutId(a, id) + WithoutId(b, id)
  {
    if a == [] {
      assert a + b == b;
    } else {
      assert (a + b)[0] == a[0];
      assert (a + b)[1..] == a[1..] + b;
      WithoutIdKeepsOrder(a[1..], b, id);
    }
  }

  /** A record survives the filter exactly when it was there and has another identifier. */
  lemma {:induction false} WithoutIdMembers(cats: seq<Category>, id: Id, c: Category)
    ensures c in WithoutId(cats, id) <==> c in cats && c.id != id
  {
    if cats != [] {
      WithoutIdMembers(cats[1..], id, c);
      assert c in cats <==> c == cats[0] || c in cats[1..];
    }
  }

  /** Filtering out an identifier nobody has changes nothing. */
  lemma {:induction false} WithoutAbsentId(cats: seq<Category>, id: Id)
    requires forall k :: 0 <= k < |cats| ==> cats[k].id != id
    ensures WithoutId(cats, id) == cats
  {
    if cats != [] {
      WithoutAbsentId(cats[1..], id);
    }
  }

  /** In a collection with unique identifiers, filtering out the identifier of the
      record at `k` removes exactly that record. */
  lemma WithoutIdRemovesOne(store: seq<Category>, k: nat)
    requires UniqueIds(store)
    requires k < |store|
    ensures WithoutId(store, store[k].id) == store[..k] + store[k + 1..]
  {
    var id := store[k].id;
    assert forall j :: 0 <= j < |store| && j != k ==> store[j].id != id;
    WithoutOnlyHolder(store, k, id);
  }

  /** Filtering out an identifier only the record at `k` has removes that record. */
  lemma WithoutOnlyHolder(store: seq<Category>, k: nat, id: Id)
    requires k < |store| && store[k].id == id
    requires forall j :: 0 <= j < |store| && j != k ==> store[j].id != id
    ensures WithoutId(store, id) == store[..k] + store[k + 1..]
  {
    var pre, post := store[..k], store[k + 1..];
    assert store == pre + ([store[k]] + post);
    assert forall j :: 0 <= j < |pre| ==> pre[j] == store[j];
    assert forall j :: 0 <= j < |post| ==> post[j] == store[k + 1 + j];
    var rest := [store[k]] + post;
    assert rest[0] == store[k] && rest[1..] == post;
    WithoutIdKeepsOrder(pre, rest, id);
    WithoutAbsentId(pre, id);
    WithoutAbsentId(post, id);
  }

  /** Removing one record keeps the collection's invariant. */
  lemma RemoveKeepsStoreValid(store: seq<Category>, k: nat)
    requires StoreValid(store) && k < |store|
    ensures StoreValid(store[..k] + store[k + 1..])
  {
    var s' := store[..k] + store[k + 1..];
    assert forall a :: 0 <= a < |s'| ==> s'[a] == store[if a < k then a else a + 1];
  }

  /** Replacing the record at `i` by one with the same identifier, in stored form, and
      with a name no other record has keeps the collection's invariant. */
  lemma ReplaceKeepsStoreValid(store: seq<Category>, i: nat, c: Category)
    requires StoreValid(store) && i < |store|
    requires StoredCategory(c) && c.id == store[i].id
    requires forall j :: 0 <= j < |store| && j != i ==> store[j].name != c.name
    ensures StoreValid(store[i := c])
  {
  }

  // ---------------------------------------------------------------------------
  // Applying the schema: defaults, the `trim` setter and the `required` validators
  // ---------------------------------------------------------------------------

  /** An `id` path: absent takes the default (a freshly generated identifier);
      present but empty fails `required`. Yields the counter after any draw. */
  function CastId(id: Option<string>, next: nat, path: string): (r: (Result<Id, StoreError>, nat))
    ensures r.0.Ok? <==> id.None? || id.value != ""
    ensures r.0.Ok? ==> r.0.value != ""
    ensures id.Some? ==> r.1 == next && (r.0.Ok? ==> r.0.value == id.value)
    ensures id.None? ==> r.1 == next + 1 && IssuedIn(r.0.value, next, r.1)
  {
    match id
    case None =>
      FreshIdIssuedIn(next, next, next + 1);
      (Ok(FreshId(next)), next + 1)
    case Some(s) => if s == "" then (Err(ValidationFailed(path)), next) else (Ok(s), next)
  }

  /** A `name` path: the `trim` setter runs first, then `required` refuses an absent or empty value. */
  function CastName(name: Option<string>, path: string): (r: Result<string, StoreError>)
    ensures r.Ok? <==> name.Some? && !Blank(name.value)
    ensures r.Ok? ==> r.value != "" && IsTrimmed(r.value) && r.value == Trim(name.value)
  {
    match name
    case None => Err(ValidationFailed(path))
    case Some(s) => var t := Trim(s); if t == "" then Err(ValidationFailed(path)) else Ok(t)
  }

  /** The subcategory schema accepts this input. */
  predicate SubcategoryAccepted(s: SubcategoryInput) {
    (s.id.None? || s.id.value != "") && s.name.Some? && !Blank(s.name.value)
  }

  /** The number of default identifiers a list of subcategory inputs draws. */
  function MissingIds(inputs: seq<SubcategoryInput>): nat {
    if inputs == [] then 0 else (if inputs[0].id.None? then 1 else 0) + MissingIds(inputs[1..])
  }

  /** `SubcategorySchema` applied to one embedded subcategory. */
  function CastSubcategory(input: SubcategoryInput, next: nat): (r: (Result<Subcategory, StoreError>, nat))
    ensures r.0.Ok? <==> SubcategoryAccepted(input)
    ensures r.1 == next + (if input.id.None? then 1 else 0)
    ensures r.0.Ok? ==> StoredSubcategory(r.0.value) && r.0.value.name == Trim(input.name.value)
    ensures r.0.Ok? && input.id.Some? ==> r.0.value.id == input.id.value
    ensures r.0.Ok? && input.id.None? ==> IssuedIn(r.0.value.id, next, r.1)
  {
    var (id, next') := CastId(input.id, next, "subcategories.id");
    var name := CastName(input.name, "subcategories.name");
    if id.Err? then (Err(id.error), next')
    else if name.Err? then (Err(name.error), next')
    else (Ok(Subcategory(id.value, name.value)), next')
  }

  /** `s` is what the subcategory schema makes of `input` while the counter runs through `[lo, hi)`. */
  predicate CastsTo(input: SubcategoryInput, s: Subcategory, lo: nat, hi: nat) {
    && StoredSubcategory(s)
    && input.name.Some? && s.name == Trim(input.name.value)
    && (input.id.Some? ==> s.id == input.id.value)
    && (input.id.None? ==> IssuedIn(s.id, lo, hi))
  }

  /** Every input of the list passes the subcategory schema. */
  predicate AllAccepted(inputs: seq<SubcategoryInput>) {
    forall k :: 0 <= k < |inputs| ==> SubcategoryAccepted(inputs[k])
  }

  lemma AllAcceptedSplit(inputs: seq<SubcategoryInput>)
    requires inputs != []
    ensures AllAccepted(inputs) <==> SubcategoryAccepted(inputs[0]) && AllAccepted(inputs[1..])
  {
    if SubcategoryAccepted(inputs[0]) && AllAccepted(inputs[1..]) {
      forall k | 1 <= k < |inputs| ensures SubcategoryAccepted(inputs[k]) {
        assert inputs[k] == inputs[1..][k - 1];
      }
    }
  }

  /** `[SubcategorySchema]` applied to a whole array: every element must pass. */
  function CastSubcategories(inputs: seq<SubcategoryInput>, next: nat): (r: (Result<seq<Subcategory>, StoreError>, nat))
    ensures r.0.Ok? <==> AllAccepted(inputs)
    ensures r.1 == next + MissingIds(inputs)
    ensures r.0.Ok? ==> |r.0.value| == |inputs|
    ensures r.0.Ok? ==> forall k :: 0 <= k < |inputs| ==> CastsTo(inputs[k], r.0.value[k], next, r.1)
  {
    if inputs == [] then (Ok([]), next)
    else
      var head := CastSubcategory(inputs[0], next);
      var tail := CastSubcategories(inputs[1..], head.1);
      AllAcceptedSplit(inputs);
      if head.0.Err? then (Err(head.0.error), tail.1)
      else if tail.0.Err? then (Err(tail.0.error), tail.1)
      else
        var r := [head.0.value] + tail.0.value;
        CastListStep(inputs, head.0.value, tail.0.value, next, head.1, tail.1);
        (Ok(r), tail.1)
  }

  lemma CastListStep(inputs: seq<SubcategoryInput>, head: Subcategory, tail: seq<Subcategory>, lo: nat, mid: nat, hi: nat)
    requires inputs != [] && |tail| == |inputs| - 1
    requires lo <= mid <= hi
    requires CastsTo(inputs[0], head, lo, mid)
    requires forall k :: 0 <= k < |tail| ==> CastsTo(inputs[1..][k], tail[k], mid, hi)
    ensures forall k :: 0 <= k < |inputs| ==> CastsTo(inputs[k], ([head] + tail)[k], lo, hi)
  {
    forall k | 0 <= k < |inputs| ensures CastsTo(inputs[k], ([head] + tail)[k], lo, hi) {
      if k > 0 {
        assert inputs[k] == inputs[1..][k - 1] && ([head] + tail)[k] == tail[k - 1];
      }
    }
  }

  /** The category schema accepts this input. */
  predicate CategoryAccepted(c: CategoryInput) {
    && (c.id.None? || c.id.value != "")
    && c.name.Some? && !Blank(c.name.value)
    && AllAccepted(c.subcategories)
  }

  /** `CategorySchema` applied to a new document: defaults, setters, validators. */
  function CastCategory(input: CategoryInput, next: nat): (r: (Result<Category, StoreError>, nat))
    ensures r.0.Ok? <==> CategoryAccepted(input)
    ensures next <= r.1
    ensures r.0.Ok? ==> StoredCategory(r.0.value)
    ensures r.0.Ok? ==> r.0.value.name == Trim(input.name.value)
    ensures r.0.Ok? && input.id.Some? ==> r.0.value.id == input.id.value
    ensures r.0.Ok? ==> r.0.value.excelFile == input.excelFile
    ensures r.0.Ok? ==> |r.0.value.subcategories| == |input.subcategories|
    ensures r.0.Ok? ==> forall k :: 0 <= k < |input.subcategories| ==>
      && r.0.value.subcategories[k].name == Trim(input.subcategories[k].name.value)
      && (input.subcategories[k].id.Some? ==> r.0.value.subcategories[k].id == input.subcategories[k].id.value)
  {
    var (id, mid) := CastId(input.id, next, "id");
    var name := CastName(input.name, "name");
    var (subs, next') := CastSubcategories(input.subcategories, mid);
    if id.Err? then (Err(id.error), next')
    else if name.Err? then (Err(name.error), next')
    else if subs.Err? then (Err(subs.error), next')
    else (Ok(Category(id.value, name.value, input.excelFile, subs.value)), next')
  }

  /** A category built without an `excel_file` value is stored with `null` there. */
  lemma ExcelFileDefaultsToNull(input: CategoryInput, next: nat)
    requires input.excelFile.None?
    requires CategoryAccepted(input)
    ensures CastCategory(input, next).0 == Ok(CastCategory(input, next).0.value)
    ensures CastCategory(input, next).0.value.excelFile.None?
  {
  }

  /** Saving a new record: both unique indexes must be free. */
  function Insert(store: seq<Category>, rec: Category): (r: Result<seq<Category>, StoreError>)
    ensures r.Ok? <==> forall k :: 0 <= k < |store| ==> store[k].id != rec.id && store[k].name != rec.name
    ensures r.Ok? ==> r.value == store + [rec]
    ensures r.Err? ==> r.error.DuplicateKey?
    ensures StoreValid(store) && StoredCategory(rec) && r.Ok? ==> StoreValid(r.value)
  {
    if IndexOfId(store, rec.id).Some? then Err(DuplicateKey("id"))
    else if IndexOfName(store, rec.name).Some? then Err(DuplicateKey("name"))
    else Ok(store + [rec])
  }

  /** A record whose name is already stored, compared exactly, cannot be inserted. */
  lemma DuplicateNameRefused(store: seq<Category>, rec: Category, k: nat)
    requires k < |store| && store[k].name == rec.name
    ensures Insert(store, rec) == Err(Insert(store, rec).error)
    ensures Insert(store, rec).error.DuplicateKey?
  {
  }

  // ---------------------------------------------------------------------------
  // getModelForSchema: a get-or-create registry
  // ---------------------------------------------------------------------------

  /** The two schemas the file declares. */
  datatype Schema = SubcategorySchema | CategorySchema

  /** A compiled model: the name it was registered under and its schema. */
  datatype Model = Model(name: string, schema: Schema)

  /** `mongoose.models`: the process-wide map from model name to model. */
  class ModelRegistry {
    var models: map<string, Model>

    /** Every registered model is listed under its own name. */
    ghost predicate Valid()
      reads this
    {
      forall n :: n in models ==> models[n].name == n
    }

    constructor ()
      ensures Valid() && models == map[]
    {
      models := map[];
    }

    /** Returns the model already registered under `modelName`, whatever schema it
        was built from; otherwise registers a new one (`mongoose.model`) and returns it. */
    method GetModelForSchema(modelName: string, schema: Schema) returns (m: Model)
      requires Valid()
      modifies this
      ensures Valid()
      ensures modelName in old(models) ==> m == old(models)[modelName] && models == old(models)
      ensures modelName !in old(models) ==> m == Model(modelName, schema) && models == old(models)[modelName := m]
      ensures m.name == modelName && modelName in models && models[modelName] == m
    {
      if modelName in models {
        return models[modelName];
      }
      m := Model(modelName, schema);
      models := models[modelName := m];
    }
  }

  /** A second lookup under the same name returns the model the first one returned,
      whichever schema it is given. */
  method GetModelForSchemaIdempotent(registry: ModelRegistry, modelName: string, first: Schema, second: Schema)
    returns (a: Model, b: Model)
    requires registry.Valid()
    modifies registry
    ensures a == b
    ensures registry.models == old(registry.models)[modelName := a]
  {
    a := registry.GetModelForSchema(modelName, first);
    b := registry.GetModelForSchema(modelName, second);
  }

  /** The module-level export: the `Category` model. */
  method CategoryModelOf(registry: ModelRegistry) returns (m: Model)
    requires registry.Valid()
    modifies registry
    ensures m.name == "Category"
    ensures "Category" !in old(registry.models) ==> m.schema == CategorySchema
    ensures registry.models == old(registry.models)["Category" := m]
  {
    m := registry.GetModelForSchema("Category", CategorySchema);
  }
}
